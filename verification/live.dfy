// What an operation on one block leaves alone: every other block in use.
module Live {
  import opened Bits
  import opened SizeClass
  import opened Heap
  import opened Policy
  import opened Aligned

  predicate Used(t: Tiling, a: nat) {
    a in t && !t[a].free
  }

  // Apart from the blocks in s, the same blocks are in use, with the same sizes.
  ghost predicate SameUsed(t: Tiling, t': Tiling, s: set<nat>) {
    && (forall a {:trigger Used(t, a)} {:trigger Used(t', a)} :: a !in s ==> (Used(t, a) <==> Used(t', a)))
    && (forall a {:trigger t'[a]} {:trigger t[a]} :: a !in s && Used(t, a) && Used(t', a) ==> t'[a].words == t[a].words)
  }

  lemma SameUsedTrans(t: Tiling, t': Tiling, t'': Tiling, s: set<nat>)
    requires SameUsed(t, t', s) && SameUsed(t', t'', s)
    ensures SameUsed(t, t'', s)
  {
    assert forall a :: a !in s && Used(t, a) && Used(t'', a) ==> Used(t', a);
  }

  lemma SplitUsed(t: Tiling, b: nat, n: nat, s: set<nat>)
    requires b in t && n < t[b].words && Next(t, b) in t && b + 1 + n !in t && Next(t, b) != b
    requires t[b].free || b in s
    ensures SameUsed(t, Split(t, b, n), s)
  {
  }

  lemma AbsorbUsed(t: Tiling, p: nat, s: set<nat>)
    requires p in t && p < Next(t, p) < Next(t, Next(t, p))
    requires var q := Next(t, p); q in t && t[q].free && Next(t, q) in t
    requires t[p].free || p in s
    ensures SameUsed(t, Absorb(t, p), s)
  {
  }

  lemma MergeNextUsed(h: State, b: nat, x: set<nat>, s: set<nat>)
    requires Inv(h, x) && b in h.t && h.t[b].words > 0 && (h.t[b].free ==> b in x) && (h.t[b].free || b in s)
    ensures SameUsed(h.t, MergeNext(h, b).t, s)
  {
    hide Inv;
    Neighbours(h, x, b);
    var q := Next(h.t, b);
    if h.t[q].free {
      AbsorbUsed(h.t, b, s);
    }
  }

  lemma MergePrevUsed(h: State, b: nat)
    requires Inv(h, {b}) && b in h.t && h.t[b].words > 0 && h.t[b].free
    ensures SameUsed(h.t, MergePrev(h, b).h.t, {})
  {
    hide Inv;
    Neighbours(h, {b}, b);
    if PrevFree(h.t, b) {
      AbsorbUsed(h.t, h.t[b].prev, {});
    }
  }

  lemma TrimFreeUsed(h: State, b: nat, n: nat)
    requires Inv(h, {b}) && b in h.t && h.t[b].free && h.t[b].words > 0 && n >= 3
    ensures SameUsed(h.t, TrimFree(h, b, n).t, {})
  {
    if CanSplit(h.t, b, n) {
      SplitIsSplit(h.t, b, n);
      hide Inv;
      SplitUsed(h.t, b, n, {});
    }
  }

  // Splitting a block in use leaves it its first n words and a free rest.
  ghost predicate SplitLive(h: State, b: nat, n: nat)
    requires CanSplit(h.t, b, n)
  {
    var t', r := Split(h.t, b, n), b + 1 + n;
    && Inv(h.(t := t'), {r}) && SameUsed(h.t, t', {b})
    && r in t' && t'[r].free && t'[r].words > 0
    && b in t' && !t'[b].free && t'[b].words == n
  }

  // Splitting a block in use: the rest is a free block in no list.
  lemma SplitInUse(h: State, b: nat, n: nat)
    requires Inv(h, {}) && b in h.t && !h.t[b].free && n >= 3 && CanSplit(h.t, b, n)
    ensures SplitLive(h, b, n)
  {
    hide Inv, Split, SameUsed;
    SplitInv(h, b, n, {});
    assert {} + {b + 1 + n} == {b + 1 + n};
    PrevBelow(h, {}, b);
    SplitShape(h.t, b, n);
    SplitUsed(h.t, b, n, {b});
  }

  lemma TrimUsedUsed(h: State, b: nat, n: nat)
    requires Inv(h, {}) && b in h.t && !h.t[b].free && n >= 3
    ensures SameUsed(h.t, TrimUsed(h, b, n).t, {b})
  {
    hide Inv, SameUsed;
    if CanSplit(h.t, b, n) {
      SplitInUse(h, b, n);
      hide Split;
      var h1 := h.(t := Split(h.t, b, n));
      MergeNextUsed(h1, b + 1 + n, {b + 1 + n}, {b});
      SameUsedTrans(h.t, h1.t, MergeNext(h1, b + 1 + n).t, {b});
    } else {
      SameUsedRefl(h.t, b);
    }
  }

  lemma TrimLeadingUsed(h: State, b: nat, gap: nat)
    requires Inv(h, {b}) && b in h.t && h.t[b].free && gap >= 4 && CanSplit(h.t, b, gap)
    ensures SameUsed(h.t, TrimLeading(h, b, gap).h.t, {})
  {
    SplitIsSplit(h.t, b, gap - 1);
    hide Inv;
    SplitUsed(h.t, b, gap - 1, {});
  }

  lemma SetFreeUsed(t: Tiling, b: nat, free: bool)
    requires b in t
    ensures SameUsed(t, SetFree(t, b, free), {b}) && Used(SetFree(t, b, free), b) == !free
  {
  }

  // tlsf_free takes one block out of use and touches no other.
  lemma FreeUsed(h: State, b: nat)
    requires Inv(h, {}) && b in h.t && h.t[b].words > 0 && !h.t[b].free
    ensures SameUsed(h.t, Free(h, b).t, {b}) && !Used(Free(h, b).t, b)
  {
    hide Inv, SameUsed;
    var h1 := h.(t := SetFree(h.t, b, true));
    SetFreeInv(h, b, true, {});
    assert {} + {b} == {b};
    SetFreeUsed(h.t, b, true);
    MergePrevInv(h1, b);
    MergePrevDone(h1, b);
    MergePrevUsed(h1, b);
    var m := MergePrev(h1, b);
    MergeNextUsed(m.h, m.b, {m.b}, {});
    SameUsedTrans(h1.t, m.h.t, Free(h, b).t, {});
    SameUsedWeaken(h.t, h1.t, Free(h, b).t, b);
  }

  lemma SameUsedWeaken(t: Tiling, t': Tiling, t'': Tiling, b: nat)
    requires SameUsed(t, t', {b}) && SameUsed(t', t'', {})
    ensures SameUsed(t, t'', {b}) && Used(t'', b) == Used(t', b)
    ensures Used(t', b) ==> t''[b].words == t'[b].words
  {
    assert forall a :: Used(t', a) <==> Used(t'', a);
  }

  lemma SameUsedStrengthen(t: Tiling, t': Tiling, t'': Tiling, b: nat)
    requires SameUsed(t, t', {}) && SameUsed(t', t'', {b})
    ensures SameUsed(t, t'', {b}) && (Used(t, b) <==> Used(t', b))
  {
    assert forall a :: Used(t, a) <==> Used(t', a);
  }

  // The block in hand when it is put in use: one block more, and no other change.
  lemma PrepareUsedUsed(h: State, b: nat, n: nat)
    requires Inv(h, {b}) && b in h.t && h.t[b].free && h.t[b].words >= n >= 3
    ensures var t' := PrepareUsed(h, b, n).t;
            && SameUsed(h.t, t', {b}) && Used(t', b) && n <= t'[b].words < n + 4
  {
    hide Inv, SameUsed;
    TrimFreeUsed(h, b, n);
    TrimFreeShape(h, {b}, b, n);
    var t1 := TrimFree(h, b, n).t;
    SetFreeUsed(t1, b, false);
    SameUsedStrengthen(h.t, t1, SetFree(t1, b, false), b);
  }

  // tlsf_malloc puts one block in use that was not, at most 3 words larger than asked for.
  lemma MallocUsed(h: State, n: nat)
    requires Fits(n) && Inv(h, {}) && n >= 3 && Malloc(h, n).b != NULL
    ensures var m := Malloc(h, n);
            && m.b in h.t && h.t[m.b].free
            && SameUsed(h.t, m.h.t, {m.b}) && Used(m.h.t, m.b) && n <= m.h.t[m.b].words < n + 4
  {
    LocateFacts(h, n);
    LocateInv(h, n);
    hide Inv, SameUsed;
    var l := LocateFree(h, n);
    PrepareUsedUsed(l.h, l.b, n);
  }

  // tlsf_memalign likewise: the leading gap it may cut off is free, as all of the block was.
  lemma MemalignUsed(h: State, k: nat, size: nat)
    requires 0 < Pow2(k) <= TWO_64 && Fits(AlignedRequest(Pow2(k), size))
    requires Inv(h, {}) && Addressable(h.t) && k < 64 && (AdjustRequest(size, 8) != 0 || k <= 3)
    requires Memalign(h, Pow2(k), size).b != NULL
    ensures var n, m := Request(size), Memalign(h, Pow2(k), size);
            && SameUsed(h.t, m.h.t, {m.b}) && !Used(h.t, m.b)
            && Used(m.h.t, m.b) && n <= m.h.t[m.b].words < n + 4
  {
    hide Inv, SameUsed, Pow2, AlignedRequest, AdjustRequest, LocateFree, TrimLeading, PrepareUsed, AlignGap,
         Addressable, Memalign, Multiple, CanSplit, PrevFree;
    var w, n := AlignedRequest(Pow2(k), size), AdjustRequest(size, 8) / 8;
    MemalignSteps(h, Pow2(k), size, w, n);
    LocateEither(h, w);
    LocateFacts(h, w);
    LocateInv(h, w);
    RequestCases(k, size);
    var l := LocateFree(h, w);
    FreeAlone(h, l.b);
    PrevBelow(h, {}, l.b);
    GapFits(h.t, l.b, k, n);
    GapUsed(l.h, l.b, AlignGap(8 * (l.b + 2), Pow2(k)), n);
  }

  lemma GapUsed(h: State, b: nat, gap: int, n: nat)
    requires Inv(h, {b}) && b in h.t && h.t[b].free && !PrevFree(h.t, b) && h.t[b].prev < b && n >= 3
    requires gap == 0 ==> h.t[b].words >= n
    requires gap != 0 ==> gap >= 32 && CanSplit(h.t, b, gap / 8) && h.t[b].words - gap / 8 >= n
    ensures var l := if gap >= 8 then TrimLeading(h, b, gap / 8) else Outcome(h, b);
            var t' := PrepareUsed(l.h, l.b, n).t;
            && SameUsed(h.t, t', {l.b}) && !Used(h.t, l.b)
            && Used(t', l.b) && n <= t'[l.b].words < n + 4
  {
    hide Inv, SameUsed, TrimLeading, PrepareUsed, PrevFree;
    if gap >= 8 {
      var l := TrimLeading(h, b, gap / 8);
      TrimLeadingInv(h, b, gap / 8);
      TrimLeadingShape(h, b, gap / 8);
      TrimLeadingUsed(h, b, gap / 8);
      PrepareUsedUsed(l.h, l.b, n);
      SameUsedStrengthen(h.t, l.h.t, PrepareUsed(l.h, l.b, n).t, l.b);
    } else {
      PrepareUsedUsed(h, b, n);
    }
  }

  // ---------------------------------------------------------------- realloc

  lemma ReallocInPlace(h: State, b: nat, n: nat)
    requires Inv(h, {}) && b in h.t && !h.t[b].free && h.t[b].words > 0 && n >= 3 && !MustMove(h.t, b, n)
    ensures var h1 := if n > h.t[b].words then MergeNext(h, b) else h;
            && Inv(h1, {}) && SameUsed(h.t, h1.t, {b}) && Used(h1.t, b) && h1.t[b].words >= n
            && h1.t[b].words >= h.t[b].words
  {
    hide Inv, SameUsed;
    if n > h.t[b].words {
      Neighbours(h, {}, b);
      MergeNextInv(h, b, {});
      MergeNextUsed(h, b, {}, {b});
      MergeNextShape(h, b);
    } else {
      SameUsedRefl(h.t, b);
    }
  }

  lemma SameUsedRefl(t: Tiling, b: nat)
    ensures SameUsed(t, t, {b})
  {
  }

  lemma TrimUsedShape(h: State, b: nat, n: nat)
    requires Inv(h, {}) && b in h.t && !h.t[b].free && n >= 3 && h.t[b].words >= n
    ensures var t' := TrimUsed(h, b, n).t;
            Used(t', b) && n <= t'[b].words < n + 4
  {
    hide Inv;
    if CanSplit(h.t, b, n) {
      SplitInUse(h, b, n);
      hide Split;
      var h1 := h.(t := Split(h.t, b, n));
      MergeNextUsed(h1, b + 1 + n, {b + 1 + n}, {});
      assert Used(h1.t, b);
    }
  }

  // The block at b can have n words where it is: all that starts in them is free.
  ghost predicate RoomFor(t: Tiling, b: nat, n: nat) {
    forall a :: a in t && b < a < b + 1 + n ==> t[a].free
  }

  // In other words, the next block in use, which may be the sentinel, comes behind them.
  lemma RoomUpTo(t: Tiling, b: nat, n: nat, e: nat)
    requires b < e && e in t && !t[e].free && forall a :: a in t && b < a < e ==> t[a].free
    ensures RoomFor(t, b, n) <==> b + 1 + n <= e
  {
  }

  // The comparison with the two sizes and a header is exactly that.
  lemma MovesExactly(h: State, b: nat, n: nat)
    requires Inv(h, {}) && b in h.t && h.t[b].words > 0
    ensures MustMove(h.t, b, n) <==> !RoomFor(h.t, b, n)
  {
    var q := Next(h.t, b);
    Neighbours(h, {}, b);
    Behind(h.t, b);
    if h.t[q].free {
      Neighbours(h, {}, q);
      Behind(h.t, q);
      hide Inv;
      RoomUpTo(h.t, b, n, Next(h.t, q));
    } else {
      hide Inv;
      RoomUpTo(h.t, b, n, q);
    }
  }

  lemma Behind(t: Tiling, b: nat)
    requires Geometry(t) && b in t && t[b].words > 0
    ensures forall a :: a in t && a > b ==> a >= Next(t, b)
  {
  }

  // tlsf_realloc to a size it accepts keeps the invariant; it stays in place if
  // and only if there is room; what it returns has room, and no block other than
  // the argument and the result changes.
  lemma ReallocKeeps(h: State, b: nat, size: nat)
    requires MustMove(h.t, b, Request(size)) ==> Fits(Request(size))
    requires Inv(h, {}) && b in h.t && !h.t[b].free && h.t[b].words > 0 && 0 < size < BLOCK_SIZE_MAX
    ensures var n, m := AdjustRequest(size, 8) / 8, Realloc(h, b, size);
            && Inv(m.h, {})
            && (m.b == NULL ==> m.h == h)
            && (m.b != NULL ==> Used(m.h.t, m.b) && n <= m.h.t[m.b].words < n + 4 && SameUsed(h.t, m.h.t, {b, m.b}))
            && (m.b != NULL && m.b != b ==> !Used(h.t, m.b) && !Used(m.h.t, b))
            && (m.b == b <==> RoomFor(h.t, b, n))
            && (m.b != b ==> m.b == Malloc(h, n).b)
  {
    AdjustedRequest(size);
    MovesExactly(h, b, Request(size));
    hide AdjustRequest, MustMove, RoomFor;
    var n := AdjustRequest(size, 8) / 8;
    if MustMove(h.t, b, n) {
      ReallocMoves(h, b, n);
    } else {
      ReallocStays(h, b, n);
    }
  }

  lemma ReallocStays(h: State, b: nat, n: nat)
    requires Inv(h, {}) && b in h.t && !h.t[b].free && h.t[b].words > 0 && n >= 3 && !MustMove(h.t, b, n)
    ensures var h' := TrimUsed(if n > h.t[b].words then MergeNext(h, b) else h, b, n);
            Inv(h', {}) && Used(h'.t, b) && n <= h'.t[b].words < n + 4 && SameUsed(h.t, h'.t, {b, b})
  {
    hide Inv, SameUsed, MustMove, MergeNext, TrimUsed;
    ReallocInPlace(h, b, n);
    hide Inv, SameUsed, MustMove, MergeNext;
    var h1 := if n > h.t[b].words then MergeNext(h, b) else h;
    TrimUsedInv(h1, b, n);
    TrimUsedUsed(h1, b, n);
    TrimUsedShape(h1, b, n);
    SameUsedTrans(h.t, h1.t, TrimUsed(h1, b, n).t, {b});
    assert {b, b} == {b};
  }

  lemma ReallocMoves(h: State, b: nat, n: nat)
    requires Fits(n) && Inv(h, {}) && b in h.t && !h.t[b].free && h.t[b].words > 0 && n >= 3
    ensures var l := Malloc(h, n);
            && Inv(l.h, {})
            && (l.b == NULL ==> l.h == h)
            && (l.b != NULL ==>
                  var h' := Free(l.h, b);
                  && Inv(h', {}) && l.b != b && !Used(h.t, l.b) && !Used(h'.t, b)
                  && Used(h'.t, l.b) && n <= h'.t[l.b].words < n + 4 && SameUsed(h.t, h'.t, {b, l.b}))
  {
    hide Inv;
    LocateFacts(h, n);
    MallocInv(h, n);
    var l := Malloc(h, n);
    if l.b != NULL {
      MallocUsed(h, n);
      assert Used(h.t, b) && Used(l.h.t, b);
      FreeInv(l.h, b);
      FreeUsed(l.h, b);
      hide Malloc, Free;
      var h' := Free(l.h, b);
      assert Used(l.h.t, l.b) && Used(h'.t, l.b);
      SameUsedBoth(h.t, l.h.t, h'.t, b, l.b);
    }
  }

  lemma SameUsedBoth(t: Tiling, t': Tiling, t'': Tiling, a: nat, b: nat)
    requires SameUsed(t, t', {b}) && SameUsed(t', t'', {a})
    ensures SameUsed(t, t'', {a, b})
  {
    assert forall c :: c !in {a, b} && Used(t, c) && Used(t'', c) ==> Used(t', c);
  }
}
