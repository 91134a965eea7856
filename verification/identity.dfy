// Freeing a block right after it was handed out restores the heap exactly:
// the tiling and the order of every free list.
module Identity {
  import opened Bits
  import opened SizeClass
  import opened Heap
  import opened Policy
  import opened Aligned

  // ---------------------------------------------------------------- tilings

  lemma AbsorbUndoesSplit(t: Tiling, b: nat, n: nat)
    requires b in t && Next(t, b) in t && n < t[b].words && b + 1 + n !in t
    requires t[Next(t, b)].prev == b
    ensures Absorb(Split(t, b, n), b) == t
  {
    var t' := Split(t, b, n);
    assert Next(t', b) == b + 1 + n && Next(t', b + 1 + n) == Next(t, b);
  }

  // Cutting at m + 1 + n words after the block at m words was cut off, and joining the first two.
  lemma AbsorbBetweenSplits(t: Tiling, b: nat, m: nat, n: nat)
    requires b in t && Next(t, b) in t && m + 1 + n < t[b].words && b + 1 + m !in t && b + 2 + m + n !in t
    ensures At(Split(t, b, m), b + 1 + m).words > n
    ensures Absorb(Split(Split(t, b, m), b + 1 + m, n), b) == Split(t, b, m + 1 + n)
  {
    var r := b + 1 + m;
    var t1 := Split(t, b, m);
    assert Next(t1, r) == Next(t, b);
    var t2 := Split(t1, r, n);
    assert Next(t2, b) == r && Next(t2, r) == r + 1 + n;
  }

  lemma SetFreeTwice(t: Tiling, b: nat)
    requires b in t && t[b].free
    ensures SetFree(SetFree(t, b, false), b, true) == t
  {
  }

  // ---------------------------------------------------------------- lists

  lemma RemoveUndoesInsert(h: State, b: nat)
    requires ClassOf(h.t, b) in h.lists
    ensures Remove(Insert(h, b), b) == h
  {
    hide ClassOf;
    var s := h.lists[ClassOf(h.t, b)];
    assert ([b] + s)[0] == b && IndexOf([b] + s, b) == 0;
    assert Without([b] + s, b) == s;
  }

  lemma InsertUndoesRemove(h: State, b: nat)
    requires ClassOf(h.t, b) in h.lists
    requires var s := h.lists[ClassOf(h.t, b)]; s != [] && s[0] == b
    ensures Insert(Remove(h, b), b) == h
  {
    hide ClassOf;
    var s := h.lists[ClassOf(h.t, b)];
    assert IndexOf(s, b) == 0;
    assert [b] + Without(s, b) == s;
  }

  // Taking a block off its list after another was put in front of it, perhaps on the same list.
  lemma RemoveBehind(lists: map<Class, seq<nat>>, c: Class, b: nat, d: Class, r: nat)
    requires c in lists && d in lists && b != r
    ensures var l1 := lists[c := [b] + lists[c]];
            var l2 := l1[d := [r] + l1[d]];
            l2[c := Without(l2[c], b)] == lists[d := [r] + lists[d]]
  {
    var s := lists[c];
    hide Without, IndexOf;
    if c == d {
      WithoutSecond(s, b, r);
    } else {
      WithoutFirst(s, b);
    }
  }

  lemma WithoutFirst(s: seq<nat>, b: nat)
    ensures Without([b] + s, b) == s
  {
    assert IndexOf([b] + s, b) == 0;
  }

  lemma WithoutSecond(s: seq<nat>, b: nat, r: nat)
    requires b != r
    ensures Without([r] + ([b] + s), b) == [r] + s
  {
    assert ([r] + ([b] + s))[1..] == [b] + s;
    assert IndexOf([b] + s, b) == 0;
    assert IndexOf([r] + ([b] + s), b) == 1;
    hide IndexOf;
    var t := [r] + ([b] + s);
    assert t[..1] == [r] && t[2..] == s;
  }

  // ---------------------------------------------------------------- malloc

  // Splitting a free block in hand: what undoing it needs.
  lemma SplitInHand(h: State, b: nat, n: nat)
    requires Inv(h, {b}) && b in h.t && h.t[b].free && n >= 3 && CanSplit(h.t, b, n)
    ensures var t', r := Split(h.t, b, n), b + 1 + n;
            && Next(t', b) == r && At(t', r).free && ClassOf(t', r) in h.lists
            && Absorb(t', b) == h.t
  {
    hide Inv;
    SplitClasses(h, b, n);
    PrevBelow(h, {b}, b);
    SplitShape(h.t, b, n);
    Neighbours(h, {b}, b);
    SplitIsFresh(h, b, n);
    AbsorbUndoesSplit(h.t, b, n);
    hide Split, Absorb;
  }

  lemma SplitIsFresh(h: State, b: nat, n: nat)
    requires Inv(h, {b}) && b in h.t && n >= 3 && CanSplit(h.t, b, n)
    ensures b + 1 + n !in h.t
  {
    hide NextLinks, PrevLinks, Pools, Coalesced, Listed;
  }

  lemma SplitClasses(h: State, b: nat, n: nat)
    requires Inv(h, {b}) && b in h.t && h.t[b].free && n >= 3 && CanSplit(h.t, b, n)
    ensures var t', r := Split(h.t, b, n), b + 1 + n; ClassOf(t', b) in h.lists && ClassOf(t', r) in h.lists
  {
    hide Inv;
    SplitInv(h, b, n, {b});
    PrevBelow(h, {b}, b);
    SplitShape(h.t, b, n);
    var h1, x := h.(t := Split(h.t, b, n)), {b} + {b + 1 + n};
    hide Split;
    WordsBound(h1, x, b);
    WordsBound(h1, x, b + 1 + n);
    ClassListed(h1, x, ClassOf(h1.t, b));
    ClassListed(h1, x, ClassOf(h1.t, b + 1 + n));
  }

  lemma MergeNextUndoesTrim(h: State, b: nat, n: nat)
    requires Inv(h, {b}) && b in h.t && h.t[b].free && h.t[b].words > 0 && n >= 3 && !At(h.t, Next(h.t, b)).free
    ensures MergeNext(TrimFree(h, b, n), b) == h
  {
    hide Inv;
    if CanSplit(h.t, b, n) {
      SplitInHand(h, b, n);
      hide Split, Absorb, Insert, Remove, ClassOf;
      var h1, r := h.(t := Split(h.t, b, n)), b + 1 + n;
      RemoveUndoesInsert(h1, r);
      InsertTiling(h1, r);
      assert TrimFree(h, b, n) == Insert(h1, r);
      assert MergeNext(Insert(h1, r), b) == h1.(t := Absorb(h1.t, b));
    }
  }

  // tlsf_free sees the block as it was before it was marked used.
  lemma FreePrepared(h: State, b: nat, n: nat)
    requires b in TrimFree(h, b, n).t && TrimFree(h, b, n).t[b].free
    ensures var m := MergePrev(TrimFree(h, b, n), b);
            Free(PrepareUsed(h, b, n), b) == Insert(MergeNext(m.h, m.b), m.b)
  {
    var h1 := TrimFree(h, b, n);
    SetFreeTwice(h1.t, b);
    hide TrimFree, MergePrev, MergeNext, Insert;
  }

  // Trimming, marking used and freeing a block in hand lists it as it was.
  lemma PrepareThenFree(h: State, b: nat, n: nat)
    requires Inv(h, {b}) && b in h.t && h.t[b].free && h.t[b].words > 0 && n >= 3
    requires !At(h.t, Next(h.t, b)).free && !PrevFree(h.t, b)
    ensures Free(PrepareUsed(h, b, n), b) == Insert(h, b)
  {
    hide Inv, Insert;
    PrevBelow(h, {b}, b);
    TrimFreeShape(h, {b}, b, n);
    TrimFreePrev(h, b, n);
    FreePrepared(h, b, n);
    MergeNextUndoesTrim(h, b, n);
  }

  // tlsf_malloc and then tlsf_free of what it returned: nothing has changed.
  lemma MallocThenFree(h: State, n: nat)
    requires Fits(n) && Inv(h, {}) && n >= 3 && Malloc(h, n).b != NULL
    ensures Free(Malloc(h, n).h, Malloc(h, n).b) == h
  {
    hide Inv;
    LocatedBlock(h, n);
    var l := LocateFree(h, n);
    FreeAlone(h, l.b);
    hide LocateFree, Free, PrepareUsed, Insert;
    PrepareThenFree(l.h, l.b, n);
  }

  lemma HeadReinserted(h: State, b: nat)
    requires Inv(h, {}) && b in h.t
    requires ListAt(h.lists, ClassOf(h.t, b)) != [] && ListAt(h.lists, ClassOf(h.t, b))[0] == b
    ensures Insert(Remove(h, b), b) == h && Remove(h, b).t == h.t
  {
    hide Inv;
    WordsBound(h, {}, b);
    ClassListed(h, {}, ClassOf(h.t, b));
    InsertUndoesRemove(h, b);
  }

  lemma TrimFreePrev(h: State, b: nat, n: nat)
    requires b in h.t && h.t[b].prev < b && n >= 3 && !PrevFree(h.t, b)
    ensures MergePrev(TrimFree(h, b, n), b) == Outcome(TrimFree(h, b, n), b)
  {
    if CanSplit(h.t, b, n) {
      SplitShape(h.t, b, n);
    }
  }

  // ---------------------------------------------------------------- memalign

  // Merging backwards undoes the leading cut: what is left is one cut at the end.
  lemma MergePrevUndoesLeading(h: State, b: nat, gap: nat, n: nat)
    requires Inv(h, {b}) && b in h.t && h.t[b].free && gap >= 4 && n >= 3 && CanSplit(h.t, b, gap)
    requires !PrevFree(h.t, b)
    ensures MergePrev(TrimFree(TrimLeading(h, b, gap).h, b + gap, n), b + gap) == Outcome(TrimFree(h, b, gap + n), b)
  {
    hide Inv;
    LeadingFacts(h, b, gap);
    var r, h1 := b + gap, h.(t := Split(h.t, b, gap - 1));
    InsertTiling(h1, b);
    if CanSplit(h.t, b, gap + n) {
      SplitTwice(h, b, gap, n);
      LeadingAndTrailing(h, b, gap, n);
    } else {
      hide Split, Absorb, Insert, Remove, ClassOf;
      RemoveUndoesInsert(h1, b);
      assert TrimFree(TrimLeading(h, b, gap).h, r, n) == Insert(h1, b);
    }
  }

  lemma LeadingFacts(h: State, b: nat, gap: nat)
    requires Inv(h, {b}) && b in h.t && h.t[b].free && gap >= 4 && CanSplit(h.t, b, gap)
    ensures var t', r := Split(h.t, b, gap - 1), b + gap;
            && b in t' && r in t' && t'[r] == Block(h.t[b].words - gap, true, b) && PrevFree(t', r)
            && ClassOf(t', b) in h.lists && Absorb(t', b) == h.t
  {
    hide Inv;
    SplitInHand(h, b, gap - 1);
    SplitClasses(h, b, gap - 1);
    PrevBelow(h, {b}, b);
    SplitShape(h.t, b, gap - 1);
    hide Split, Absorb;
  }

  // Cutting off a gap and then a tail, and joining the gap with the middle, only cuts off the tail.
  ghost predicate GapAndTail(h: State, b: nat, gap: nat, n: nat)
    requires gap >= 4 && CanSplit(h.t, b, gap + n) && CanSplit(Split(h.t, b, gap - 1), b + gap, n)
  {
    var t1, r, e := Split(h.t, b, gap - 1), b + gap, b + gap + 1 + n;
    var t2, t3 := Split(t1, r, n), Split(h.t, b, gap + n);
    && Absorb(t2, b) == t3
    && ClassOf(t2, b) == ClassOf(t1, b) && ClassOf(t2, e) == ClassOf(t3, e) && ClassOf(t3, e) in h.lists
    && PrevFree(t2, r) && At(t2, r).prev == b
  }

  // The tiling and the classes after both cuts.
  lemma SplitTwice(h: State, b: nat, gap: nat, n: nat)
    requires Inv(h, {b}) && b in h.t && h.t[b].free && gap >= 4 && n >= 3 && CanSplit(h.t, b, gap + n)
    ensures CanSplit(Split(h.t, b, gap - 1), b + gap, n)
    ensures GapAndTail(h, b, gap, n)
  {
    hide Inv, MappingInsert, Absorb;
    SplitClasses(h, b, gap + n);
    SplitIsFresh(h, b, gap - 1);
    SplitIsFresh(h, b, gap + n);
    Neighbours(h, {b}, b);
    AbsorbBetweenSplits(h.t, b, gap - 1, n);
    TwoCuts(h.t, b, gap, n);
  }

  lemma TwoCuts(t: Tiling, b: nat, gap: nat, n: nat)
    requires b in t && t[b].free && gap >= 4 && n >= 3 && CanSplit(t, b, gap + n)
    ensures var t1, r, e := Split(t, b, gap - 1), b + gap, b + gap + 1 + n;
            && CanSplit(t1, r, n)
            && var t2, t3 := Split(t1, r, n), Split(t, b, gap + n);
            && At(t2, b) == At(t1, b) && At(t2, e).words == At(t3, e).words
            && PrevFree(t2, r) && At(t2, r).prev == b
  {
  }

  lemma LeadingAndTrailing(h: State, b: nat, gap: nat, n: nat)
    requires b in h.t && gap >= 4 && n >= 3 && CanSplit(h.t, b, gap + n)
    requires CanSplit(Split(h.t, b, gap - 1), b + gap, n) && ClassOf(Split(h.t, b, gap - 1), b) in h.lists
    requires GapAndTail(h, b, gap, n)
    ensures MergePrev(TrimFree(TrimLeading(h, b, gap).h, b + gap, n), b + gap) == Outcome(TrimFree(h, b, gap + n), b)
  {
    hide Split, Absorb, ClassOf, PrevFree;
    var t1, r, e := Split(h.t, b, gap - 1), b + gap, b + gap + 1 + n;
    RemoveBehind(h.lists, ClassOf(t1, b), b, ClassOf(Split(h.t, b, gap + n), e), e);
  }

  // tlsf_memalign and then tlsf_free of what it returned: nothing has changed.
  lemma MemalignThenFree(h: State, k: nat, size: nat)
    requires Inv(h, {}) && Addressable(h.t) && k < 64 && (AdjustRequest(size, 8) != 0 || k <= 3)
    requires 0 < Pow2(k) <= TWO_64 && Fits(AlignedRequest(Pow2(k), size)) && Memalign(h, Pow2(k), size).b != NULL
    ensures var m := Memalign(h, Pow2(k), size); Free(m.h, m.b) == h
  {
    hide Inv, Memalign, AlignedRequest, AdjustRequest, Free, Pow2, LocateFree, TrimLeading, PrepareUsed, AlignGap;
    MemalignSteps(h, Pow2(k), size, AlignedRequest(Pow2(k), size), AdjustRequest(size, 8) / 8);
    RequestCases(k, size);
    StepsThenFree(h, k, AlignedRequest(Pow2(k), size), AdjustRequest(size, 8) / 8);
    hide LocateFree, TrimLeading, PrepareUsed, AlignGap;
  }

  lemma StepsThenFree(h: State, k: nat, w: nat, n: nat)
    requires Inv(h, {}) && Addressable(h.t) && k < 64 && 0 < Pow2(k) <= TWO_64
    requires w != 0 ==> n >= 3 && if k <= 3 then w == n else 8 * w >= 8 * n + Pow2(k) + 32 && Pow2(k) < BLOCK_SIZE_MAX
    requires Fits(w) && LocateFree(h, w).b != NULL
    ensures var l := LocateFree(h, w);
            var gap := AlignGap(8 * (l.b + 2), Pow2(k));
            var m := if gap >= 8 then TrimLeading(l.h, l.b, gap / 8) else l;
            Free(PrepareUsed(m.h, m.b, n), m.b) == h
  {
    hide *;
    LocateEither(h, w);
    LocatedBlock(h, w);
    GapFits(h.t, LocateFree(h, w).b, k, n);
    AlignedThenFree(h, w, AlignGap(8 * (LocateFree(h, w).b + 2), Pow2(k)), n);
  }

  lemma LocatedBlock(h: State, w: nat)
    requires Fits(w) && Inv(h, {}) && w > 0 && LocateFree(h, w).b != NULL
    ensures var l := LocateFree(h, w);
            && l.b in h.t && h.t[l.b].free && h.t[l.b].words >= w && l.h.t == h.t
            && !At(h.t, Next(h.t, l.b)).free && !PrevFree(h.t, l.b)
            && Inv(l.h, {l.b}) && Insert(l.h, l.b) == h
  {
    hide Inv;
    LocateFacts(h, w);
    LocateInv(h, w);
    FreeAlone(h, LocateFree(h, w).b);
    HeadReinserted(h, LocateFree(h, w).b);
    hide LocateFree, Insert, Remove;
  }

  lemma AlignedThenFree(h: State, w: nat, gap: int, n: nat)
    requires Fits(w) && Inv(h, {}) && w > 0 && n >= 3 && LocateFree(h, w).b != NULL
    requires gap == 0 || (gap >= 32 && CanSplit(h.t, LocateFree(h, w).b, gap / 8))
    ensures var l := LocateFree(h, w);
            var m := if gap >= 8 then TrimLeading(l.h, l.b, gap / 8) else l;
            Free(PrepareUsed(m.h, m.b, n), m.b) == h
  {
    hide Inv, LocateFree;
    LocatedBlock(h, w);
    var l := LocateFree(h, w);
    hide Free, PrepareUsed, TrimLeading, Insert;
    FreeAlone(h, l.b);
    if gap >= 8 {
      LeadingThenFree(l.h, l.b, gap / 8, n);
    } else {
      PrepareThenFree(l.h, l.b, n);
    }
  }

  lemma LeadingThenFree(h: State, b: nat, gap: nat, n: nat)
    requires Inv(h, {b}) && b in h.t && h.t[b].free && n >= 3 && gap >= 4 && CanSplit(h.t, b, gap)
    requires !At(h.t, Next(h.t, b)).free && !PrevFree(h.t, b)
    ensures var m := TrimLeading(h, b, gap); Free(PrepareUsed(m.h, m.b, n), m.b) == Insert(h, b)
  {
    hide Inv, Insert;
    PrevBelow(h, {b}, b);
    TrimLeadingInv(h, b, gap);
    TrimLeadingShape(h, b, gap);
    MergePrevUndoesLeading(h, b, gap, n);
    MergeNextUndoesTrim(h, b, gap + n);
    var m := TrimLeading(h, b, gap);
    hide TrimLeading;
    TrimFreeShape(m.h, {m.b}, m.b, n);
    FreePrepared(m.h, m.b, n);
  }

  // ---------------------------------------------------------------- pools

  // A new pool is one free block of its full size, and taking it out again
  // restores the heap.
  lemma AddThenRemove(h: State, p: nat, n: nat)
    requires Inv(h, {}) && 3 <= n < MAX_WORDS && Apart(h.pools, p, n)
    ensures var h' := AddPool(h, p, n);
            && h'.pools == h.pools[p := n] && At(h'.t, p) == Block(n, true, 0) && End(h'.pools, p) == Next(h'.t, p)
            && At(h'.t, Next(h'.t, p)).words == 0
            && RemovePool(h', p) == h
  {
    ApartFromBlocks(h.t, h.pools, p, n);
    NewClass(h, p, n);
    hide Inv, ClassOf, Insert, Remove;
    var h1 := PoolBlocks(h, p, n);
    InsertTiling(h1, p);
    RemoveUndoesInsert(h1, p);
    BlocksGone(h.t, p, p + 1 + n, Block(n, true, 0), Block(0, false, p));
    PoolGone(h.pools, p, n);
    hide Apart, BlocksApart;
  }

  lemma BlocksGone(t: Tiling, p: nat, s: nat, a: Block, b: Block)
    requires p !in t && s !in t
    ensures t[p := a][s := b] - {p, s} == t
  {
  }

  lemma PoolGone(pools: map<nat, nat>, p: nat, n: nat)
    requires p !in pools
    ensures pools[p := n] - {p} == pools
  {
  }

  lemma NewClass(h: State, p: nat, n: nat)
    requires Inv(h, {}) && 3 <= n < MAX_WORDS
    ensures ClassOf(PoolBlocks(h, p, n).t, p) in h.lists
  {
    hide MappingInsert, Geometry, Pools, Coalesced;
    InsertInTable(8 * n);
  }
}
