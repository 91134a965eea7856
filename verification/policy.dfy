// What each operation of tlsf-3.0/tlsf.c does to the tiling and the lists, with
// no memory, bitmap or link in sight.  Sizes are in words of 8 bytes.
module Policy {
  import opened Bits
  import opened SizeClass
  import opened Heap

  // The heap after an operation and the block it hands out, 0 for none.
  datatype Outcome = Outcome(h: State, b: nat)

  // ---------------------------------------------------------------- helpers of the allocator

  // The first non-empty list at or above c, by looking at one list after another.
  function Scan(lists: map<Class, seq<nat>>, c: Class): Class
    requires c.sl < SL_INDEX_COUNT
    decreases SL_INDEX_COUNT * FL_INDEX_COUNT - (SL_INDEX_COUNT * c.fl + c.sl)
  {
    if c.fl >= FL_INDEX_COUNT then Class(FL_INDEX_COUNT, 0)
    else if ListAt(lists, c) != [] then c
    else Scan(lists, c.Succ())
  }

  // The search for n words stays inside the table of lists.  Beyond that the code
  // reads past its table, so no operation here has a result for such a search.
  predicate Fits(n: nat) {
    8 * n <= LARGEST_REQUEST
  }

  // block_locate_free
  function LocateFree(h: State, n: nat): Outcome
    requires Fits(n)
  {
    if n == 0 then Outcome(h, NULL) else
      InsertSecondLevel(Rounded(8 * n));
      var s := ListAt(h.lists, Scan(h.lists, MappingSearch(8 * n)));
      if s == [] then Outcome(h, NULL) else Outcome(Remove(h, s[0]), s[0])
  }

  // block_can_split
  predicate CanSplit(t: Tiling, b: nat, n: nat) {
    At(t, b).words >= n + 4
  }

  // block_trim_free
  function TrimFree(h: State, b: nat, n: nat): State {
    if CanSplit(h.t, b, n) then Insert(h.(t := Split(h.t, b, n)), b + 1 + n) else h
  }

  // block_trim_used
  function TrimUsed(h: State, b: nat, n: nat): State {
    if CanSplit(h.t, b, n) then
      Insert(MergeNext(h.(t := Split(h.t, b, n)), b + 1 + n), b + 1 + n)
    else h
  }

  // block_trim_free_leading
  function TrimLeading(h: State, b: nat, gap: nat): Outcome
    requires gap > 0
  {
    if CanSplit(h.t, b, gap) then Outcome(Insert(h.(t := Split(h.t, b, gap - 1)), b), b + gap)
    else Outcome(h, b)
  }

  // block_merge_prev
  function MergePrev(h: State, b: nat): Outcome {
    if PrevFree(h.t, b) then
      var p := At(h.t, b).prev;
      var h1 := Remove(h, p);
      Outcome(h1.(t := Absorb(h1.t, p)), p)
    else Outcome(h, b)
  }

  // block_merge_next
  function MergeNext(h: State, b: nat): State {
    if At(h.t, Next(h.t, b)).free then
      var h1 := Remove(h, Next(h.t, b));
      h1.(t := Absorb(h1.t, b))
    else h
  }

  // block_prepare_used
  function PrepareUsed(h: State, b: nat, n: nat): State {
    var h1 := TrimFree(h, b, n);
    h1.(t := SetFree(h1.t, b, false))
  }

  // ---------------------------------------------------------------- the operations

  // tlsf_malloc for a request of n words.
  function Malloc(h: State, n: nat): Outcome
    requires Fits(n)
  {
    var l := LocateFree(h, n);
    if l.b == NULL then l else Outcome(PrepareUsed(l.h, l.b, n), l.b)
  }

  // tlsf_free
  function Free(h: State, b: nat): State {
    var m := MergePrev(h.(t := SetFree(h.t, b, true)), b);
    Insert(MergeNext(m.h, m.b), m.b)
  }

  // The gap in bytes that tlsf_memalign leaves before a block whose payload
  // starts at byte address ptr: none, or room for a free block.
  function AlignGap(ptr: nat, align: nat): int
    requires 0 < align <= TWO_64
  {
    var aligned := AlignUp(ptr, align);
    var gap := aligned - ptr;
    if 0 < gap < BLOCK_HEADER_SIZE then
      var offset := if BLOCK_HEADER_SIZE - gap > align then BLOCK_HEADER_SIZE - gap else align;
      AlignUp(aligned + offset, align) - ptr
    else gap
  }

  // The words that tlsf_memalign looks for: room for the request and the worst gap.
  function AlignedRequest(align: nat, size: nat): nat
    requires 0 < align <= TWO_64
  {
    var adjust := AdjustRequest(size, ALIGN_SIZE);
    (if align <= ALIGN_SIZE then adjust else AdjustRequest(adjust + align + BLOCK_HEADER_SIZE, align)) / 8
  }

  // tlsf_memalign
  function Memalign(h: State, align: nat, size: nat): Outcome
    requires 0 < align <= TWO_64 && Fits(AlignedRequest(align, size))
  {
    var n := AdjustRequest(size, ALIGN_SIZE) / 8;
    var l := LocateFree(h, AlignedRequest(align, size));
    if l.b == NULL then l else
      var gap := AlignGap(8 * (l.b + 2), align);
      var k := if gap >= 8 then TrimLeading(l.h, l.b, gap / 8) else l;
      Outcome(PrepareUsed(k.h, k.b, n), k.b)
  }

  // The words that a request for size bytes is adjusted to.
  function Request(size: nat): nat {
    AdjustRequest(size, ALIGN_SIZE) / 8
  }

  // Does tlsf_realloc have to move the block to get n words?
  predicate MustMove(t: Tiling, b: nat, n: nat) {
    var next := At(t, Next(t, b));
    n > At(t, b).words && (!next.free || n > At(t, b).words + next.words + 1)
  }

  // tlsf_realloc of a live block to a non-zero size.
  function Realloc(h: State, b: nat, size: nat): Outcome
    requires MustMove(h.t, b, Request(size)) ==> Fits(Request(size))
  {
    var n := Request(size);
    if MustMove(h.t, b, n) then
      var l := Malloc(h, n);
      if l.b == NULL then l else Outcome(Free(l.h, b), l.b)
    else
      var h1 := if n > At(h.t, b).words then MergeNext(h, b) else h;
      Outcome(TrimUsed(h1, b, n), b)
  }

  // tlsf_add_pool: one free block of n words at p, and its sentinel.
  function AddPool(h: State, p: nat, n: nat): State {
    Insert(PoolBlocks(h, p, n), p)
  }

  // tlsf_remove_pool
  function RemovePool(h: State, p: nat): State {
    var h1 := Remove(h, p);
    State(h1.t - {p, Next(h.t, p)}, h1.lists, h1.pools - {p})
  }

  // ---------------------------------------------------------------- the search

  lemma {:induction false} ScanSpec(lists: map<Class, seq<nat>>, c: Class)
    requires c.sl < SL_INDEX_COUNT
    ensures var d := Scan(lists, c);
            && d.sl < SL_INDEX_COUNT && (d.fl >= FL_INDEX_COUNT ==> d == Class(FL_INDEX_COUNT, 0))
            && (d.fl < FL_INDEX_COUNT ==> c.Le(d) && ListAt(lists, d) != [])
            && forall k: Class :: c.Le(k) && k.Lt(d) && k.sl < SL_INDEX_COUNT ==> ListAt(lists, k) == []
    decreases SL_INDEX_COUNT * FL_INDEX_COUNT - (SL_INDEX_COUNT * c.fl + c.sl)
  {
    if c.fl < FL_INDEX_COUNT && ListAt(lists, c) == [] {
      ScanSpec(lists, c.Succ());
      assert forall k: Class :: c.Le(k) && k != c && k.sl < SL_INDEX_COUNT ==> c.Succ().Le(k);
    }
  }

  // ---------------------------------------------------------------- every step keeps the invariant

  lemma ListHead(h: State, x: set<nat>, d: Class)
    requires Inv(h, x) && ListAt(h.lists, d) != []
    ensures var b := ListAt(h.lists, d)[0];
            b in h.t && h.t[b].free && b !in x && b >= FIRST_BLOCK && ClassOf(h.t, b) == d && d.InTable()
  {
    hide ClassOf;
    assert ListAt(h.lists, d)[0] == h.lists[d][0];
  }

  // The list head that the search picks is a free block that is large enough.
  lemma LocateFacts(h: State, n: nat)
    requires Fits(n) && n > 0 && Inv(h, {})
    ensures var l := LocateFree(h, n);
            && (l.b == NULL ==> l.h == h)
            && (l.b != NULL ==>
                  && l.b in h.t && h.t[l.b].free && h.t[l.b].words >= n && l.h == Remove(h, l.b)
                  && ListAt(h.lists, ClassOf(h.t, l.b)) != [] && ListAt(h.lists, ClassOf(h.t, l.b))[0] == l.b)
  {
    hide Inv, MappingInsert, Scan, Remove, Fls, Pow2, Rounded;
    InsertSecondLevel(Rounded(8 * n));
    hide MappingInsert;
    var c := MappingSearch(8 * n);
    ScanSpec(h.lists, c);
    var s := ListAt(h.lists, Scan(h.lists, c));
    if s != [] {
      ListHead(h, {}, Scan(h.lists, c));
      GoodFit(8 * n, 8 * h.t[s[0]].words);
    }
  }

  lemma LocateInv(h: State, n: nat)
    requires Fits(n) && Inv(h, {}) && LocateFree(h, n).b != NULL
    ensures Inv(LocateFree(h, n).h, {LocateFree(h, n).b})
  {
    LocateFacts(h, n);
    var b := LocateFree(h, n).b;
    RemoveInv(h, b, {});
    assert {} + {b} == {b};
  }

  lemma SetFreeInv(h: State, b: nat, free: bool, x: set<nat>)
    requires Inv(h, x) && b in h.t && h.t[b].words > 0 && (h.t[b].free ==> b in x)
    ensures Inv(h.(t := SetFree(h.t, b, free)), if free then x + {b} else x - {b})
  {
    hide Geometry, Pools, Coalesced, Listed;
    SameGeometry(h.t, SetFree(h.t, b, free));
    SetFreePools(h.t, h.pools, b, free);
    SetFreeCoalesced(h.t, b, free, x);
    SetFreeListed(h.t, h.lists, b, free, x);
  }

  // The block behind b that block_merge_next would swallow.
  predicate SwallowsNext(t: Tiling, b: nat) {
    At(t, Next(t, b)).free
  }

  // What merging changes about b itself.
  lemma MergeNextShape(h: State, b: nat)
    requires b in h.t && b < Next(h.t, b)
    requires SwallowsNext(h.t, b) ==> Next(h.t, b) < Next(h.t, Next(h.t, b))
    requires PrevFree(h.t, b) ==> h.t[b].prev < b
    ensures var h' := MergeNext(h, b);
            && b in h'.t && h'.t[b].free == h.t[b].free && h'.t[b].prev == h.t[b].prev
            && h'.t[b].words == h.t[b].words + (if SwallowsNext(h.t, b) then 1 + At(h.t, Next(h.t, b)).words else 0)
            && Next(h'.t, b) == (if SwallowsNext(h.t, b) then Next(h.t, Next(h.t, b)) else Next(h.t, b))
            && h'.pools == h.pools && PrevFree(h'.t, b) == PrevFree(h.t, b)
            && At(h'.t, Next(h'.t, b)).free == At(h.t, Next(h'.t, b)).free
  {
  }

  lemma MergeNextInv(h: State, b: nat, x: set<nat>)
    requires Inv(h, x) && b in h.t && h.t[b].words > 0 && (h.t[b].free ==> b in x) && x <= {b}
    ensures Inv(MergeNext(h, b), x)
  {
    hide Inv, Absorb;
    Neighbours(h, x, b);
    var q := Next(h.t, b);
    if h.t[q].free {
      RemoveInv(h, q, x);
      AbsorbInv(Remove(h, q), b, x + {q});
      assert x + {q} - {q} == x;
    }
  }

  // After the merge the block behind b is in use.
  lemma MergeNextDone(h: State, b: nat, x: set<nat>)
    requires Inv(h, x) && b in h.t && h.t[b].words > 0 && x <= {b}
    requires b < Next(h.t, b)
    ensures !SwallowsNext(MergeNext(h, b).t, b)
  {
    Neighbours(h, x, b);
    var q := Next(h.t, b);
    if h.t[q].free {
      Neighbours(h, x, q);
      MergeNextShape(h, b);
    }
  }

  lemma MergePrevInv(h: State, b: nat)
    requires Inv(h, {b}) && b in h.t && h.t[b].words > 0 && h.t[b].free
    ensures var m := MergePrev(h, b); Inv(m.h, {m.b})
  {
    Neighbours(h, {b}, b);
    if PrevFree(h.t, b) {
      var p := h.t[b].prev;
      RemoveInv(h, p, {b});
      assert {b} + {p} == {b, p};
      AbsorbInv(Remove(h, p), p, {b, p});
      assert {b, p} - {b} == {p};
    }
  }

  // After the merge the block in hand is free and the block before it is in use.
  lemma MergePrevDone(h: State, b: nat)
    requires Inv(h, {b}) && b in h.t && h.t[b].words > 0 && h.t[b].free
    ensures var m := MergePrev(h, b);
            && m.b in m.h.t && m.h.t[m.b].free && m.h.t[m.b].words > 0 && m.b < Next(m.h.t, m.b)
            && !PrevFree(m.h.t, m.b) && Next(m.h.t, m.b) == Next(h.t, b)
            && At(m.h.t, Next(h.t, b)).free == At(h.t, Next(h.t, b)).free
  {
    Neighbours(h, {b}, b);
    if PrevFree(h.t, b) {
      var p := h.t[b].prev;
      Neighbours(h, {b}, p);
      MergePrevShape(h.t, p);
    }
  }

  lemma MergePrevShape(t: Tiling, p: nat)
    requires p in t && p < Next(t, p) < Next(t, Next(t, p)) && !PrevFree(t, p) && At(t, p).prev < p
    ensures var t' := Absorb(t, p);
            && p in t' && t'[p].free == t[p].free && t'[p].words > t[p].words
            && !PrevFree(t', p) && Next(t', p) == Next(t, Next(t, p))
            && At(t', Next(t', p)).free == At(t, Next(t', p)).free
  {
  }

  lemma FreeInv(h: State, b: nat)
    requires Inv(h, {}) && b in h.t && h.t[b].words > 0 && !h.t[b].free
    ensures Inv(Free(h, b), {})
  {
    var h1 := h.(t := SetFree(h.t, b, true));
    SetFreeInv(h, b, true, {});
    assert {} + {b} == {b};
    MergePrevInv(h1, b);
    MergePrevDone(h1, b);
    var m := MergePrev(h1, b);
    InsertMerged(m.h, m.b);
  }

  // The end of tlsf_free: merge forward, then list the block.
  lemma InsertMerged(h: State, b: nat)
    requires Inv(h, {b}) && b in h.t && h.t[b].words > 0 && h.t[b].free && !PrevFree(h.t, b)
    ensures Inv(Insert(MergeNext(h, b), b), {})
  {
    Neighbours(h, {b}, b);
    if h.t[Next(h.t, b)].free {
      Neighbours(h, {b}, Next(h.t, b));
    }
    MergeNextInv(h, b, {b});
    MergeNextDone(h, b, {b});
    MergeNextShape(h, b);
    var h' := MergeNext(h, b);
    hide MergeNext;
    Neighbours(h', {b}, b);
    InsertInv(h', b, {b});
    assert {b} - {b} == {};
  }

  // Both neighbours of a free block are in use.
  lemma FreeAlone(h: State, b: nat)
    requires Inv(h, {}) && b in h.t && h.t[b].free
    ensures h.t[b].words > 0 && !At(h.t, Next(h.t, b)).free && !PrevFree(h.t, b)
  {
    assert h.t[b].words > 0;
    Neighbours(h, {}, b);
  }

  lemma SplitShape(t: Tiling, b: nat, n: nat)
    requires b in t && n >= 3 && CanSplit(t, b, n) && t[b].prev < b
    ensures var t', r := Split(t, b, n), b + 1 + n;
            && b in t' && t'[b] == t[b].(words := n) && Next(t', b) == r
            && r in t' && t'[r] == Block(t[b].words - n - 1, true, b) && Next(t', r) == Next(t, b)
            && At(t', Next(t, b)).free == At(t, Next(t, b)).free
            && PrevFree(t', b) == PrevFree(t, b)
            && PrevFree(t', r) == t[b].free
  {
  }

  lemma PrevBelow(h: State, x: set<nat>, b: nat)
    requires Inv(h, x) && b in h.t
    ensures h.t[b].prev < b
  {
    hide Pools, Coalesced, Listed;
    if h.t[b].prev != 0 {
      assert h.t[b].prev in h.t && Next(h.t, h.t[b].prev) == b;
    }
  }

  lemma TrimFreeInv(h: State, b: nat, n: nat)
    requires Inv(h, {b}) && b in h.t && h.t[b].free && n >= 3 && !At(h.t, Next(h.t, b)).free
    ensures Inv(TrimFree(h, b, n), {b})
  {
    hide Inv;
    if CanSplit(h.t, b, n) {
      var r := b + 1 + n;
      PrevBelow(h, {b}, b);
      SplitInv(h, b, n, {b});
      SplitShape(h.t, b, n);
      InsertInv(h.(t := Split(h.t, b, n)), r, {b} + {r});
      assert {b} + {r} - {r} == {b};
    }
  }

  lemma TrimUsedInv(h: State, b: nat, n: nat)
    requires Inv(h, {}) && b in h.t && !h.t[b].free && n >= 3
    ensures Inv(TrimUsed(h, b, n), {})
  {
    hide Inv, Split;
    if CanSplit(h.t, b, n) {
      var r := b + 1 + n;
      PrevBelow(h, {}, b);
      SplitInv(h, b, n, {});
      SplitShape(h.t, b, n);
      assert {} + {r} == {r};
      InsertMerged(h.(t := Split(h.t, b, n)), r);
    }
  }

  lemma TrimLeadingInv(h: State, b: nat, gap: nat)
    requires Inv(h, {b}) && b in h.t && h.t[b].free && gap >= 4 && CanSplit(h.t, b, gap) && !PrevFree(h.t, b)
    ensures Inv(TrimLeading(h, b, gap).h, {b + gap})
  {
    hide Inv;
    var r := b + gap;
    PrevBelow(h, {b}, b);
    SplitInv(h, b, gap - 1, {b});
    SplitShape(h.t, b, gap - 1);
    InsertInv(h.(t := Split(h.t, b, gap - 1)), b, {b} + {r});
    assert {b} + {r} - {b} == {r};
  }

  lemma TrimLeadingShape(h: State, b: nat, gap: nat)
    requires b in h.t && h.t[b].prev < b && gap >= 4 && CanSplit(h.t, b, gap)
    ensures var k := TrimLeading(h, b, gap);
            && k.b == b + gap && k.b in k.h.t && k.h.t[k.b] == Block(h.t[b].words - gap, true, b)
            && Next(k.h.t, k.b) == Next(h.t, b) && At(k.h.t, Next(h.t, b)).free == At(h.t, Next(h.t, b)).free
  {
    SplitShape(h.t, b, gap - 1);
  }

  lemma PrepareUsedInv(h: State, b: nat, n: nat)
    requires Inv(h, {b}) && b in h.t && h.t[b].free && n >= 3 && !At(h.t, Next(h.t, b)).free
    ensures Inv(PrepareUsed(h, b, n), {})
  {
    TrimFreeInv(h, b, n);
    TrimFreeShape(h, {b}, b, n);
    var h1 := TrimFree(h, b, n);
    SetFreeInv(h1, b, false, {b});
    assert {b} - {b} == {};
  }

  lemma TrimFreeShape(h: State, x: set<nat>, b: nat, n: nat)
    requires Inv(h, x) && b in h.t && h.t[b].words > 0 && n >= 3
    ensures var t' := TrimFree(h, b, n).t;
            b in t' && t'[b] == h.t[b].(words := if CanSplit(h.t, b, n) then n else h.t[b].words)
  {
    PrevBelow(h, x, b);
    if CanSplit(h.t, b, n) {
      SplitShape(h.t, b, n);
    }
  }

  lemma MallocInv(h: State, n: nat)
    requires Fits(n) && n >= 3 && Inv(h, {})
    ensures Inv(Malloc(h, n).h, {})
    ensures Malloc(h, n).b == NULL ==> Malloc(h, n).h == h
  {
    LocateFacts(h, n);
    var l := LocateFree(h, n);
    if l.b != NULL {
      LocateInv(h, n);
      FreeAlone(h, l.b);
      PrepareUsedInv(l.h, l.b, n);
    }
  }

  // ---------------------------------------------------------------- pools

  // The memory of a new pool of n words at p lies outside every pool.
  ghost predicate Apart(pools: map<nat, nat>, p: nat, n: nat) {
    FIRST_BLOCK <= p && forall q :: q in pools ==> End(pools, q) < p || p + 1 + n < q
  }

  // It then belongs to no block either.
  ghost predicate BlocksApart(t: Tiling, p: nat, n: nat) {
    forall a :: a in t ==> FIRST_BLOCK <= a && (a + 1 + t[a].words <= p || p + 1 + n < a)
  }

  lemma ApartFromBlocks(t: Tiling, pools: map<nat, nat>, p: nat, n: nat)
    requires Disjoint(t) && PoolEnds(t, pools) && PoolCover(t, pools) && Apart(pools, p, n)
    ensures BlocksApart(t, p, n)
  {
    forall a | a in t ensures FIRST_BLOCK <= a && (a + 1 + t[a].words <= p || p + 1 + n < a) {
      assert InPool(pools, a);
      var q :| q in pools && q <= a <= End(pools, q);
      ApartFromBlock(t, pools, q, a, p, n);
    }
  }

  lemma ApartFromBlock(t: Tiling, pools: map<nat, nat>, q: nat, a: nat, p: nat, n: nat)
    requires Disjoint(t) && PoolEnds(t, pools) && Apart(pools, p, n)
    requires a in t && q in pools && q <= a <= End(pools, q)
    ensures FIRST_BLOCK <= a && (a + 1 + t[a].words <= p || p + 1 + n < a)
  {
  }

  ghost predicate IsPoolAdded(t: Tiling, t': Tiling, p: nat, n: nat, s: nat) {
    && s == p + 1 + n && 3 <= n < MAX_WORDS
    && (forall a :: a in t' <==> a in t || a == p || a == s)
    && t'[p] == Block(n, true, 0) && t'[s] == Block(0, false, p)
    && forall a {:trigger t'[a]} {:trigger t[a]} :: a in t ==> a != p && a != s && t'[a] == t[a]
  }

  lemma AddedGeometry(t: Tiling, t': Tiling, p: nat, n: nat, s: nat)
    requires Geometry(t) && FIRST_BLOCK <= p && BlocksApart(t, p, n) && IsPoolAdded(t, t', p, n, s)
    ensures Geometry(t')
  {
    forall a {:trigger Next(t', a)} | a in t' && t'[a].words > 0
      ensures Next(t', a) in t' && t'[Next(t', a)].prev == a
    {
      if a in t {
        assert Next(t', a) == Next(t, a);
      }
    }
    forall a {:trigger t'[a].prev} | a in t' && t'[a].prev != 0
      ensures t'[a].prev in t' && t'[t'[a].prev].words > 0 && Next(t', t'[a].prev) == a
    {
      if a in t {
        assert t'[a].prev == t[a].prev;
        assert Next(t', t[a].prev) == Next(t, t[a].prev);
      }
    }
  }

  lemma AddedEnds(t: Tiling, t': Tiling, pools: map<nat, nat>, p: nat, n: nat, s: nat)
    requires PoolEnds(t, pools) && IsPoolAdded(t, t', p, n, s)
    ensures PoolEnds(t', pools[p := n])
  {
    var pools' := pools[p := n];
    forall q | q in pools'
      ensures q in t' && t'[q].prev == 0 && End(pools', q) in t' && t'[End(pools', q)].words == 0
    {
      if q != p {
        assert End(pools', q) == End(pools, q);
      }
    }
  }

  lemma AddedInner(t: Tiling, t': Tiling, pools: map<nat, nat>, p: nat, n: nat, s: nat)
    requires PoolEnds(t, pools) && PoolInner(t, pools) && Apart(pools, p, n) && BlocksApart(t, p, n) &&
             IsPoolAdded(t, t', p, n, s)
    ensures PoolInner(t', pools[p := n])
  {
    var pools' := pools[p := n];
    forall q, a | q in pools' && a in t' && q <= a < End(pools', q) ensures t'[a].words > 0 {
      if q != p {
        assert End(pools', q) == End(pools, q) && End(pools, q) in t;
      }
    }
  }

  lemma AddedCover(t: Tiling, t': Tiling, pools: map<nat, nat>, p: nat, n: nat, s: nat)
    requires PoolEnds(t, pools) && PoolCover(t, pools) && Apart(pools, p, n) && IsPoolAdded(t, t', p, n, s)
    ensures PoolCover(t', pools[p := n])
  {
    var pools' := pools[p := n];
    assert forall q :: q in pools ==> q in t && End(pools, q) in t && q != p && End(pools', q) == End(pools, q);
    forall a {:trigger InPool(pools', a)} | a in t' ensures InPool(pools', a) {
      if a in t {
        assert InPool(pools, a);
        var q :| q in pools && q <= a <= End(pools, q);
        assert q in pools' && q <= a <= End(pools', q);
      } else {
        assert p in pools' && p <= a <= End(pools', p);
      }
    }
  }

  lemma AddedListed(t: Tiling, t': Tiling, lists: map<Class, seq<nat>>, p: nat, n: nat, s: nat)
    requires Listed(t, lists, {}) && IsPoolAdded(t, t', p, n, s)
    ensures Listed(t', lists, {p})
  {
    hide MappingInsert;
    assert forall a {:trigger ClassOf(t', a)} :: a in t ==> ClassOf(t', a) == ClassOf(t, a);
  }

  lemma AddedCoalesced(t: Tiling, t': Tiling, p: nat, n: nat, s: nat)
    requires NextLinks(t) && Coalesced(t, {}) && IsPoolAdded(t, t', p, n, s)
    requires forall a :: a in t && t[a].free ==> t[a].words > 0
    ensures Coalesced(t', {p})
  {
    forall a {:trigger Next(t', a)} | a in t' && t'[a].free && Next(t', a) in t' && t'[Next(t', a)].free
      ensures a in {p} || Next(t', a) in {p}
    {
      assert a in t ==> Next(t', a) == Next(t, a);
    }
  }

  lemma AddedInv(h: State, t': Tiling, p: nat, n: nat, s: nat)
    requires Inv(h, {}) && Apart(h.pools, p, n) && BlocksApart(h.t, p, n) && IsPoolAdded(h.t, t', p, n, s)
    ensures Inv(State(t', h.lists, h.pools[p := n]), {p})
  {
    hide NextLinks, PrevLinks, Disjoint, PoolEnds, PoolInner, PoolCover, Coalesced, Listed;
    AddedGeometry(h.t, t', p, n, s);
    AddedEnds(h.t, t', h.pools, p, n, s);
    AddedInner(h.t, t', h.pools, p, n, s);
    AddedCover(h.t, t', h.pools, p, n, s);
    AddedListed(h.t, t', h.lists, p, n, s);
    assert forall a :: a in h.t && h.t[a].free ==> h.t[a].words > 0 by {
      PayloadOfFree(h.t, h.pools);
    }
    AddedCoalesced(h.t, t', p, n, s);
  }

  lemma PayloadOfFree(t: Tiling, pools: map<nat, nat>)
    requires PoolInner(t, pools)
    ensures forall a :: a in t && t[a].free ==> t[a].words > 0
  {
  }

  // The pool's two blocks, before the first is listed.
  function PoolBlocks(h: State, p: nat, n: nat): State {
    State(h.t[p := Block(n, true, 0)][p + 1 + n := Block(0, false, p)], h.lists, h.pools[p := n])
  }

  lemma PoolBlocksAdded(h: State, p: nat, n: nat)
    requires FIRST_BLOCK <= p && BlocksApart(h.t, p, n) && 3 <= n < MAX_WORDS
    ensures IsPoolAdded(h.t, PoolBlocks(h, p, n).t, p, n, p + 1 + n)
    ensures !PrevFree(PoolBlocks(h, p, n).t, p) && Next(PoolBlocks(h, p, n).t, p) == p + 1 + n
  {
  }

  lemma AddPoolInv(h: State, p: nat, n: nat)
    requires Inv(h, {}) && 3 <= n < MAX_WORDS && Apart(h.pools, p, n)
    ensures Inv(AddPool(h, p, n), {})
  {
    ApartFromBlocks(h.t, h.pools, p, n);
    hide Inv;
    PoolBlocksAdded(h, p, n);
    var h1 := PoolBlocks(h, p, n);
    AddedInv(h, h1.t, p, n, p + 1 + n);
    InsertInv(h1, p, {p});
    assert {p} - {p} == {};
  }

  // t' is t without the two blocks of an empty pool.
  ghost predicate IsPoolRemoved(t: Tiling, t': Tiling, p: nat, s: nat) {
    && p in t && s in t && s == Next(t, p) && t[p].words > 0 && t[s].words == 0 && t[p].prev == 0 && t[s].prev == p
    && (forall a :: a in t' <==> a in t && a != p && a != s)
    && forall a {:trigger t'[a]} {:trigger t[a]} :: a in t && a != p && a != s ==> t'[a] == t[a]
  }

  lemma RemovedGeometry(t: Tiling, t': Tiling, p: nat, s: nat)
    requires Geometry(t) && IsPoolRemoved(t, t', p, s)
    ensures Geometry(t')
  {
    forall a {:trigger Next(t', a)} | a in t' && t'[a].words > 0
      ensures Next(t', a) in t' && t'[Next(t', a)].prev == a
    {
      assert Next(t', a) == Next(t, a);
      assert t[Next(t, a)].prev == a;
    }
    forall a {:trigger t'[a].prev} | a in t' && t'[a].prev != 0
      ensures t'[a].prev in t' && t'[t'[a].prev].words > 0 && Next(t', t'[a].prev) == a
    {
      assert t'[a].prev == t[a].prev;
      assert t[a].prev != p;
      assert Next(t', t[a].prev) == Next(t, t[a].prev);
    }
  }

  lemma RemovedPools(t: Tiling, t': Tiling, pools: map<nat, nat>, p: nat, s: nat)
    requires Disjoint(t) && Pools(t, pools) && IsPoolRemoved(t, t', p, s) && p in pools && s == End(pools, p)
    ensures Pools(t', pools - {p})
  {
    RemovedEnds(t, t', pools, p, s);
    RemovedInner(t, t', pools, p, s);
    RemovedCover(t, t', pools, p, s);
    hide PoolEnds, PoolInner, PoolCover;
  }

  lemma RemovedEnds(t: Tiling, t': Tiling, pools: map<nat, nat>, p: nat, s: nat)
    requires PoolEnds(t, pools) && PoolCover(t, pools) && IsPoolRemoved(t, t', p, s) && p in pools && s == End(pools, p)
    ensures PoolEnds(t', pools - {p})
  {
    var pools' := pools - {p};
    assert forall q :: q in pools' ==> q in pools && q != p && End(pools', q) == End(pools, q);
  }

  lemma RemovedInner(t: Tiling, t': Tiling, pools: map<nat, nat>, p: nat, s: nat)
    requires PoolInner(t, pools) && IsPoolRemoved(t, t', p, s)
    ensures PoolInner(t', pools - {p})
  {
    var pools' := pools - {p};
    assert forall q :: q in pools' ==> q in pools && End(pools', q) == End(pools, q);
  }

  lemma RemovedCover(t: Tiling, t': Tiling, pools: map<nat, nat>, p: nat, s: nat)
    requires Disjoint(t) && PoolCover(t, pools) && IsPoolRemoved(t, t', p, s) && p in pools && s == End(pools, p)
    ensures PoolCover(t', pools - {p})
  {
    var pools' := pools - {p};
    assert forall q :: q in pools' ==> q in pools && q != p && End(pools', q) == End(pools, q);
    forall a {:trigger InPool(pools', a)} | a in t' ensures InPool(pools', a) {
      assert InPool(pools, a);
      var q :| q in pools && q <= a <= End(pools, q);
      assert q != p;
      assert q in pools' && q <= a <= End(pools', q);
    }
  }

  lemma RemovedLists(h: State, t': Tiling, p: nat, s: nat)
    requires Listed(h.t, h.lists, {p}) && Coalesced(h.t, {p}) && !At(h.t, s).free && IsPoolRemoved(h.t, t', p, s)
    ensures Listed(t', h.lists, {}) && Coalesced(t', {})
  {
    hide MappingInsert;
    assert forall a {:trigger ClassOf(t', a)} :: a in t' ==> ClassOf(t', a) == ClassOf(h.t, a);
    assert forall a {:trigger Next(t', a)} :: a in t' ==> Next(t', a) == Next(h.t, a);
  }

  // A pool whose first block is followed by a sentinel holds nothing else.
  lemma SentinelEnds(t: Tiling, pools: map<nat, nat>, p: nat)
    requires Geometry(t) && Pools(t, pools) && p in pools && t[p].words > 0 && At(t, Next(t, p)).words == 0
    ensures Next(t, p) == End(pools, p)
  {
  }

  // tlsf_remove_pool on a pool that its assertions accept.
  lemma RemovePoolInv(h: State, p: nat)
    requires Inv(h, {}) && p in h.pools && h.t[p].free && At(h.t, Next(h.t, p)).words == 0
    ensures Inv(RemovePool(h, p), {})
  {
    hide NextLinks, PrevLinks, Disjoint, PoolCover, Coalesced, Listed;
    var s, t' := Next(h.t, p), h.t - {p, Next(h.t, p)};
    FreeAlone(h, p);
    Neighbours(h, {}, p);
    SentinelEnds(h.t, h.pools, p);
    RemoveInv(h, p, {});
    assert {} + {p} == {p};
    var h1 := Remove(h, p);
    assert IsPoolRemoved(h.t, t', p, s);
    RemovedGeometry(h1.t, t', p, s);
    RemovedPools(h1.t, t', h.pools, p, s);
    RemovedLists(h1, t', p, s);
  }
}
