// Whole runs of the allocator: the invariant in every reachable state, what a
// walk over a pool sees, when malloc fails, and what freeing everything leaves.
module Runs {
  import opened Bits
  import opened SizeClass
  import opened Heap
  import opened Policy
  import opened Aligned
  import opened Live

  // ---------------------------------------------------------------- walking a pool

  // The blocks that tlsf_walk_pool visits from a up to the sentinel e.
  function Walk(t: Tiling, a: nat, e: nat): seq<nat>
    requires Geometry(t) && a in t && e in t && a <= e && t[e].words == 0
    decreases e - a
  {
    if t[a].words == 0 then [] else
      assert a + 1 + t[a].words <= e;
      [a] + Walk(t, Next(t, a), e)
  }

  function Footprint(t: Tiling, s: seq<nat>): nat {
    if s == [] then 0 else At(t, s[0]).words + 1 + Footprint(t, s[1..])
  }

  ghost predicate Increasing(s: seq<nat>) {
    forall i, j :: 0 <= i < j < |s| ==> s[i] < s[j]
  }

  // A walk visits every block of the pool, each once and in address order, and
  // the blocks with their headers fill the pool exactly.
  lemma {:induction false} WalkVisits(t: Tiling, a: nat, e: nat)
    requires Geometry(t) && a in t && e in t && a <= e && t[e].words == 0
    requires forall x :: x in t && a <= x < e ==> t[x].words > 0
    ensures var w := Walk(t, a, e);
            && (forall x :: x in w <==> x in t && a <= x < e)
            && Increasing(w)
            && Footprint(t, w) == e - a
    decreases e - a
  {
    hide Geometry, Increasing, Walk, Footprint;
    WalkCons(t, a, e);
    if t[a].words == 0 {
      NothingWalked(t);
    } else {
      var n := Next(t, a);
      WalkVisits(t, n, e);
      var v := Walk(t, n, e);
      IncreasingCons(a, v);
      FootprintCons(t, a, v);
      forall x: nat ensures x in [a] + v <==> x in t && a <= x < e {
        NoneBetween(t, a, x);
        assert x in [a] + v <==> x == a || x in v;
      }
    }
  }

  // A walk is over at a sentinel, and otherwise goes on behind the block.
  lemma WalkCons(t: Tiling, a: nat, e: nat)
    requires Geometry(t) && a in t && e in t && a <= e && t[e].words == 0
    requires forall x :: x in t && a <= x < e ==> t[x].words > 0
    ensures t[a].words == 0 ==> a == e && Walk(t, a, e) == []
    ensures t[a].words > 0 ==> Next(t, a) in t && a < Next(t, a) <= e && Walk(t, a, e) == [a] + Walk(t, Next(t, a), e)
  {
    if t[a].words > 0 {
      NoneBetween(t, a, e);
    }
  }

  lemma NothingWalked(t: Tiling)
    ensures Increasing([]) && Footprint(t, []) == 0
  {
  }

  lemma FootprintCons(t: Tiling, a: nat, v: seq<nat>)
    ensures Footprint(t, [a] + v) == At(t, a).words + 1 + Footprint(t, v)
  {
    assert ([a] + v)[1..] == v;
  }

  lemma IncreasingCons(a: nat, v: seq<nat>)
    requires Increasing(v) && forall x :: x in v ==> a < x
    ensures Increasing([a] + v)
  {
    assert forall i :: 0 <= i < |v| ==> v[i] in v;
  }

  // No block starts inside another.
  lemma NoneBetween(t: Tiling, a: nat, x: nat)
    requires Geometry(t) && a in t && t[a].words > 0
    ensures x in t && a < x ==> Next(t, a) <= x
  {
  }

  // Conservation: the sizes and headers of a pool's blocks add up to the pool.
  lemma PoolConserved(h: State, x: set<nat>, p: nat)
    requires Inv(h, x) && p in h.pools
    ensures p in h.t && End(h.pools, p) in h.t && h.t[End(h.pools, p)].words == 0
    ensures var w := Walk(h.t, p, End(h.pools, p));
            && Footprint(h.t, w) == h.pools[p] + 1
            && Increasing(w)
            && forall b :: b in w <==> b in h.t && p <= b < End(h.pools, p)
  {
    hide NextLinks, PrevLinks, Disjoint, Coalesced, Listed, PoolCover;
    WalkVisits(h.t, p, End(h.pools, p));
  }

  // A walk goes from each block to its physical successor.
  lemma {:induction false} WalkLinks(t: Tiling, a: nat, e: nat, i: nat)
    requires Geometry(t) && a in t && e in t && a <= e && t[e].words == 0 && i < |Walk(t, a, e)|
    ensures var w := Walk(t, a, e);
            w[i] in t && t[w[i]].words > 0 && (if i == 0 then w[i] == a else t[w[i]].prev == w[i - 1] && w[i - 1] != 0)
    decreases e - a
  {
    assert a + 1 + t[a].words <= e;
    if i > 0 {
      WalkLinks(t, Next(t, a), e, i - 1);
    }
  }

  // ---------------------------------------------------------------- disjointness

  // The payload of a block in use, header word excluded, is words a + 2 to Next(a).
  predicate InPayload(t: Tiling, a: nat, k: nat) {
    Used(t, a) && a + 2 <= k <= Next(t, a) && t[a].words > 0
  }

  // No word belongs to the payload of two live blocks, nor to a payload and a size field.
  lemma LiveDisjoint(h: State, x: set<nat>, a: nat, b: nat, k: nat)
    requires Inv(h, x) && InPayload(h.t, a, k) && b in h.t
    ensures InPayload(h.t, b, k) ==> a == b
    ensures k != b + 1
  {
    hide NextLinks, PrevLinks, Pools, Coalesced, Listed;
  }

  // ---------------------------------------------------------------- when malloc fails

  // The list a free block is in is the one its size names.
  lemma FreeIsListed(h: State, b: nat)
    requires Inv(h, {}) && b in h.t && h.t[b].free
    ensures ClassOf(h.t, b).InTable() && b in ListAt(h.lists, ClassOf(h.t, b))
  {
    hide MappingInsert, NextLinks, PrevLinks, Disjoint, PoolEnds, PoolInner, PoolCover, Coalesced;
  }

  // Some free block lies in a class at or above the one searched for n words.
  ghost predicate Available(t: Tiling, n: nat) {
    n != 0 && exists b :: b in t && t[b].free && MappingSearch(8 * n).Le(ClassOf(t, b))
  }

  // That is exactly when the search finds a block.
  lemma LocateSucceeds(h: State, n: nat)
    requires Fits(n) && Inv(h, {})
    ensures LocateFree(h, n).b != NULL <==> Available(h.t, n)
  {
    if n != 0 {
      InsertSecondLevel(Rounded(8 * n));
      hide MappingInsert;
      var c := MappingSearch(8 * n);
      ScanSpec(h.lists, c);
      var d := Scan(h.lists, c);
      if ListAt(h.lists, d) != [] {
        ListHead(h, {}, d);
        assert LocateFree(h, n).b == ListAt(h.lists, d)[0];
      }
      forall b | b in h.t && h.t[b].free && c.Le(ClassOf(h.t, b)) ensures ListAt(h.lists, d) != [] {
        FreeIsListed(h, b);
      }
    }
  }

  // b is the block that good fit takes for n words: the first of the least class
  // at or above the one searched that has a free block.
  ghost predicate FirstSuitable(h: State, n: nat, b: nat) {
    && b in h.t && h.t[b].free && MappingSearch(8 * n).Le(ClassOf(h.t, b))
    && (forall a :: a in h.t && h.t[a].free && MappingSearch(8 * n).Le(ClassOf(h.t, a)) ==>
          ClassOf(h.t, b).Le(ClassOf(h.t, a)))
    && ListAt(h.lists, ClassOf(h.t, b)) != [] && ListAt(h.lists, ClassOf(h.t, b))[0] == b
  }

  // That is the block the search finds.
  lemma LocatesFirst(h: State, n: nat)
    requires Fits(n) && Inv(h, {}) && LocateFree(h, n).b != NULL
    ensures FirstSuitable(h, n, LocateFree(h, n).b)
  {
    InsertSecondLevel(Rounded(8 * n));
    hide MappingInsert, NextLinks, PrevLinks, Pools, Coalesced;
    var c := MappingSearch(8 * n);
    ScanSpec(h.lists, c);
    var d := Scan(h.lists, c);
    ListHead(h, {}, d);
    forall a | a in h.t && h.t[a].free && c.Le(ClassOf(h.t, a)) ensures d.Le(ClassOf(h.t, a)) {
      FreeIsListed(h, a);
    }
  }

  // tlsf_malloc hands out that block.
  lemma GoodFitGiven(h: State, n: nat)
    requires Fits(n) && Inv(h, {}) && Malloc(h, n).b != NULL
    ensures FirstSuitable(h, n, Malloc(h, n).b)
  {
    hide Inv, LocateFree, FirstSuitable, PrepareUsed;
    LocatesFirst(h, n);
  }

  // Where tlsf_memalign puts a payload: at the first place for it in the first suitable block.
  ghost predicate AlignedPlace(h: State, w: nat, align: nat, b: nat) {
    exists l: nat :: FirstSuitable(h, w, l) && LeastAligned(8 * (l + 2), 8 * (b + 2), align)
  }

  // It hands out that, and fails exactly when no free block is in a class at or
  // above the one searched.
  lemma MemalignGives(h: State, k: nat, size: nat)
    requires 0 < Pow2(k) <= TWO_64 && Fits(AlignedRequest(Pow2(k), size))
    requires Inv(h, {}) && Addressable(h.t) && k < 64
    requires AdjustRequest(size, 8) != 0 || k <= 3 || !Available(h.t, AlignedRequest(Pow2(k), size))
    ensures var w, m := AlignedRequest(Pow2(k), size), Memalign(h, Pow2(k), size);
            && (m.b == NULL <==> !Available(h.t, w))
            && (m.b != NULL ==> AlignedPlace(h, w, Pow2(k), m.b))
  {
    hide Inv, Pow2, AlignedRequest, AdjustRequest, LocateFree, Memalign, Available, LeastAligned, FirstSuitable;
    var w := AlignedRequest(Pow2(k), size);
    LocateSucceeds(h, w);
    if !Available(h.t, w) {
      LocateEither(h, w);
      MemalignNone(h, Pow2(k), size);
    } else {
      MemalignLeast(h, k, size);
      LocatesFirst(h, w);
    }
  }

  // tlsf_malloc succeeds exactly when some free block lies in a class at or above the one searched.
  lemma MallocSucceeds(h: State, n: nat)
    requires Fits(n) && Inv(h, {})
    ensures Malloc(h, n).b != NULL <==> Available(h.t, n)
  {
    hide Inv, LocateFree, Available;
    LocateSucceeds(h, n);
  }

  // The rounding is all that can make tlsf_malloc fail: a free block of the
  // rounded size is enough, and after a failure every free block is smaller
  // than the request plus 1/32 of it.
  lemma MallocFailure(h: State, n: nat, b: nat)
    requires Fits(n) && n > 0 && Inv(h, {}) && Malloc(h, n).b == NULL && b in h.t && h.t[b].free
    ensures 8 * h.t[b].words < Rounded(8 * n)
    ensures 32 * (8 * h.t[b].words) < 33 * (8 * n)
  {
    hide MappingInsert, Inv, Malloc;
    MallocSucceeds(h, n);
    RoundingLoss(8 * n);
    if 8 * h.t[b].words >= Rounded(8 * n) {
      RoundedFits(8 * n, 8 * h.t[b].words);
    }
  }

  // ---------------------------------------------------------------- operations

  // The public operations, with the arguments a caller gives.  Blocks stand for
  // the pointers handed out, and align is the power of two 2^k.
  datatype Op =
    | OpAddPool(p: nat, n: nat)
    | OpRemovePool(p: nat)
    | OpMalloc(size: nat)
    | OpMemalign(k: nat, size: nat)
    | OpRealloc(b: nat, size: nat)
    | OpFree(b: nat)

  predicate Alive(t: Tiling, b: nat) {
    Used(t, b) && t[b].words > 0
  }

  // What the source demands of a caller.
  ghost predicate Legal(h: State, op: Op) {
    match op
    case OpAddPool(p, n) => 3 <= n < MAX_WORDS && Apart(h.pools, p, n) && 8 * (p + 1 + n) < TWO_62 / 2
    case OpRemovePool(p) => p in h.pools && At(h.t, p).free && At(h.t, Next(h.t, p)).words == 0
    case OpMalloc(size) => Fits(Request(size))
    case OpMemalign(k, size) =>
      && k < 64 && 0 < Pow2(k) <= TWO_64 && Fits(AlignedRequest(Pow2(k), size))
      && (AdjustRequest(size, 8) != 0 || k <= 3 || !Available(h.t, AlignedRequest(Pow2(k), size)))
    case OpRealloc(b, size) =>
      && Alive(h.t, b) && (size < BLOCK_SIZE_MAX || h.t[b].words < 4)
      && (MustMove(h.t, b, Request(size)) ==> Fits(Request(size)))
    case OpFree(b) => Alive(h.t, b)
  }

  ghost function Apply(h: State, op: Op): State
    requires Legal(h, op)
  {
    match op
    case OpAddPool(p, n) => AddPool(h, p, n)
    case OpRemovePool(p) => RemovePool(h, p)
    case OpMalloc(size) => Malloc(h, Request(size)).h
    case OpMemalign(k, size) => Memalign(h, Pow2(k), size).h
    case OpRealloc(b, size) => if size == 0 then Free(h, b) else Realloc(h, b, size).h
    case OpFree(b) => Free(h, b)
  }

  // All pools lie where byte addresses can be computed with.
  ghost predicate PoolsAddressable(pools: map<nat, nat>) {
    forall p :: p in pools ==> 8 * End(pools, p) < TWO_62 / 2
  }

  lemma AddressableFromPools(h: State, x: set<nat>)
    requires Inv(h, x) && PoolsAddressable(h.pools)
    ensures Addressable(h.t)
  {
    hide NextLinks, PrevLinks, Disjoint, PoolEnds, PoolInner, Coalesced, Listed;
    forall a | a in h.t ensures 8 * a < TWO_62 / 2 {
      assert InPool(h.pools, a);
      var p :| p in h.pools && p <= a <= End(h.pools, p);
    }
  }

  function Empty(): State {
    State(map[], map fl, sl | 0 <= fl < FL_INDEX_COUNT && 0 <= sl < SL_INDEX_COUNT :: Class(fl, sl) := [], map[])
  }

  lemma EmptyInv()
    ensures Inv(Empty(), {})
  {
    forall c: Class ensures c in Empty().lists <==> c.InTable() {
      if c.InTable() {
        assert c == Class(c.fl, c.sl);
      }
    }
  }

  lemma MallocPools(h: State, n: nat)
    requires Fits(n)
    ensures Malloc(h, n).h.pools == h.pools
  {
  }

  lemma ReallocPools(h: State, b: nat, size: nat)
    requires MustMove(h.t, b, Request(size)) ==> Fits(Request(size))
    ensures Realloc(h, b, size).h.pools == h.pools
  {
    hide Request, MustMove, Malloc, Free;
    var n := Request(size);
    if MustMove(h.t, b, n) {
      MallocPools(h, n);
      FreePools(Malloc(h, n).h, b);
    }
  }

  lemma MemalignPools(h: State, align: nat, size: nat)
    requires 0 < align <= TWO_64 && Fits(AlignedRequest(align, size))
    ensures Memalign(h, align, size).h.pools == h.pools
  {
    hide AlignUp, AlignGap, AlignedRequest, AdjustRequest;
  }

  // Every legal operation keeps the invariant.
  lemma StepInv(h: State, op: Op)
    requires Inv(h, {}) && PoolsAddressable(h.pools) && Legal(h, op)
    ensures Inv(Apply(h, op), {}) && PoolsAddressable(Apply(h, op).pools)
  {
    hide Inv, AdjustRequest, AlignedRequest, Malloc, Memalign, Realloc, Free, AddPool, RemovePool;
    match op
    case OpAddPool(p, n) =>
      AddPoolInv(h, p, n);
      AddPoolPools(h, p, n);
    case OpRemovePool(p) =>
      RemovePoolLegal(h, p);
    case OpMalloc(size) =>
      MallocStep(h, size);
    case OpMemalign(k, size) =>
      AddressableFromPools(h, {});
      MemalignStep(h, k, size);
      MemalignPools(h, Pow2(k), size);
    case OpRealloc(b, size) =>
      ReallocStep(h, b, size);
    case OpFree(b) =>
      FreeInv(h, b);
      FreePools(h, b);
  }

  lemma AddPoolPools(h: State, p: nat, n: nat)
    requires PoolsAddressable(h.pools) && 8 * (p + 1 + n) < TWO_62 / 2
    ensures PoolsAddressable(AddPool(h, p, n).pools)
  {
    var pools' := h.pools[p := n];
    assert forall q :: q in pools' && q != p ==> End(pools', q) == End(h.pools, q);
  }

  lemma RemovePoolLegal(h: State, p: nat)
    requires Inv(h, {}) && PoolsAddressable(h.pools) && Legal(h, OpRemovePool(p))
    ensures Inv(RemovePool(h, p), {}) && PoolsAddressable(RemovePool(h, p).pools)
  {
    hide Inv;
    StartOfPool(h, p);
    RemovePoolInv(h, p);
    hide RemovePool;
    RemovePoolPools(h, p);
  }

  lemma StartOfPool(h: State, p: nat)
    requires Inv(h, {}) && p in h.pools
    ensures p in h.t
  {
    hide NextLinks, PrevLinks, Disjoint, PoolInner, PoolCover, Coalesced, Listed;
  }

  lemma RemovePoolPools(h: State, p: nat)
    requires PoolsAddressable(h.pools)
    ensures PoolsAddressable(RemovePool(h, p).pools)
  {
    var pools' := h.pools - {p};
    assert forall q :: q in pools' ==> q in h.pools && End(pools', q) == End(h.pools, q);
  }

  lemma FreePools(h: State, b: nat)
    ensures Free(h, b).pools == h.pools
  {
  }

  lemma MallocStep(h: State, size: nat)
    requires Fits(Request(size)) && Inv(h, {})
    ensures var m := Malloc(h, Request(size)); Inv(m.h, {}) && m.h.pools == h.pools
  {
    AdjustedRequest(size);
    hide Inv, AdjustRequest;
    var n := Request(size);
    MallocPools(h, n);
    if n == 0 {
      assert Malloc(h, n).h == h;
    } else {
      MallocInv(h, n);
    }
  }

  lemma MemalignStep(h: State, k: nat, size: nat)
    requires Inv(h, {}) && Addressable(h.t) && Legal(h, OpMemalign(k, size))
    ensures Inv(Memalign(h, Pow2(k), size).h, {})
  {
    hide Inv, AdjustRequest, AlignedRequest, Available, LocateFree, Memalign;
    var w := AlignedRequest(Pow2(k), size);
    if Available(h.t, w) || AdjustRequest(size, 8) != 0 || k <= 3 {
      MemalignInv(h, k, size);
    } else {
      LocateSucceeds(h, w);
      LocateEither(h, w);
      MemalignNone(h, Pow2(k), size);
    }
  }

  // A size that adjusts to 0 leaves a block alone that is too small to be split.
  lemma ReallocTiny(h: State, b: nat, size: nat)
    requires size >= BLOCK_SIZE_MAX && !CanSplit(h.t, b, 0)
    ensures !MustMove(h.t, b, Request(size)) && Realloc(h, b, size) == Outcome(h, b)
  {
  }

  lemma ReallocStep(h: State, b: nat, size: nat)
    requires Inv(h, {}) && Legal(h, OpRealloc(b, size))
    ensures var h' := if size == 0 then Free(h, b) else Realloc(h, b, size).h; Inv(h', {}) && h'.pools == h.pools
  {
    hide Inv;
    if size == 0 {
      FreeInv(h, b);
      FreePools(h, b);
    } else if size < BLOCK_SIZE_MAX {
      ReallocKeeps(h, b, size);
      ReallocPools(h, b, size);
    } else {
      ReallocTiny(h, b, size);
    }
    hide Free, Realloc;
  }

  // A run starts from an empty allocator and makes legal calls only.
  ghost predicate LegalRun(h: State, ops: seq<Op>)
    decreases |ops|
  {
    ops != [] ==> Legal(h, ops[0]) && LegalRun(Apply(h, ops[0]), ops[1..])
  }

  ghost function Run(h: State, ops: seq<Op>): State
    requires LegalRun(h, ops)
    decreases |ops|
  {
    if ops == [] then h else Run(Apply(h, ops[0]), ops[1..])
  }

  lemma {:induction false} RunInv(h: State, ops: seq<Op>)
    requires Inv(h, {}) && PoolsAddressable(h.pools) && LegalRun(h, ops)
    ensures Inv(Run(h, ops), {}) && PoolsAddressable(Run(h, ops).pools)
    decreases |ops|
  {
    hide Inv, Legal, Apply;
    if ops != [] {
      StepInv(h, ops[0]);
      RunInv(Apply(h, ops[0]), ops[1..]);
    }
  }

  // The heap invariant holds in every reachable state.
  lemma Reachable(ops: seq<Op>)
    requires LegalRun(Empty(), ops)
    ensures Inv(Run(Empty(), ops), {})
  {
    EmptyInv();
    hide Inv;
    RunInv(Empty(), ops);
  }

  // ---------------------------------------------------------------- freeing and removing

  // No block of the pool at p is live.
  ghost predicate PoolUnused(h: State, p: nat)
    requires p in h.pools
  {
    forall b :: p <= b <= End(h.pools, p) ==> !Alive(h.t, b)
  }

  // The assertions of tlsf_remove_pool hold for a pool if and only if none of
  // its blocks is live, whatever is live in other pools.
  lemma RemovalExact(h: State, p: nat)
    requires Inv(h, {}) && p in h.pools
    ensures Legal(h, OpRemovePool(p)) <==> PoolUnused(h, p)
  {
    hide Inv, PoolUnused;
    StartOfPool(h, p);
    if Legal(h, OpRemovePool(p)) {
      LegalUnused(h, p);
    }
    if PoolUnused(h, p) {
      UnusedPool(h, p);
    }
  }

  lemma LegalUnused(h: State, p: nat)
    requires Inv(h, {}) && Legal(h, OpRemovePool(p))
    ensures PoolUnused(h, p)
  {
    hide NextLinks, PrevLinks, Coalesced, Listed;
    var e := Next(h.t, p);
    assert p in h.t && h.t[p].words > 0;
    SentinelEnds(h.t, h.pools, p);
    forall b | p <= b <= e ensures !Alive(h.t, b) {
      NoneBetween(h.t, p, b);
    }
  }

  // Such a pool is one free block and its sentinel.
  lemma UnusedPool(h: State, p: nat)
    requires Inv(h, {}) && p in h.pools && PoolUnused(h, p)
    ensures p in h.t && h.t[p] == Block(h.pools[p], true, 0)
    ensures Next(h.t, p) == End(h.pools, p)
    ensures Legal(h, OpRemovePool(p))
  {
    assert p in h.t && h.t[p].words > 0;
    assert !Alive(h.t, p);
    Neighbours(h, {}, p);
    FreeAlone(h, p);
    var e := Next(h.t, p);
    assert e <= End(h.pools, p);
    assert !Alive(h.t, e);
    assert h.t[e].words == 0;
  }

  function FreeAll(h: State, bs: seq<nat>): State
    decreases |bs|
  {
    if bs == [] then h else FreeAll(Free(h, bs[0]), bs[1..])
  }

  // Freeing live blocks, in any order, takes just these out of use.
  lemma {:induction false} FreeAllInv(h: State, bs: seq<nat>)
    requires Inv(h, {}) && NoDuplicates(bs)
    requires forall b :: b in bs ==> Alive(h.t, b)
    ensures var h' := FreeAll(h, bs);
            && Inv(h', {}) && h'.pools == h.pools
            && forall a :: Alive(h'.t, a) <==> Alive(h.t, a) && a !in bs
    decreases |bs|
  {
    hide Inv;
    if bs != [] {
      var b, h1 := bs[0], Free(h, bs[0]);
      assert b in bs;
      FreeInv(h, b);
      FreePools(h, b);
      FreeUsed(h, b);
      hide Free;
      forall a ensures Alive(h1.t, a) <==> Alive(h.t, a) && a != b {
        assert Used(h.t, a) && a != b <==> Used(h1.t, a);
      }
      forall a ensures a in bs <==> a == b || a in bs[1..] {
      }
      assert b !in bs[1..];
      FreeAllInv(h1, bs[1..]);
    }
  }

  // From any reachable state, freeing in any order live blocks among which are
  // all those of a pool gives the pool back as one block of its full size, and it
  // can be removed, whatever stays live in other pools.
  lemma DrainedPool(ops: seq<Op>, bs: seq<nat>, p: nat)
    requires LegalRun(Empty(), ops) && NoDuplicates(bs)
    requires forall b :: b in bs ==> Alive(Run(Empty(), ops).t, b)
    requires p in Run(Empty(), ops).pools
    requires var h := Run(Empty(), ops); forall b :: p <= b <= End(h.pools, p) && Alive(h.t, b) ==> b in bs
    ensures var h := Run(Empty(), ops);
            var h' := FreeAll(h, bs);
            && h'.pools == h.pools && p in h'.t && h'.t[p] == Block(h.pools[p], true, 0)
            && Next(h'.t, p) == End(h.pools, p)
            && Legal(h', OpRemovePool(p)) && Inv(RemovePool(h', p), {})
  {
    Reachable(ops);
    var h := Run(Empty(), ops);
    hide Inv, Run, LegalRun;
    FreeAllInv(h, bs);
    var h' := FreeAll(h, bs);
    hide FreeAll;
    UnusedPool(h', p);
    RemovePoolInv(h', p);
  }
}
