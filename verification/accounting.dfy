// The counter used of tjost.c, which tjost_alloc, tjost_realloc and tjost_free
// keep beside the allocator: how it relates to the blocks that are live.
module Accounting {
  import opened Bits
  import opened SizeClass
  import opened Heap
  import opened Policy
  import opened Live
  import opened Runs
  import opened Limits

  // ---------------------------------------------------------------- live bytes

  // tlsf_block_size, were it called on the block at a.
  function LiveSize(t: Tiling, a: nat): nat {
    if Used(t, a) then 8 * t[a].words else 0
  }

  // The bytes of the live blocks below address n.
  function LiveBytes(t: Tiling, n: nat): nat {
    if n == 0 then 0 else LiveBytes(t, n - 1) + LiveSize(t, n - 1)
  }

  // When the live blocks differ at b and c only, the sum differs by those.
  lemma {:induction false} LiveChanges(t: Tiling, t': Tiling, b: nat, c: nat, n: nat)
    requires SameUsed(t, t', {b, c})
    ensures var d := (if b < n then LiveSize(t', b) - LiveSize(t, b) else 0)
                     + (if c < n && c != b then LiveSize(t', c) - LiveSize(t, c) else 0);
            LiveBytes(t', n) == LiveBytes(t, n) + d
  {
    if n != 0 {
      LiveChanges(t, t', b, c, n - 1);
      var a := n - 1;
      if a != b && a != c {
        assert Used(t, a) <==> Used(t', a);
      }
    }
  }

  lemma SameUsedMore(t: Tiling, t': Tiling, s: set<nat>, s': set<nat>)
    requires SameUsed(t, t', s) && s <= s'
    ensures SameUsed(t, t', s')
  {
  }

  // Live blocks end before the next one starts, so their bytes fit below n words.
  lemma {:induction false} LiveBytesBound(t: Tiling, n: nat)
    requires Disjoint(t)
    ensures LiveBytes(t, n) <= 8 * Reach(t, n)
  {
    if n != 0 {
      LiveBytesBound(t, n - 1);
      ReachStep(t, n - 1);
    }
  }

  // The end of the last live block that starts below n.
  function Reach(t: Tiling, n: nat): nat {
    if n == 0 then 0 else if LiveSize(t, n - 1) > 0 then n + t[n - 1].words else Reach(t, n - 1)
  }

  lemma {:induction false} ReachStep(t: Tiling, a: nat)
    requires Disjoint(t)
    ensures LiveSize(t, a) > 0 ==> Reach(t, a) <= a
  {
    if LiveSize(t, a) > 0 {
      ReachBelow(t, a, a);
    }
  }

  lemma {:induction false} ReachBelow(t: Tiling, n: nat, a: nat)
    requires Disjoint(t) && a in t && n <= a
    ensures Reach(t, n) <= a
  {
    if n != 0 && LiveSize(t, n - 1) == 0 {
      ReachBelow(t, n - 1, a);
    }
  }

  // ---------------------------------------------------------------- the ledger

  // The heap, the counter, and the bytes of the blocks that a failed
  // tjost_realloc took off the counter although they stay live.
  datatype Ledger = Ledger(h: State, used: nat, debt: nat)

  // size_t arithmetic
  function Wrap(x: int): nat {
    x % TWO_64
  }

  // tlsf_block_size; the block of the null pointer is NULL.
  function BlockBytes(t: Tiling, b: nat): nat {
    if b == NULL then 0 else 8 * At(t, b).words
  }

  // tlsf_realloc with all its entry cases
  function AnyRealloc(h: State, b: nat, len: nat): Outcome
    requires ResizeFits(h, b, len)
  {
    if b == NULL then Malloc(h, Request(len))
    else if len == 0 then Outcome(Free(h, b), NULL)
    else Realloc(h, b, len)
  }

  // If tlsf_realloc has to search, the search stays in the table.
  predicate ResizeFits(h: State, b: nat, len: nat) {
    (b == NULL || MustMove(h.t, b, Request(len))) ==> Fits(Request(len))
  }

  // The null pointer, or a live block for which the size is sound.
  predicate Resizable(h: State, b: nat, len: nat) {
    b == NULL || (Alive(h.t, b) && (len < BLOCK_SIZE_MAX || h.t[b].words < 4))
  }

  // The calls that change the counter, and those that change the pools.
  datatype Call =
    | Alloc(len: nat)
    | Resize(b: nat, len: nat)
    | Release(b: nat)
    | Extend(p: nat, n: nat)
    | Retract(p: nat)

  // What tjost_alloc, tjost_realloc, tjost_free and tlsf_add_pool demand of a caller.
  ghost predicate Allowed(l: Ledger, c: Call) {
    match c
    case Alloc(len) => Fits(Request(len))
    case Resize(b, len) => Resizable(l.h, b, len) && ResizeFits(l.h, b, len)
    case Release(b) => b == NULL || Alive(l.h.t, b)
    case Extend(p, n) => Legal(l.h, OpAddPool(p, n))
    case Retract(p) => Legal(l.h, OpRemovePool(p))
  }

  // A live block cannot be resized: it has no room where it is, and no free block
  // is in a class that the search can reach.
  ghost predicate Fails(l: Ledger, c: Call) {
    && c.Resize? && c.b != NULL && c.len != 0
    && !RoomFor(l.h.t, c.b, Request(c.len)) && !Available(l.h.t, Request(c.len))
  }

  // That is exactly when tlsf_realloc returns null for it.
  lemma FailsExactly(l: Ledger, b: nat, len: nat)
    requires ResizeFits(l.h, b, len) && Inv(l.h, {}) && Alive(l.h.t, b) && b != NULL && len != 0
    ensures Fails(l, Resize(b, len)) <==> AnyRealloc(l.h, b, len).b == NULL
  {
    hide Inv, Malloc, Available, MustMove, Request, TrimUsed, MergeNext, RoomFor;
    MovesExactly(l.h, b, Request(len));
    if MustMove(l.h.t, b, Request(len)) {
      MallocSucceeds(l.h, Request(len));
    }
  }

  ghost function Book(l: Ledger, c: Call): Ledger
    requires Allowed(l, c)
  {
    match c
    case Alloc(len) =>
      var m := Malloc(l.h, Request(len));
      Ledger(m.h, Wrap(l.used + BlockBytes(m.h.t, m.b)), l.debt)
    case Resize(b, len) =>
      var m := AnyRealloc(l.h, b, len);
      var less := Wrap(l.used - BlockBytes(l.h.t, b));
      Ledger(m.h, Wrap(less + BlockBytes(m.h.t, m.b)), l.debt + if Fails(l, c) then BlockBytes(l.h.t, b) else 0)
    case Release(b) =>
      Ledger(if b == NULL then l.h else Free(l.h, b), Wrap(l.used - BlockBytes(l.h.t, b)), l.debt)
    case Extend(p, n) => l.(h := AddPool(l.h, p, n))
    case Retract(p) => l.(h := RemovePool(l.h, p))
  }

  // All pools lie below word n of a memory that can be addressed.
  ghost predicate PoolsBelow(pools: map<nat, nat>, n: nat) {
    8 * n < TWO_64 / 4 && forall p :: p in pools ==> End(pools, p) < n
  }

  // The counter is what is live less the debt, as a size_t.
  ghost predicate Balanced(l: Ledger, n: nat) {
    Inv(l.h, {}) && PoolsBelow(l.h.pools, n) && l.used == Wrap(LiveBytes(l.h.t, n) - l.debt)
  }

  lemma BlockBelow(h: State, n: nat, a: nat)
    requires Inv(h, {}) && PoolsBelow(h.pools, n) && a in h.t
    ensures a < n
  {
    hide NextLinks, PrevLinks, Disjoint, PoolEnds, PoolInner, Coalesced, Listed;
    assert InPool(h.pools, a);
    var p :| p in h.pools && p <= a <= End(h.pools, p);
  }

  lemma WrapAgain(x: int, y: int)
    ensures Wrap(Wrap(x) + y) == Wrap(x + y)
  {
  }

  // Live blocks that change at b and c only.
  lemma Rebalance(l: Ledger, h': State, b: nat, c: nat, n: nat, d: int)
    requires Balanced(l, n) && Inv(h', {}) && h'.pools == l.h.pools && SameUsed(l.h.t, h'.t, {b, c})
    requires var more := if c == b then 0 else LiveSize(h'.t, c) - LiveSize(l.h.t, c);
             LiveSize(h'.t, b) - LiveSize(l.h.t, b) + more == d
    ensures Balanced(Ledger(h', Wrap(l.used + d), l.debt), n)
  {
    hide Inv, SameUsed, LiveBytes, LiveSize;
    Beyond(l.h, n, b);
    Beyond(l.h, n, c);
    Beyond(h', n, b);
    Beyond(h', n, c);
    LiveChanges(l.h.t, h'.t, b, c, n);
    WrapAgain(LiveBytes(l.h.t, n) - l.debt, d);
  }

  lemma Beyond(h: State, n: nat, a: nat)
    requires Inv(h, {}) && PoolsBelow(h.pools, n)
    ensures a >= n ==> LiveSize(h.t, a) == 0
  {
    hide Inv, PoolsBelow;
    if a >= n && a in h.t {
      BlockBelow(h, n, a);
    }
  }

  lemma AllocBalanced(l: Ledger, len: nat, n: nat)
    requires Allowed(l, Alloc(len)) && Balanced(l, n)
    ensures Balanced(Book(l, Alloc(len)), n)
  {
    AdjustedRequest(len);
    hide Inv, PoolsBelow, AdjustRequest, Malloc, LiveBytes, SameUsed;
    var m := Malloc(l.h, Request(len));
    MallocPools(l.h, Request(len));
    MallocStep(l.h, len);
    MallocCases(l.h, Request(len));
    if m.b != NULL {
      SameUsedMore(l.h.t, m.h.t, {m.b}, {m.b, m.b});
      Rebalance(l, m.h, m.b, m.b, n, BlockBytes(m.h.t, m.b));
    }
  }

  lemma MallocCases(h: State, n: nat)
    requires Fits(n) && Inv(h, {}) && (n == 0 || n >= 3)
    ensures var m := Malloc(h, n);
            && (m.b == NULL ==> m.h == h)
            && (m.b != NULL ==>
                  && SameUsed(h.t, m.h.t, {m.b}) && LiveSize(h.t, m.b) == 0
                  && LiveSize(m.h.t, m.b) == BlockBytes(m.h.t, m.b))
  {
    hide Inv, SameUsed, PrepareUsed;
    if n != 0 {
      LocateFacts(h, n);
      if Malloc(h, n).b != NULL {
        MallocUsed(h, n);
      }
    }
    hide LocateFree;
  }

  lemma ReleaseBalanced(l: Ledger, b: nat, n: nat)
    requires Allowed(l, Release(b)) && Balanced(l, n)
    ensures Balanced(Book(l, Release(b)), n)
  {
    hide Inv, PoolsBelow, LiveBytes, SameUsed, Free;
    if b != NULL {
      FreeInv(l.h, b);
      FreePools(l.h, b);
      FreeUsed(l.h, b);
      var h' := Free(l.h, b);
      SameUsedMore(l.h.t, h'.t, {b}, {b, b});
      Rebalance(l, h', b, b, n, 0 - BlockBytes(l.h.t, b));
    }
  }

  lemma SameUsedSame(t: Tiling, b: nat)
    ensures SameUsed(t, t, {b, b})
  {
  }

  // A resize that succeeds moves the size of the old block to the new one.
  lemma ResizeBalanced(l: Ledger, b: nat, len: nat, n: nat)
    requires Allowed(l, Resize(b, len)) && Balanced(l, n) && b != NULL && len != 0
    ensures Balanced(Book(l, Resize(b, len)), n)
  {
    hide Inv, PoolsBelow, LiveBytes, SameUsed, Realloc, MustMove, AdjustRequest, Fails, RoomFor;
    FailsExactly(l, b, len);
    if len < BLOCK_SIZE_MAX {
      ReallocKeeps(l.h, b, len);
    } else {
      ReallocTiny(l.h, b, len);
      SameUsedSame(l.h.t, b);
    }
    ReallocPools(l.h, b, len);
    var m, gone: int := Realloc(l.h, b, len), BlockBytes(l.h.t, b);
    if m.b == NULL {
      // the old block stays live, but is off the counter
      WrapAgain(LiveBytes(l.h.t, n) - l.debt, 0 - gone);
      WrapAgain(l.used - gone, 0);
    } else {
      assert LiveSize(m.h.t, m.b) == BlockBytes(m.h.t, m.b) && LiveSize(l.h.t, b) == gone;
      WrapAgain(l.used - gone, BlockBytes(m.h.t, m.b));
      Rebalance(l, m.h, b, m.b, n, BlockBytes(m.h.t, m.b) - gone);
    }
  }

  // A pool brings no live block: its sentinel has no payload.
  lemma ExtendBalanced(l: Ledger, p: nat, k: nat, n: nat)
    requires Allowed(l, Extend(p, k)) && Balanced(l, n) && p + 1 + k < n
    ensures Balanced(Book(l, Extend(p, k)), n)
  {
    hide Inv, LiveBytes, SameUsed;
    AddPoolInv(l.h, p, k);
    var h' := AddPool(l.h, p, k);
    assert forall q :: q in h'.pools && q != p ==> End(h'.pools, q) == End(l.h.pools, q);
    PoolUsed(l.h, p, k);
    Beyond(l.h, n, p);
    Beyond(h', n, p);
    LiveChanges(l.h.t, h'.t, p, p + 1 + k, n);
  }

  lemma PoolUsed(h: State, p: nat, k: nat)
    requires Inv(h, {}) && Apart(h.pools, p, k)
    ensures var t' := AddPool(h, p, k).t;
            && SameUsed(h.t, t', {p, p + 1 + k})
            && LiveSize(h.t, p) == LiveSize(t', p) == 0 && LiveSize(h.t, p + 1 + k) == LiveSize(t', p + 1 + k) == 0
  {
    hide Inv;
    PoolApart(h, p, k);
    PlacedUsed(h, p, k);
  }

  lemma PoolApart(h: State, p: nat, k: nat)
    requires Inv(h, {}) && Apart(h.pools, p, k)
    ensures BlocksApart(h.t, p, k)
  {
    hide NextLinks, PrevLinks, PoolInner, Coalesced, Listed;
    ApartFromBlocks(h.t, h.pools, p, k);
  }

  lemma PlacedUsed(h: State, p: nat, k: nat)
    requires BlocksApart(h.t, p, k)
    ensures var t' := AddPool(h, p, k).t;
            && SameUsed(h.t, t', {p, p + 1 + k})
            && LiveSize(h.t, p) == LiveSize(t', p) == 0 && LiveSize(h.t, p + 1 + k) == LiveSize(t', p + 1 + k) == 0
  {
    hide ClassOf;
    InsertTiling(PoolBlocks(h, p, k), p);
    hide Insert;
  }

  // A pool that can go has no live block.
  lemma RetractBalanced(l: Ledger, p: nat, n: nat)
    requires Allowed(l, Retract(p)) && Balanced(l, n)
    ensures Balanced(Book(l, Retract(p)), n)
  {
    hide Inv, LiveBytes, SameUsed;
    StartOfPool(l.h, p);
    RemovePoolInv(l.h, p);
    var h' := RemovePool(l.h, p);
    assert forall q :: q in h'.pools ==> q in l.h.pools && End(h'.pools, q) == End(l.h.pools, q);
    UnusedGone(l.h, p);
    LiveChanges(l.h.t, h'.t, p, Next(l.h.t, p), n);
  }

  lemma UnusedGone(h: State, p: nat)
    requires At(h.t, p).free && At(h.t, Next(h.t, p)).words == 0
    ensures var t', s := RemovePool(h, p).t, Next(h.t, p);
            && SameUsed(h.t, t', {p, s})
            && LiveSize(h.t, p) == LiveSize(t', p) == 0 && LiveSize(h.t, s) == LiveSize(t', s) == 0
  {
  }

  // ---------------------------------------------------------------- runs

  ghost predicate Fitting(c: Call, n: nat) {
    c.Extend? ==> c.p + 1 + c.n < n
  }

  lemma BookBalanced(l: Ledger, c: Call, n: nat)
    requires Allowed(l, c) && Fitting(c, n) && Balanced(l, n)
    ensures Balanced(Book(l, c), n)
    ensures Book(l, c).debt == l.debt + if Fails(l, c) then LiveSize(l.h.t, c.b) else 0
  {
    match c
    case Alloc(len) => AllocBalanced(l, len, n);
    case Extend(p, k) => ExtendBalanced(l, p, k, n);
    case Release(b) => ReleaseBalanced(l, b, n);
    case Retract(p) => RetractBalanced(l, p, n);
    case Resize(b, len) =>
      if b == NULL {
        AllocBalanced(l, len, n);
        ResizeOfNull(l, len);
      } else if len == 0 {
        ReleaseBalanced(l, b, n);
        ResizeToNothing(l, b);
      } else {
        ResizeBalanced(l, b, len, n);
      }
  }

  lemma ResizeOfNull(l: Ledger, len: nat)
    requires l.used < TWO_64 && Fits(Request(len))
    ensures Book(l, Resize(NULL, len)) == Book(l, Alloc(len))
  {
    hide Malloc, AdjustRequest;
  }

  lemma ResizeToNothing(l: Ledger, b: nat)
    requires b != NULL && Alive(l.h.t, b)
    ensures Book(l, Resize(b, 0)) == Book(l, Release(b))
  {
    hide Free;
  }

  ghost predicate AllowedRun(l: Ledger, calls: seq<Call>, n: nat)
    decreases |calls|
  {
    calls != [] ==> Allowed(l, calls[0]) && Fitting(calls[0], n) && AllowedRun(Book(l, calls[0]), calls[1..], n)
  }

  ghost function RunBook(l: Ledger, calls: seq<Call>, n: nat): Ledger
    requires AllowedRun(l, calls, n)
    decreases |calls|
  {
    if calls == [] then l else RunBook(Book(l, calls[0]), calls[1..], n)
  }

  // The bytes of the live blocks that the run failed to resize, at the time.
  ghost function Lost(l: Ledger, calls: seq<Call>, n: nat): nat
    requires AllowedRun(l, calls, n)
    decreases |calls|
  {
    if calls == [] then 0 else
      (if Fails(l, calls[0]) then LiveSize(l.h.t, calls[0].b) else 0) + Lost(Book(l, calls[0]), calls[1..], n)
  }

  lemma {:induction false} RunBalanced(l: Ledger, calls: seq<Call>, n: nat)
    requires AllowedRun(l, calls, n) && Balanced(l, n)
    ensures Balanced(RunBook(l, calls, n), n) && RunBook(l, calls, n).debt == l.debt + Lost(l, calls, n)
    decreases |calls|
  {
    hide Balanced, Allowed, Fitting, Book, Fails, LiveSize;
    if calls != [] {
      BookBalanced(l, calls[0], n);
      RunBalanced(Book(l, calls[0]), calls[1..], n);
    }
  }

  ghost predicate NeverFails(l: Ledger, calls: seq<Call>, n: nat)
    requires AllowedRun(l, calls, n)
    decreases |calls|
  {
    calls != [] ==> !Fails(l, calls[0]) && NeverFails(Book(l, calls[0]), calls[1..], n)
  }

  // Every failed resize loses something.
  lemma {:induction false} LostNothing(l: Ledger, calls: seq<Call>, n: nat)
    requires AllowedRun(l, calls, n)
    ensures Lost(l, calls, n) == 0 <==> NeverFails(l, calls, n)
    decreases |calls|
  {
    hide Book, Available, RoomFor;
    if calls != [] {
      LostNothing(Book(l, calls[0]), calls[1..], n);
    }
  }

  // In every run the counter equals the bytes of all live blocks if and only if
  // the bytes lost to failed resizes are a multiple of 2^64, such as none.
  lemma UsedIsLive(calls: seq<Call>, n: nat)
    requires 8 * n < TWO_64 / 4 && AllowedRun(Ledger(Empty(), 0, 0), calls, n)
    ensures var start := Ledger(Empty(), 0, 0); var l := RunBook(start, calls, n);
            && (l.used == LiveBytes(l.h.t, n) <==> Lost(start, calls, n) % TWO_64 == 0)
            && l.used == Wrap(LiveBytes(l.h.t, n) - Lost(start, calls, n))
            && (Lost(start, calls, n) == 0 <==> NeverFails(start, calls, n))
  {
    hide LiveBytes, AllowedRun, RunBook, Lost, NeverFails, Inv, PoolsBelow, Empty;
    var start := Ledger(Empty(), 0, 0);
    StartBalanced(n);
    RunBalanced(start, calls, n);
    LostNothing(start, calls, n);
    var l := RunBook(start, calls, n);
    LiveFits(l.h, n);
    Congruent(LiveBytes(l.h.t, n), Lost(start, calls, n));
  }

  lemma StartBalanced(n: nat)
    requires 8 * n < TWO_64 / 4
    ensures Balanced(Ledger(Empty(), 0, 0), n)
  {
    hide Inv, LiveBytes;
    EmptyInv();
    NothingLive(n);
  }

  lemma Congruent(a: nat, b: nat)
    requires a < TWO_64
    ensures Wrap(a - b) == a <==> b % TWO_64 == 0
  {
  }

  lemma {:induction false} NothingLive(n: nat)
    ensures LiveBytes(Empty().t, n) == 0
  {
    if n != 0 {
      NothingLive(n - 1);
    }
  }

  lemma LiveFits(h: State, n: nat)
    requires Inv(h, {}) && PoolsBelow(h.pools, n)
    ensures LiveBytes(h.t, n) < TWO_64
  {
    hide LiveBytes, Reach;
    LiveBytesBound(h.t, n);
    ReachBound(h, n, n);
  }

  lemma {:induction false} ReachBound(h: State, n: nat, k: nat)
    requires Inv(h, {}) && PoolsBelow(h.pools, n)
    ensures Reach(h.t, k) <= n
  {
    if k != 0 {
      if LiveSize(h.t, k - 1) > 0 {
        Neighbours(h, {}, k - 1);
        BlockBelow(h, n, Next(h.t, k - 1));
      } else {
        hide Inv;
        ReachBound(h, n, k - 1);
      }
    }
  }

  // ---------------------------------------------------------------- a run that loses bytes

  // No block of the 100-word pool is larger than the pool.
  lemma SmallBlocks(h: State, a: nat)
    requires Inv(h, {}) && h.pools == map[FIRST_BLOCK := 100] && a in h.t
    ensures FIRST_BLOCK <= a && h.t[a].words <= 100 && (a != 106 ==> a + 1 + h.t[a].words <= 106)
  {
    hide NextLinks, PrevLinks, Coalesced, Listed, PoolInner;
    assert InPool(h.pools, a);
  }

  // So resizing one of its blocks to 8000 bytes fails.
  lemma TooLargeToMove(h: State, b: nat)
    requires Inv(h, {}) && h.pools == map[FIRST_BLOCK := 100] && Alive(h.t, b)
    ensures !RoomFor(h.t, b, 1000) && !Available(h.t, 1000)
  {
    hide Inv, MappingSearch, MappingInsert, RoomFor;
    MovesExactly(h, b, 1000);
    SmallBlocks(h, b);
    Neighbours(h, {}, b);
    SmallBlocks(h, Next(h.t, b));
    forall a | a in h.t && MappingSearch(8 * 1000).Le(ClassOf(h.t, a)) ensures false {
      SmallBlocks(h, a);
      GoodFit(8 * 1000, 8 * h.t[a].words);
    }
  }

  // What three calls in a row lose when only the last one fails.
  lemma ThreeCalls(l: Ledger, a: Call, b: Call, c: Call, n: nat)
    requires Allowed(l, a) && Fitting(a, n) && !Fails(l, a)
    requires var l1 := Book(l, a); Allowed(l1, b) && Fitting(b, n) && !Fails(l1, b)
    requires var l2 := Book(Book(l, a), b); Allowed(l2, c) && Fitting(c, n) && Fails(l2, c)
    ensures AllowedRun(l, [a, b, c], n) && Lost(l, [a, b, c], n) == LiveSize(Book(Book(l, a), b).h.t, c.b)
  {
    hide Allowed, Book, Fitting, LiveSize, Available, RoomFor;
    var l1 := Book(l, a);
    var l2 := Book(l1, b);
    assert [a, b, c][1..] == [b, c] && [b, c][1..] == [c] && [c][1..] == [];
    var l3 := Book(l2, c);
    assert AllowedRun(l3, [], n) && Lost(l3, [], n) == 0;
    assert AllowedRun(l2, [c], n) && Lost(l2, [c], n) == LiveSize(l2.h.t, c.b);
    assert AllowedRun(l1, [b, c], n) && Lost(l1, [b, c], n) == LiveSize(l2.h.t, c.b);
  }

  lemma RequestWords()
    ensures Request(24) == 3 && Request(8000) == 1000
  {
    hide AlignUp, Pow2;
    Pow2Values();
    AlignUpLeast(24, 3);
    AlignUpLeast(8000, 3);
  }

  // A run in which the counter ends up wrong.
  lemma LosingRun()
    ensures var calls := [Extend(FIRST_BLOCK, 100), Alloc(24), Resize(FIRST_BLOCK, 8000)];
            var start := Ledger(Empty(), 0, 0);
            && AllowedRun(start, calls, 200) && !NeverFails(start, calls, 200)
            && RunBook(start, calls, 200).used != LiveBytes(RunBook(start, calls, 200).h.t, 200)
  {
    hide Inv, Malloc, OnePool, Available, RoomFor, LiveBytes, AllowedRun, Lost, NeverFails, RunBook, Request;
    var start, m := Ledger(Empty(), 0, 0), Malloc(OnePool(), 3);
    FirstCalls();
    OnePoolGives(3);
    TooLargeToMove(m.h, FIRST_BLOCK);
    RequestWords();
    ThreeCalls(start, Extend(FIRST_BLOCK, 100), Alloc(24), Resize(FIRST_BLOCK, 8000), 200);
    UsedIsLive([Extend(FIRST_BLOCK, 100), Alloc(24), Resize(FIRST_BLOCK, 8000)], 200);
  }

  // A pool and a first block in it.
  lemma FirstCalls()
    ensures var start, a := Ledger(Empty(), 0, 0), Extend(FIRST_BLOCK, 100);
            && Allowed(start, a) && Book(start, a) == Ledger(OnePool(), 0, 0)
            && Allowed(Ledger(OnePool(), 0, 0), Alloc(24))
            && Book(Ledger(OnePool(), 0, 0), Alloc(24)).h == Malloc(OnePool(), 3).h
            && Malloc(OnePool(), 3).h.pools == map[FIRST_BLOCK := 100]
  {
    hide Inv, Malloc, Insert, Request, AnyRealloc, RemovePool, Free, BlockBytes, Fails;
    OnePoolRun();
    RequestWords();
    MallocPools(OnePool(), 3);
  }
}
