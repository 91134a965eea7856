// Where the allocator of tlsf-3.0/tlsf.c stops keeping its invariant: the exact
// conditions on a request, each of which a caller can test before the call.
module Limits {
  import opened Bits
  import opened SizeClass
  import opened Heap
  import opened Policy
  import opened Aligned
  import opened Live
  import opened Runs

  // A block that lost its whole payload while its pool stayed breaks the tiling.
  lemma ZeroBlock(h: State, x: set<nat>, h': State, b: nat)
    requires Inv(h, x) && b in h.t && h.t[b].words > 0
    requires h'.pools == h.pools && b in h'.t && h'.t[b].words == 0
    ensures !Inv(h', {})
  {
    hide NextLinks, PrevLinks, Disjoint, Coalesced, Listed;
    assert InPool(h.pools, b);
    var p :| p in h.pools && p <= b <= End(h.pools, p);
  }

  // ---------------------------------------------------------------- tlsf_realloc

  // A size of 2^32 or more adjusts to 0, and trimming to 0 leaves a block without a payload.
  lemma TrimToNothing(h: State, b: nat)
    requires Inv(h, {}) && Used(h.t, b) && h.t[b].words >= 4
    ensures var h' := TrimUsed(h, b, 0);
            h'.pools == h.pools && b in h'.t && h'.t[b].words == 0
  {
    hide Inv;
    Neighbours(h, {}, b);
    FarNeighbour(h, b);
    TrimmedAway(h, b);
  }

  lemma TrimmedAway(h: State, b: nat)
    requires b in h.t && h.t[b].words >= 4 && b < Next(h.t, b) && Next(h.t, b) in h.t &&
             Next(h.t, b) < Next(h.t, Next(h.t, b))
    ensures var h' := TrimUsed(h, b, 0);
            h'.pools == h.pools && b in h'.t && h'.t[b].words == 0
  {
    hide ClassOf, Without;
    var t1, r := Split(h.t, b, 0), b + 1;
    assert t1[b].words == 0 && t1[r].words == h.t[b].words - 1 && Next(t1, r) == Next(h.t, b);
    var h1 := h.(t := t1);
    MergedAway(h1, b, r);
    InsertTiling(MergeNext(h1, r), r);
    hide Split, MergeNext, Insert;
  }

  lemma MergedAway(h: State, b: nat, r: nat)
    requires b in h.t && b < r < Next(h.t, r) && Next(h.t, r) in h.t && Next(h.t, r) < Next(h.t, Next(h.t, r))
    ensures var h' := MergeNext(h, r); h'.pools == h.pools && b in h'.t && h'.t[b] == h.t[b]
  {
    hide ClassOf, Without;
    InsertTiling(h, Next(h.t, r));
  }

  // The block behind b, and the one behind that, come after b.
  lemma FarNeighbour(h: State, b: nat)
    requires Inv(h, {}) && b in h.t
    ensures b < Next(h.t, b) && (Next(h.t, b) in h.t ==> Next(h.t, b) < Next(h.t, Next(h.t, b)))
  {
    hide Inv;
  }

  // tlsf_realloc to a size from 2^32 on keeps the invariant if and only if the
  // block is too small to be split.
  lemma ReallocTooLarge(h: State, b: nat, size: nat)
    requires Inv(h, {}) && Used(h.t, b) && h.t[b].words > 0 && size >= BLOCK_SIZE_MAX
    ensures !MustMove(h.t, b, Request(size)) && Realloc(h, b, size).b == b
    ensures Inv(Realloc(h, b, size).h, {}) <==> h.t[b].words < 4
  {
    hide Inv, AdjustRequest, TrimUsed, Realloc, MustMove;
    ReallocToNothing(h, b, size);
    if h.t[b].words >= 4 {
      TrimToNothing(h, b);
      ZeroBlock(h, {}, TrimUsed(h, b, 0), b);
    } else {
      TrimNothing(h, b);
    }
  }

  // A pointer that tlsf_realloc returns has room for the request if and only if
  // the size is below 2^32.
  lemma ReallocRoom(h: State, b: nat, size: nat)
    requires MustMove(h.t, b, Request(size)) ==> Fits(Request(size))
    requires Inv(h, {}) && Alive(h.t, b) && size > 0
    ensures var m := Realloc(h, b, size);
            m.b != NULL ==> (8 * At(m.h.t, m.b).words >= size <==> size < BLOCK_SIZE_MAX)
  {
    hide Inv, Realloc, TrimUsed, MustMove, AlignUp;
    AdjustedRequest(size);
    if size < BLOCK_SIZE_MAX {
      ReallocKeeps(h, b, size);
    } else {
      ReallocTooLarge(h, b, size);
      ReallocToNothing(h, b, size);
      if h.t[b].words >= 4 {
        TrimToNothing(h, b);
      } else {
        TrimNothing(h, b);
      }
    }
  }

  lemma ReallocToNothing(h: State, b: nat, size: nat)
    requires size >= BLOCK_SIZE_MAX
    ensures !MustMove(h.t, b, Request(size)) && Realloc(h, b, size) == Outcome(TrimUsed(h, b, 0), b)
  {
    hide TrimUsed, MergeNext;
  }

  lemma TrimNothing(h: State, b: nat)
    requires !CanSplit(h.t, b, 0)
    ensures TrimUsed(h, b, 0) == h
  {
  }

  // ---------------------------------------------------------------- tlsf_memalign

  // For an empty request the search still looks for a block of at least six words.
  lemma EmptyRequest(k: nat, size: nat)
    requires 3 < k < 64 && AdjustRequest(size, 8) == 0
    ensures 0 < Pow2(k) <= TWO_64
    ensures AlignedRequest(Pow2(k), size) == 0 || (AlignedRequest(Pow2(k), size) >= 6 && k < 32)
  {
    hide AlignUp, Pow2;
    Pow2AtMost(k);
    Pow2Values();
    Pow2Mono(4, k);
    if Pow2(k) + 32 < BLOCK_SIZE_MAX {
      if k >= 32 {
        Pow2Mono(32, k);
      }
      AlignUpLeast(Pow2(k) + 32, k);
    }
  }

  // tlsf_memalign of such a request carves a block without a payload.
  lemma CarveNothing(h: State, b: nat)
    requires Inv(h, {b}) && b in h.t && h.t[b].free && h.t[b].words >= 4
    ensures !Inv(PrepareUsed(h, b, 0), {})
  {
    Neighbours(h, {b}, b);
    assert CanSplit(h.t, b, 0);
    var h' := PrepareUsed(h, b, 0);
    assert b in h'.t && h'.t[b].words == 0 && h'.pools == h.pools by {
      hide Inv, ClassOf;
    }
    hide PrepareUsed, Inv;
    ZeroBlock(h, {b}, h', b);
  }

  lemma MemalignEmpty(h: State, k: nat, size: nat)
    requires Inv(h, {}) && Addressable(h.t) && 3 < k < 64 && AdjustRequest(size, 8) == 0
    requires 0 < Pow2(k) <= TWO_64 && Fits(AlignedRequest(Pow2(k), size))
    ensures Memalign(h, Pow2(k), size).b != NULL ==> !Inv(Memalign(h, Pow2(k), size).h, {})
  {
    hide Inv, Pow2, AdjustRequest, AlignedRequest, LocateFree, TrimLeading, PrepareUsed, AlignGap;
    EmptyRequest(k, size);
    var w := AlignedRequest(Pow2(k), size);
    LocateEither(h, w);
    var l := LocateFree(h, w);
    if l.b != NULL {
      LocateFacts(h, w);
      LocateInv(h, w);
      PrevBelow(h, {}, l.b);
      MemalignSteps(h, Pow2(k), size, w, 0);
      SmallEnough(h, k, l.b);
      GapBounds(8 * (l.b + 2), k);
      FreeAlone(h, l.b);
      GapThenNothing(l.h, l.b, AlignGap(8 * (l.b + 2), Pow2(k)));
    }
  }

  lemma SmallEnough(h: State, k: nat, b: nat)
    requires Addressable(h.t) && b in h.t && k < 32
    ensures 8 * (b + 2) + Pow2(k) < TWO_62
  {
    Pow2Mono(k, 32);
    Pow2Values();
  }

  lemma GapThenNothing(h: State, b: nat, gap: int)
    requires Inv(h, {b}) && b in h.t && h.t[b].free && h.t[b].words >= 6 && !PrevFree(h.t, b) && h.t[b].prev < b
    requires gap == 0 || (gap >= 32 && gap % 8 == 0)
    ensures var m := if gap >= 8 then TrimLeading(h, b, gap / 8) else Outcome(h, b);
            !Inv(PrepareUsed(m.h, m.b, 0), {})
  {
    hide Inv, PrepareUsed, PrevFree;
    if gap >= 8 && CanSplit(h.t, b, gap / 8) {
      hide TrimLeading;
      TrimLeadingInv(h, b, gap / 8);
      TrimLeadingShape(h, b, gap / 8);
      var m := TrimLeading(h, b, gap / 8);
      CarveNothing(m.h, m.b);
    } else {
      CarveNothing(h, b);
    }
  }

  // A search stays in the table if and only if it is for at most 2^32 - 2^26 bytes.
  lemma SearchInside(n: nat)
    ensures n != 0 ==> (MappingSearch(8 * n).InTable() <==> Fits(n))
  {
    hide MappingInsert, Rounded;
    if 8 * n <= BLOCK_SIZE_MAX {
      SearchInTable(8 * n);
    } else {
      InsertInTable(Rounded(8 * n));
    }
  }

  // What one expects of tlsf_memalign: its search stays in the table, and the invariant holds afterwards.
  ghost predicate MemalignSound(h: State, k: nat, size: nat)
    requires 0 < Pow2(k) <= TWO_64
  {
    var w := AlignedRequest(Pow2(k), size);
    && (w != 0 ==> MappingSearch(8 * w).InTable())
    && (SearchInside(w); Inv(Memalign(h, Pow2(k), size).h, {}))
  }

  // tlsf_memalign is sound if and only if the search is small enough and the
  // request adjusts to a size, the alignment is at most 8, or no free block is
  // in a class that the search can reach.
  lemma MemalignExact(h: State, k: nat, size: nat)
    requires Inv(h, {}) && Addressable(h.t) && k < 64
    ensures 0 < Pow2(k) <= TWO_64
    ensures var w := AlignedRequest(Pow2(k), size);
            MemalignSound(h, k, size) <==>
              Fits(w) && (AdjustRequest(size, 8) != 0 || k <= 3 || !Available(h.t, w))
  {
    hide Inv, Pow2, AdjustRequest, AlignedRequest, LocateFree, Memalign, Available, MappingSearch;
    Pow2AtMost(k);
    var w := AlignedRequest(Pow2(k), size);
    SearchInside(w);
    if !Fits(w) {
      assert !MappingSearch(8 * w).InTable();
    } else if AdjustRequest(size, 8) != 0 || k <= 3 {
      MemalignInv(h, k, size);
    } else {
      EmptyRequest(k, size);
      LocateEither(h, w);
      LocateSucceeds(h, w);
      if LocateFree(h, w).b == NULL {
        MemalignNone(h, Pow2(k), size);
      } else {
        MemalignEmpty(h, k, size);
        MemalignFinds(h, Pow2(k), size);
      }
    }
  }

  lemma MemalignFinds(h: State, align: nat, size: nat)
    requires 0 < align <= TWO_64 && Fits(AlignedRequest(align, size)) &&
             LocateFree(h, AlignedRequest(align, size)).b != NULL
    ensures Memalign(h, align, size).b != NULL
  {
    hide LocateFree, PrepareUsed, AlignedRequest, AdjustRequest, AlignGap;
  }

  // ---------------------------------------------------------------- states in which this happens

  // An empty allocator with one pool of 100 words at its first address.
  ghost function OnePool(): State {
    AddPool(Empty(), FIRST_BLOCK, 100)
  }

  lemma OnePoolRun()
    ensures LegalRun(Empty(), [OpAddPool(FIRST_BLOCK, 100)])
    ensures Run(Empty(), [OpAddPool(FIRST_BLOCK, 100)]) == OnePool()
    ensures Inv(OnePool(), {}) && Addressable(OnePool().t) && OnePool().pools == map[FIRST_BLOCK := 100]
    ensures OnePool().t == map[FIRST_BLOCK := Block(100, true, 0), 106 := Block(0, false, FIRST_BLOCK)]
  {
    hide Inv, ClassOf;
    var op := OpAddPool(FIRST_BLOCK, 100);
    assert [op][1..] == [];
    assert LegalRun(AddPool(Empty(), FIRST_BLOCK, 100), []);
    assert LegalRun(Empty(), [op]);
    Reachable([op]);
    InsertTiling(PoolBlocks(Empty(), FIRST_BLOCK, 100), FIRST_BLOCK);
  }

  // The pool's one free block can serve any request of up to 96 words.
  lemma OnePoolServes(n: nat)
    requires 0 < n && 32 * 800 >= 33 * (8 * n)
    ensures Available(OnePool().t, n)
  {
    hide MappingInsert, MappingSearch, Inv, Rounded;
    OnePoolRun();
    RoundingLoss(8 * n);
    RoundedFits(8 * n, 800);
    assert MappingSearch(8 * n).Le(ClassOf(OnePool().t, FIRST_BLOCK));
  }

  // There tlsf_memalign(16, 0) breaks the invariant.
  lemma EmptyAlignedWitness()
    ensures 0 < Pow2(4) <= TWO_64
    ensures LegalRun(Empty(), [OpAddPool(FIRST_BLOCK, 100)])
    ensures !MemalignSound(Run(Empty(), [OpAddPool(FIRST_BLOCK, 100)]), 4, 0)
  {
    hide Inv, MemalignSound, Available, AlignedRequest, LegalRun, Run, OnePool, Fits;
    OnePoolRun();
    SmallRequests();
    OnePoolServes(6);
    MemalignExact(OnePool(), 4, 0);
  }

  lemma SmallRequests()
    ensures Request(32) == 4 && AdjustRequest(0, 8) == 0
    ensures 0 < Pow2(4) <= TWO_64 && AlignedRequest(Pow2(4), 0) == 6
  {
    hide AlignUp, Pow2;
    Pow2Values();
    AlignUpLeast(32, 3);
    AlignUpLeast(48, 4);
  }

  // And tlsf_memalign(16, 0xffff0000) searches past the table, whatever the state.
  lemma LargeAlignedWitness(h: State)
    ensures 0 < Pow2(4) <= TWO_64
    ensures AdjustRequest(0xFFFF_0000, 8) != 0 && !MemalignSound(h, 4, 0xFFFF_0000)
  {
    hide AlignedRequest, AdjustRequest, MappingSearch;
    LargeRequests();
    SearchInside(0x1FFF_E006);
  }

  lemma LargeRequests()
    ensures 0 < Pow2(4) <= TWO_64
    ensures AdjustRequest(0xFFFF_0000, 8) == 0xFFFF_0000 && AlignedRequest(Pow2(4), 0xFFFF_0000) == 0x1FFF_E006
  {
    hide AlignUp, Pow2;
    Pow2Values();
    AlignUpLeast(0xFFFF_0000, 3);
    AlignUpLeast(0xFFFF_0030, 4);
  }

  // A block of at least 32 bytes comes from the same pool, and resizing it to 2^32 breaks the invariant.
  lemma LargeReallocWitness()
    ensures var ops := [OpAddPool(FIRST_BLOCK, 100), OpMalloc(32)];
            && LegalRun(Empty(), ops)
            && var h := Run(Empty(), ops);
            && Alive(h.t, FIRST_BLOCK) && h.t[FIRST_BLOCK].words >= 4
            && !MustMove(h.t, FIRST_BLOCK, Request(BLOCK_SIZE_MAX))
            && !Inv(Realloc(h, FIRST_BLOCK, BLOCK_SIZE_MAX).h, {})
  {
    hide Inv, Malloc, Request, Realloc, MustMove, OnePool;
    OnePoolRun();
    OnePoolGives(4);
    SmallRequests();
    var ops := [OpAddPool(FIRST_BLOCK, 100), OpMalloc(32)];
    assert ops[1..] == [OpMalloc(32)] && [OpMalloc(32)][1..] == [];
    ReallocTooLarge(Malloc(OnePool(), 4).h, FIRST_BLOCK, BLOCK_SIZE_MAX);
  }

  // A request of n words that the pool can serve gets its first block.
  lemma OnePoolGives(n: nat)
    requires Fits(n) && n >= 3 && 32 * 800 >= 33 * (8 * n)
    ensures var m := Malloc(OnePool(), n);
            Inv(m.h, {}) && m.b == FIRST_BLOCK && Alive(m.h.t, m.b) && n <= m.h.t[m.b].words < n + 4
  {
    hide Inv, Malloc, Available, OnePool;
    OnePoolRun();
    OnePoolServes(n);
    MallocSucceeds(OnePool(), n);
    MallocUsed(OnePool(), n);
    MallocInv(OnePool(), n);
  }
}
