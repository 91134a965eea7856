// What a caller of tlsf-3.0/tlsf.c sees when it frees what it has just been
// given: the whole control structure is as before.
module Client {
  import opened Bits
  import opened SizeClass
  import opened Heap
  import opened Policy
  import opened Aligned
  import opened Live
  import opened Memory
  import opened Allocator
  import opened Identity

  // The bitmaps that go with the free lists.
  ghost predicate BitmapsFor(lists: map<Class, seq<nat>>, fl: nat, sls: seq<nat>) {
    && |sls| == FL_INDEX_COUNT && fl < Pow2(FL_INDEX_COUNT)
    && (forall f :: 0 <= f < FL_INDEX_COUNT ==> sls[f] < TWO_32 && (Bit(fl, f) <==> sls[f] != 0))
    && forall f, s :: 0 <= f < FL_INDEX_COUNT && 0 <= s < SL_INDEX_COUNT ==>
       (Bit(sls[f], s) <==> ListAt(lists, Class(f, s)) != [])
  }

  lemma BitmapsOf(heap: Tlsf)
    requires heap.Shape() && heap.Index(heap.h.lists)
    ensures BitmapsFor(heap.h.lists, heap.flBitmap, heap.slBitmap[..])
    ensures forall f, s :: 0 <= f < FL_INDEX_COUNT && 0 <= s < SL_INDEX_COUNT ==>
              heap.blocks[f, s] == HeadOf(heap.h.lists, Class(f, s))
  {
    hide Bit;
    forall f, s | 0 <= f < FL_INDEX_COUNT && 0 <= s < SL_INDEX_COUNT
      ensures heap.blocks[f, s] == HeadOf(heap.h.lists, Class(f, s))
      ensures Bit(heap.slBitmap[f], s) <==> ListAt(heap.h.lists, Class(f, s)) != []
    {
      assert heap.CellOk(heap.h.lists, f, s);
    }
  }

  // The lists leave no choice for the bitmaps.
  lemma BitmapsUnique(lists: map<Class, seq<nat>>, fl: nat, sls: seq<nat>, fl': nat, sls': seq<nat>)
    requires BitmapsFor(lists, fl, sls) && BitmapsFor(lists, fl', sls')
    ensures fl == fl' && sls == sls'
  {
    hide Bit;
    Pow2Values();
    forall f | 0 <= f < FL_INDEX_COUNT ensures sls[f] == sls'[f] {
      forall s | 0 <= s < 32 ensures Bit(sls[f], s) <==> Bit(sls'[f], s) {
        assert Bit(sls[f], s) <==> ListAt(lists, Class(f, s)) != [];
      }
      SameBits(sls[f], sls'[f], 32);
    }
    SameBits(fl, fl', FL_INDEX_COUNT);
  }

  lemma GivenWasFree(h: State, n: nat)
    requires Fits(n) && Inv(h, {}) && (n == 0 || n >= 3)
    ensures var m := Policy.Malloc(h, n);
            m.b != NULL ==> n >= 3 && !Used(h.t, m.b) && SameUsed(h.t, m.h.t, {m.b}) && Policy.Free(m.h, m.b) == h
  {
    hide Inv, SameUsed, Policy.Free;
    if n != 0 && Policy.Malloc(h, n).b != NULL {
      MallocUsed(h, n);
      MallocThenFree(h, n);
    }
  }

  // tlsf_malloc followed by tlsf_free: the same blocks, the same lists in the
  // same order, the same bitmaps and heads, and no live payload touched.
  method MallocAndFree(heap: Tlsf, size: nat)
    requires Fits(Request(size)) && heap.Valid()
    modifies heap, heap.mem, heap.slBitmap, heap.blocks
    ensures heap.Valid() && heap.h == old(heap.h)
    ensures heap.flBitmap == old(heap.flBitmap) && heap.slBitmap[..] == old(heap.slBitmap[..])
    ensures forall f, s :: 0 <= f < FL_INDEX_COUNT && 0 <= s < SL_INDEX_COUNT ==>
            heap.blocks[f, s] == old(heap.blocks[f, s])
    ensures Kept(old(heap.mem[..]), heap.mem[..], old(heap.h.t), {})
  {
    AdjustedRequest(size);
    hide Inv, Mirror, Kept, SameUsed, Tlsf.Index, BitmapsFor, AdjustRequest, Policy.Malloc, Policy.Free;
    ghost var h0, m0 := heap.h, heap.mem[..];
    ghost var fl, sls := heap.flBitmap, heap.slBitmap[..];
    BitmapsOf(heap);
    GivenWasFree(h0, Request(size));
    var p := heap.Malloc(size);
    ghost var m1, h1 := heap.mem[..], heap.h;
    heap.Free(p);
    KeptBesides(m0, m1, heap.mem[..], h0, h1.t, FromPtr(p));
    BitmapsOf(heap);
    BitmapsUnique(heap.h.lists, fl, sls, heap.flBitmap, heap.slBitmap[..]);
  }

  // The same for tlsf_memalign, whatever it splits off in front and behind.
  method MemalignAndFree(heap: Tlsf, align: nat, size: nat, ghost k: nat)
    requires k < 64 && align == Pow2(k) && 0 < align <= TWO_64
    requires AdjustRequest(size, ALIGN_SIZE) != 0 || k <= 3
    requires Fits(AlignedRequest(align, size)) && heap.Valid()
    modifies heap, heap.mem, heap.slBitmap, heap.blocks
    ensures heap.Valid() && heap.h == old(heap.h)
    ensures heap.flBitmap == old(heap.flBitmap) && heap.slBitmap[..] == old(heap.slBitmap[..])
    ensures forall f, s :: 0 <= f < FL_INDEX_COUNT && 0 <= s < SL_INDEX_COUNT ==>
            heap.blocks[f, s] == old(heap.blocks[f, s])
    ensures Kept(old(heap.mem[..]), heap.mem[..], old(heap.h.t), {})
  {
    hide Inv, Mirror, Kept, SameUsed, Tlsf.Index, BitmapsFor, AdjustRequest, AlignedRequest, Pow2, Policy.Memalign,
         Policy.Free, Multiple;
    ghost var h0, m0 := heap.h, heap.mem[..];
    ghost var fl, sls := heap.flBitmap, heap.slBitmap[..];
    BitmapsOf(heap);
    MemoryAddressable(heap.mem[..], heap.h);
    var p := heap.Memalign(align, size, k);
    ghost var m1, h1 := heap.mem[..], heap.h;
    if p != NULL {
      MemalignThenFree(h0, k, size);
      MemalignUsed(h0, k, size);
    }
    heap.Free(p);
    KeptBesides(m0, m1, heap.mem[..], h0, h1.t, FromPtr(p));
    BitmapsOf(heap);
    BitmapsUnique(heap.h.lists, fl, sls, heap.flBitmap, heap.slBitmap[..]);
  }

  // What was kept while b was handed out, and then but for b, was kept altogether.
  lemma KeptBesides(m0: Words, m1: Words, m2: Words, h0: State, t1: Tiling, b: nat)
    requires Inv(h0, {}) && Kept(m0, m1, h0.t, {}) && Kept(m1, m2, t1, {b})
    requires if b == NULL then t1 == h0.t else SameUsed(h0.t, t1, {b}) && !Used(h0.t, b)
    ensures Kept(m0, m2, h0.t, {})
  {
    hide Inv, Kept, SameUsed;
    NullUnused(h0);
    if b == NULL {
      SameUsedRefl(h0.t, b);
    }
    KeptMore(m0, m1, h0.t, {}, {b});
    KeptTrans(m0, m1, m2, h0.t, t1, {b});
    KeptWithout(m2, m0, h0.t, b);
  }

  lemma NullUnused(h: State)
    requires Inv(h, {})
    ensures !Used(h.t, NULL)
  {
    hide NextLinks, PrevLinks, Pools, Coalesced, Listed;
  }

  lemma KeptWithout(m': Words, m: Words, t: Tiling, b: nat)
    requires Kept(m, m', t, {b}) && !Used(t, b)
    ensures Kept(m, m', t, {})
  {
  }
}
