// The allocator of tlsf-3.0/tlsf.c over an array of 8-byte words.
//
// A block is named by the word address of its header and a pointer by the word
// address of its payload, two words further.  The control structure's null
// block is at BLOCK_NULL; address 0 is the null pointer.  The ghost field h is
// the abstract state, which every method keeps equal to what the functions of
// module Policy say.
module Allocator {
  import opened Bits
  import opened SizeClass
  import opened Heap
  import opened Policy
  import opened Aligned
  import opened Live
  import opened Runs
  import opened Memory
  import opened PoolMemory
  import opened Bytes

  // block_from_ptr; the null pointer belongs to no block.
  function FromPtr(p: nat): nat {
    if p < 2 then NULL else p - 2
  }

  // p was handed out and not freed.
  predicate LivePtr(t: Tiling, p: nat) {
    p > 2 && Used(t, p - 2) && t[p - 2].words > 0
  }

  // The words from lo to hi are the same.
  ghost predicate SameWords(m: Words, m': Words, lo: nat, hi: nat) {
    |m'| == |m| && forall k :: lo <= k <= hi && k < |m| ==> m'[k] == m[k]
  }

  // What a caller sees of a resize of p to size bytes that returned q.  On success
  // q is live and has room, if the size is one a block can have, and its first
  // min(old block size, size) bytes are those of p; on failure nothing has changed.
  // No payload word of another live block is different.
  ghost predicate Resized(m: Words, h: State, m': Words, h': State, p: nat, size: nat, q: nat) {
    && (q == NULL ==> h' == h && m' == m)
    && (q != NULL ==> LivePtr(h'.t, q) && (size < BLOCK_SIZE_MAX ==> 8 * At(h'.t, FromPtr(q)).words >= size))
    && (q != NULL && p != NULL ==> SameBytes(m, p, m', q, Min(8 * At(h.t, FromPtr(p)).words, size)))
    && Kept(m, m', h.t, {FromPtr(p)})
  }

  // Where tlsf_realloc puts a live block p: it stays if and only if there is room
  // for n words; otherwise it goes where tlsf_malloc would put n words, and
  // nowhere if and only if no free block is in a class that the search can reach.
  ghost predicate Placed(h: State, p: nat, n: nat, q: nat) {
    && (q == p <==> RoomFor(h.t, FromPtr(p), n))
    && (q != p && q != NULL ==> Fits(n) && FromPtr(q) == Policy.Malloc(h, n).b)
    && (q == NULL <==> !RoomFor(h.t, FromPtr(p), n) && !Available(h.t, n))
  }

  // ---------------------------------------------------------------- bitmaps

  lemma ClearBit(w: nat, k: nat)
    requires w < TWO_32 && k < 32
    ensures Pow2(k) < Pow2(32) == TWO_32
    ensures var v := And(w, Not(32, Pow2(k)));
            v < TWO_32 && forall j :: 0 <= j < 32 ==> (Bit(v, j) <==> Bit(w, j) && j != k)
  {
    Pow2Values();
    Pow2Mono(k, 31);
    var v := And(w, Not(32, Pow2(k)));
    forall j | 0 <= j < 32 ensures Bit(v, j) <==> Bit(w, j) && j != k {
      AndBit(w, Not(32, Pow2(k)), j);
      NotBit(32, Pow2(k), j);
      Pow2Bit(k, j);
    }
  }

  lemma SetBit(w: nat, k: nat, n: nat)
    requires w < Pow2(n) && k < n
    ensures var v := Or(w, Pow2(k));
            v < Pow2(n) && v != 0 && forall j :: 0 <= j < n ==> (Bit(v, j) <==> Bit(w, j) || j == k)
  {
    Pow2Mono(k + 1, n);
    var v := Or(w, Pow2(k));
    OrBound(w, Pow2(k), n);
    forall j | 0 <= j < n ensures Bit(v, j) <==> Bit(w, j) || j == k {
      OrBit(w, Pow2(k), j);
      Pow2Bit(k, j);
    }
    OrBit(w, Pow2(k), k);
    Pow2Bit(k, k);
    BitOfZero(k);
  }

  // Adding to a size field leaves its flags alone.
  lemma SizeGrows(w: nat, k: nat)
    requires k % 4 == 0
    ensures SizeField(w + k) == SizeField(w) + k
  {
  }

  lemma SplitSizes(size: nat, total: nat)
    requires size % 8 == 0 && total % 8 == 0 && size + BLOCK_OVERHEAD <= total
    ensures var remain := total - (size + BLOCK_OVERHEAD);
            && remain % 4 == 0 && remain == 8 * ((total - size) / 8 - 1) && size == 8 * (size / 8)
            && size / 8 + 1 + remain / 8 == total / 8
  {
    var a, b := size / 8, total / 8;
    assert size == 8 * a && total == 8 * b;
    assert total - (size + BLOCK_OVERHEAD) == 8 * (b - a - 1) && total - size == 8 * (b - a);
  }

  lemma SizeWritten(w: nat, size: nat)
    requires size % 4 == 0
    ensures SizeField(WithSize(w, size)) == size
  {
  }

  lemma AnyBitOf(w: nat, j: nat)
    ensures Bit(w, j) ==> w != 0
  {
    BitOfZero(j);
  }

  lemma MaskedWord(w: nat, k: nat)
    requires w < TWO_32 && k <= 32
    ensures var v := And(w, MaskFrom(k));
            && v < TWO_32
            && (forall i :: 0 <= i < 32 ==> (Bit(v, i) <==> Bit(w, i) && k <= i))
            && (v == 0 ==> forall i :: k <= i < 32 ==> !Bit(w, i))
  {
    var v := And(w, MaskFrom(k));
    forall i | 0 <= i < 32 ensures Bit(v, i) <==> Bit(w, i) && k <= i {
      MaskedBit(w, k, i);
    }
    Pow2Values();
    ZeroIffNoBit(v, 32);
  }

  lemma RowInTable(w: nat, f: nat)
    requires w < Pow2(FL_INDEX_COUNT) && Bit(w, f)
    ensures f < FL_INDEX_COUNT
  {
    NonZeroBit(w, f);
    if f >= FL_INDEX_COUNT {
      Pow2Mono(FL_INDEX_COUNT, f);
    }
  }

  lemma Pow2At25()
    ensures Pow2(FL_INDEX_COUNT) <= TWO_32
  {
    Pow2Mono(FL_INDEX_COUNT, 32);
    Pow2Values();
  }

  // Taking b out of a list changes its head if and only if b was the head.
  lemma HeadDropped(lists: map<Class, seq<nat>>, c: Class, b: nat, next: nat)
    requires c in lists && b in lists[c] && NoDuplicates(lists[c]) && BLOCK_NULL !in lists[c]
    requires next == NextFree(lists[c], IndexOf(lists[c], b))
    ensures var lists', first := lists[c := Without(lists[c], b)], HeadOf(lists, c) == b;
            && HeadOf(lists', c) == (if first then next else HeadOf(lists, c))
            && (ListAt(lists', c) == [] <==> first && next == BLOCK_NULL)
            && ListAt(lists, c) != []
  {
    var i := IndexOf(lists[c], b);
    assert i != 0 ==> lists[c][0] != lists[c][i];
  }

  lemma OtherList(lists: map<Class, seq<nat>>, lists': map<Class, seq<nat>>, c: Class, d: Class)
    requires c in lists' && lists' == lists[c := lists'[c]]
    ensures d != c ==> HeadOf(lists', d) == HeadOf(lists, d) && ListAt(lists', d) == ListAt(lists, d)
  {
  }

  class Tlsf {
    const mem: array<nat>
    var flBitmap: nat
    const slBitmap: array<nat>
    const blocks: array2<nat>
    ghost var h: State

    ghost predicate Shape() {
      && FIRST_BLOCK <= mem.Length && 8 * mem.Length < TWO_62 / 2 && mem != slBitmap
      && slBitmap.Length == FL_INDEX_COUNT && blocks.Length0 == FL_INDEX_COUNT && blocks.Length1 == SL_INDEX_COUNT
    }

    // One list: the head cell and the second-level bit.
    ghost predicate CellOk(lists: map<Class, seq<nat>>, fl: nat, sl: nat)
      requires slBitmap.Length == FL_INDEX_COUNT && blocks.Length0 == FL_INDEX_COUNT && blocks.Length1 == SL_INDEX_COUNT
      requires fl < FL_INDEX_COUNT && sl < SL_INDEX_COUNT
      reads slBitmap, blocks
    {
      && blocks[fl, sl] == HeadOf(lists, Class(fl, sl))
      && (Bit(slBitmap[fl], sl) <==> ListAt(lists, Class(fl, sl)) != [])
    }

    // The head cells and both bitmaps say exactly which lists are empty.
    ghost predicate Index(lists: map<Class, seq<nat>>)
      requires Shape()
      reads this`flBitmap, slBitmap, blocks
    {
      && (forall fl, sl :: 0 <= fl < FL_INDEX_COUNT && 0 <= sl < SL_INDEX_COUNT ==> CellOk(lists, fl, sl))
      && (forall fl :: 0 <= fl < FL_INDEX_COUNT ==> slBitmap[fl] < TWO_32 && (Bit(flBitmap, fl) <==> slBitmap[fl] != 0))
      && flBitmap < Pow2(FL_INDEX_COUNT)
    }

    // The state during an operation: x is in hand, and memory is right but for s and u.
    ghost predicate Holds(x: set<nat>, s: set<nat>, u: set<nat>)
      reads this, mem, slBitmap, blocks
    {
      Shape() && Inv(h, x) && Mirror(mem[..], h, s, u) && Index(h.lists)
    }

    ghost predicate Valid()
      reads this, mem, slBitmap, blocks
    {
      Holds({}, {}, {})
    }

    // -------------------------------------------------------------- block_header_t

    function BlockSize(b: nat): nat
      requires b + 1 < mem.Length
      reads mem
    {
      SizeField(mem[b + 1])
    }

    predicate BlockIsFree(b: nat)
      requires b + 1 < mem.Length
      reads mem
    {
      FreeFlag(mem[b + 1])
    }

    predicate BlockIsPrevFree(b: nat)
      requires b + 1 < mem.Length
      reads mem
    {
      PrevFlag(mem[b + 1])
    }

    function BlockNext(b: nat): nat
      requires b + 1 < mem.Length
      reads mem
    {
      b + 1 + BlockSize(b) / 8
    }

    method BlockSetSize(b: nat, size: nat)
      requires b + 1 < mem.Length
      modifies mem
      ensures mem[..] == old(mem[..])[b + 1 := WithSize(old(mem[b + 1]), size)]
    {
      mem[b + 1] := WithSize(mem[b + 1], size);
    }

    method BlockSetFree(b: nat)
      requires b + 1 < mem.Length
      modifies mem
      ensures mem[..] == old(mem[..])[b + 1 := WithFree(old(mem[b + 1]))]
    {
      mem[b + 1] := WithFree(mem[b + 1]);
    }

    method BlockSetUsed(b: nat)
      requires b + 1 < mem.Length
      modifies mem
      ensures mem[..] == old(mem[..])[b + 1 := WithUsed(old(mem[b + 1]))]
    {
      mem[b + 1] := WithUsed(mem[b + 1]);
    }

    method BlockSetPrevFree(b: nat)
      requires b + 1 < mem.Length
      modifies mem
      ensures mem[..] == old(mem[..])[b + 1 := WithPrevFree(old(mem[b + 1]))]
    {
      mem[b + 1] := WithPrevFree(mem[b + 1]);
    }

    method BlockSetPrevUsed(b: nat)
      requires b + 1 < mem.Length
      modifies mem
      ensures mem[..] == old(mem[..])[b + 1 := WithPrevUsed(old(mem[b + 1]))]
    {
      mem[b + 1] := WithPrevUsed(mem[b + 1]);
    }

    method BlockLinkNext(b: nat) returns (next: nat)
      requires b + 1 < mem.Length && BlockNext(b) < mem.Length
      modifies mem
      ensures next == old(BlockNext(b)) && mem[..] == old(mem[..])[next := b]
    {
      next := BlockNext(b);
      mem[next] := b;
    }

    method BlockMarkAsFree(b: nat)
      requires b + 1 < mem.Length && b + 1 < BlockNext(b) && BlockNext(b) + 1 < mem.Length
      modifies mem
      ensures mem[..] == MarkFreeWrites(old(mem[..]), b, old(BlockNext(b)))
    {
      hide WithPrevFree, WithFree;
      var next := BlockLinkNext(b);
      BlockSetPrevFree(next);
      BlockSetFree(b);
    }

    method BlockMarkAsUsed(b: nat)
      requires b + 1 < mem.Length && BlockNext(b) + 1 < mem.Length
      modifies mem
      ensures mem[..] == MarkUsedWrites(old(mem[..]), b, old(BlockNext(b)))
    {
      hide WithPrevUsed, WithUsed;
      var next := BlockNext(b);
      BlockSetPrevUsed(next);
      BlockSetUsed(b);
    }

    // Split off the rest behind the first size bytes; the rest is marked free.
    method BlockSplit(b: nat, size: nat) returns (rest: nat)
      requires b + 1 < mem.Length && size % 8 == 0 && size >= 8 && size + BLOCK_HEADER_SIZE <= BlockSize(b) &&
               BlockSize(b) % 8 == 0
      requires BlockNext(b) + 1 < mem.Length
      modifies mem
      ensures rest == b + 1 + size / 8
      ensures mem[..] == SplitWrites(old(mem[..]), b, size / 8, rest, (old(BlockSize(b)) - size) / 8 - 1,
              old(BlockNext(b)))
    {
      hide WithSize, SizeField, MarkFreeWrites;
      SplitSizes(size, BlockSize(b));
      rest := b + 1 + size / 8;
      var remain := BlockSize(b) - (size + BLOCK_OVERHEAD);
      SizeWritten(mem[rest + 1], remain);
      BlockSetSize(rest, remain);
      BlockSetSize(b, size);
      BlockMarkAsFree(rest);
    }

    // Absorb the free block behind prev.
    method BlockAbsorb(prev: nat, b: nat)
      requires prev + 1 < mem.Length && b + 1 < mem.Length
      requires b == BlockNext(prev) && BlockNext(b) < mem.Length && BlockSize(prev) % 8 == 0 && BlockSize(b) % 8 == 0
      modifies mem
      ensures mem[..] == AbsorbWrites(old(mem[..]), prev, b, old(BlockNext(b)))
    {
      SizeGrows(mem[prev + 1], BlockSize(b) + BLOCK_OVERHEAD);
      hide SizeField;
      mem[prev + 1] := mem[prev + 1] + (BlockSize(b) + BLOCK_OVERHEAD);
      var _ := BlockLinkNext(prev);
    }

    // -------------------------------------------------------------- free lists

    // The end of remove_free_block: when next takes the place of the head, an
    // emptied list clears its bit, and an emptied row its own.
    method DropHead(b: nat, next: nat, fl: nat, sl: nat, ghost lists: map<Class, seq<nat>>)
      requires Shape() && Index(lists) && fl < FL_INDEX_COUNT && sl < SL_INDEX_COUNT
      requires Class(fl, sl) in lists && b in lists[Class(fl, sl)] && NoDuplicates(lists[Class(fl, sl)])
      requires BLOCK_NULL !in lists[Class(fl, sl)]
      requires next == NextFree(lists[Class(fl, sl)], IndexOf(lists[Class(fl, sl)], b))
      modifies this`flBitmap, slBitmap, blocks
      ensures Index(lists[Class(fl, sl) := Without(lists[Class(fl, sl)], b)])
    {
      hide And, Not, Bit, Pow2, Without, Cut, NextFree, IndexOf, NoDuplicates, HeadOf, ListAt;
      ghost var c := Class(fl, sl);
      ghost var lists' := lists[c := Without(lists[c], b)];
      assert CellOk(lists, fl, sl);
      HeadDropped(lists, c, b, next);
      Pow2At25();
      if blocks[fl, sl] == b {
        blocks[fl, sl] := next;
        if next == BLOCK_NULL {
          ClearBit(slBitmap[fl], sl);
          slBitmap[fl] := And(slBitmap[fl], Not(32, Pow2(sl)));
          if slBitmap[fl] == 0 {
            ClearBit(flBitmap, fl);
            flBitmap := And(flBitmap, Not(32, Pow2(fl)));
          }
        }
      }
      AnyBitOf(old(slBitmap[fl]), sl);
      assert CellOk(lists', fl, sl);
      forall f, j | 0 <= f < FL_INDEX_COUNT && 0 <= j < SL_INDEX_COUNT ensures CellOk(lists', f, j) {
        assert old(CellOk(lists, f, j));
        OtherList(lists, lists', c, Class(f, j));
      }
    }

    // The first half of remove_free_block: link the neighbours of b to each other.
    method UnlinkNode(b: nat) returns (next: nat)
      requires b + 3 < mem.Length && mem[b + 2] + 3 < mem.Length && mem[b + 3] + 2 < mem.Length
      modifies mem
      ensures next == old(mem[b + 2])
      ensures mem[..] == old(mem[..])[next + 3 := old(mem[b + 3])][old(mem[b + 3]) + 2 := next]
    {
      var prev := mem[b + 3];
      next := mem[b + 2];
      mem[next + 3] := prev;
      mem[prev + 2] := next;
    }

    // remove_free_block
    method RemoveFreeBlock(b: nat, fl: nat, sl: nat, ghost x: set<nat>)
      requires Holds(x, {}, {}) && b in h.t && h.t[b].free && b !in x && ClassOf(h.t, b) == Class(fl, sl)
      requires fl < FL_INDEX_COUNT && sl < SL_INDEX_COUNT
      modifies this, mem, slBitmap, blocks
      ensures h == Remove(old(h), b) && Holds(x + {b}, {}, {})
      ensures Kept(old(mem[..]), mem[..], old(h.t), {})
    {
      hide Inv, Mirror, Kept, Index, Unlink, ClassOf, Remove;
      ghost var m0 := mem[..];
      RemoveReady(m0, h, x, b, Class(fl, sl));
      ghost var lists := h.lists;
      ghost var l := lists[Class(fl, sl)];
      var next := UnlinkNode(b);
      UnlinkIs(m0, l, IndexOf(l, b), next, m0[b + 3]);
      DropHead(b, next, fl, sl, lists);
      h := Remove(h, b);
    }

    // The first half of insert_free_block: link b in front of the head.
    method PushNode(b: nat, current: nat)
      requires b + 3 < mem.Length && current + 3 < mem.Length
      modifies mem
      ensures mem[..] == PushFront(old(mem[..]), current, b)
    {
      mem[b + 2] := current;
      mem[b + 3] := BLOCK_NULL;
      mem[current + 3] := b;
    }

    // The second half: b is the head, and its bits are set.
    method RaiseHead(b: nat, fl: nat, sl: nat, ghost lists: map<Class, seq<nat>>)
      requires Shape() && Index(lists) && fl < FL_INDEX_COUNT && sl < SL_INDEX_COUNT && Class(fl, sl) in lists
      modifies this`flBitmap, slBitmap, blocks
      ensures Index(lists[Class(fl, sl) := [b] + ListAt(lists, Class(fl, sl))])
    {
      hide Or, Bit, Pow2;
      ghost var lists' := lists[Class(fl, sl) := [b] + ListAt(lists, Class(fl, sl))];
      Pow2Values();
      SetBit(flBitmap, fl, FL_INDEX_COUNT);
      SetBit(slBitmap[fl], sl, 32);
      blocks[fl, sl] := b;
      flBitmap := Or(flBitmap, Pow2(fl));
      slBitmap[fl] := Or(slBitmap[fl], Pow2(sl));
      assert CellOk(lists', fl, sl);
      forall f, j | 0 <= f < FL_INDEX_COUNT && 0 <= j < SL_INDEX_COUNT ensures CellOk(lists', f, j) {
        assert old(CellOk(lists, f, j));
      }
    }

    // insert_free_block.  tlsf_add_pool calls it before the rest of the pool is
    // written, so it needs less of memory than the other operations.
    method InsertFreeBlock(b: nat, fl: nat, sl: nat, ghost x: set<nat>)
      requires Shape() && Inv(h, x) && Index(h.lists) && Floating(h, x, b) && ClassOf(h.t, b) == Class(fl, sl)
      requires Mirror(mem[..], h, {}, {}) || Insertable(mem[..], h, b)
      requires fl < FL_INDEX_COUNT && sl < SL_INDEX_COUNT
      modifies this, mem, slBitmap, blocks
      ensures h == Insert(old(h), b) && Inv(h, x - {b}) && Index(h.lists)
      ensures mem[..] == PushFront(old(mem[..]), HeadOf(old(h.lists), Class(fl, sl)), b)
      ensures old(Mirror(mem[..], h, {}, {})) ==>
              Mirror(mem[..], h, {}, {}) && Kept(old(mem[..]), mem[..], old(h.t), {})
    {
      hide Inv, Mirror, Kept, PushFront, ClassOf, Insert;
      ghost var m0, lists := mem[..], h.lists;
      InsertReady(m0, h, x, b, Class(fl, sl));
      assert CellOk(lists, fl, sl);
      hide Index;
      var current := blocks[fl, sl];
      PushNode(b, current);
      RaiseHead(b, fl, sl, lists);
      h := Insert(h, b);
    }

    // search_suitable_block: two bit scans find what a scan over all lists would.
    method SearchSuitable(fl0: nat, sl0: nat) returns (b: nat, fl: nat, sl: nat)
      requires Shape() && Index(h.lists) && fl0 < FL_INDEX_COUNT && sl0 < SL_INDEX_COUNT
      ensures var c := Scan(h.lists, Class(fl0, sl0));
              if c.fl >= FL_INDEX_COUNT then b == NULL
              else c == Class(fl, sl) && c.InTable() && ListAt(h.lists, c) != [] && b == ListAt(h.lists, c)[0]
    {
      hide And, Bit, Pow2, Scan, ListAt, CellOk, MaskFrom;
      fl, sl := fl0, sl0;
      var slMap := And(slBitmap[fl], MaskFrom(sl));
      MaskedWord(slBitmap[fl], sl);
      if slMap == 0 {
        var flMap := And(flBitmap, MaskFrom(fl + 1));
        Pow2At25();
        MaskedWord(flBitmap, fl + 1);
        if flMap == 0 {
          SearchFails(fl0, sl0);
          return NULL, fl, sl;
        }
        fl := Ffs(flMap);
        RowInTable(flBitmap, fl);
        slMap := slBitmap[fl];
      }
      sl := Ffs(slMap);
      b := blocks[fl, sl];
      SearchFinds(fl0, sl0, fl, sl);
    }

    lemma SearchFails(fl0: nat, sl0: nat)
      requires Shape() && Index(h.lists) && fl0 < FL_INDEX_COUNT && sl0 < SL_INDEX_COUNT
      requires forall j :: sl0 <= j < SL_INDEX_COUNT ==> !Bit(slBitmap[fl0], j)
      requires forall f :: fl0 < f < FL_INDEX_COUNT ==> !Bit(flBitmap, f)
      ensures Scan(h.lists, Class(fl0, sl0)).fl >= FL_INDEX_COUNT
    {
      var d := Scan(h.lists, Class(fl0, sl0));
      ScanSpec(h.lists, Class(fl0, sl0));
      if d.fl < FL_INDEX_COUNT {
        assert CellOk(h.lists, d.fl, d.sl);
        BitOfZero(d.sl);
      }
    }

    lemma SearchFinds(fl0: nat, sl0: nat, fl: nat, sl: nat)
      requires Shape() && Index(h.lists) && fl0 < FL_INDEX_COUNT && sl0 < SL_INDEX_COUNT
      requires fl0 <= fl < FL_INDEX_COUNT && sl < SL_INDEX_COUNT && (fl == fl0 ==> sl0 <= sl) && Bit(slBitmap[fl], sl)
      requires forall j :: (if fl == fl0 then sl0 else 0) <= j < sl ==> !Bit(slBitmap[fl], j)
      requires fl0 < fl ==> forall j :: sl0 <= j < SL_INDEX_COUNT ==> !Bit(slBitmap[fl0], j)
      requires forall f :: fl0 < f < fl ==> !Bit(flBitmap, f)
      ensures var c := Class(fl, sl);
              && Scan(h.lists, Class(fl0, sl0)) == c
              && ListAt(h.lists, c) != [] && blocks[fl, sl] == ListAt(h.lists, c)[0]
    {
      var c0, c := Class(fl0, sl0), Class(fl, sl);
      assert CellOk(h.lists, fl, sl);
      var d := Scan(h.lists, c0);
      ScanSpec(h.lists, c0);
      assert !c.Lt(d);
      if d.Lt(c) {
        assert CellOk(h.lists, d.fl, d.sl);
        BitOfZero(d.sl);
      }
    }

    // block_remove
    method BlockRemove(b: nat, ghost x: set<nat>)
      requires Holds(x, {}, {}) && b in h.t && h.t[b].free && b !in x
      modifies this, mem, slBitmap, blocks
      ensures h == Remove(old(h), b) && Holds(x + {b}, {}, {})
      ensures Kept(old(mem[..]), mem[..], old(h.t), {})
    {
      hide Inv, Mirror, Kept, Index, MappingInsert;
      HeaderRead(mem[..], h, {}, {}, b);
      WordsBound(h, x, b);
      var c := MappingInsert(BlockSize(b));
      RemoveFreeBlock(b, c.fl, c.sl, x);
    }

    // block_insert
    method BlockInsert(b: nat, ghost x: set<nat>)
      requires Shape() && Inv(h, x) && Index(h.lists) && Floating(h, x, b)
      requires Mirror(mem[..], h, {}, {}) || Insertable(mem[..], h, b)
      modifies this, mem, slBitmap, blocks
      ensures h == Insert(old(h), b) && Inv(h, x - {b}) && Index(h.lists)
      ensures mem[..] == PushFront(old(mem[..]), HeadOf(old(h.lists), ClassOf(old(h.t), b)), b)
      ensures old(Mirror(mem[..], h, {}, {})) ==>
              Mirror(mem[..], h, {}, {}) && Kept(old(mem[..]), mem[..], old(h.t), {})
    {
      hide Inv, Mirror, Kept, Index, MappingInsert, PushFront;
      SizeRead(mem[..], h, b);
      WordsBound(h, x, b);
      var c := MappingInsert(BlockSize(b));
      InsertFreeBlock(b, c.fl, c.sl, x);
    }

    // -------------------------------------------------------------- merging

    // block_merge_prev
    method BlockMergePrev(b: nat) returns (r: nat)
      requires Holds({b}, {}, {}) && b in h.t && h.t[b].free && h.t[b].words > 0
      modifies this, mem, slBitmap, blocks
      ensures Outcome(h, r) == MergePrev(old(h), b) && Holds({r}, {}, {})
      ensures Kept(old(mem[..]), mem[..], old(h.t), {})
    {
      hide Inv, Mirror, Kept, Index, Absorb, Remove, AbsorbWrites, SizeField, PrevFlag, FreeFlag, MergePrev;
      ghost var m0, h0 := mem[..], h;
      HeaderRead(m0, h, {}, {}, b);
      Neighbours(h, {b}, b);
      SameUsedSelf(h.t);
      MergePrevSelf(h, b);
      if BlockIsPrevFree(b) {
        BackLinkRead(m0, h, {}, {}, h.t[b].prev);
        var prev := mem[b];
        BlockRemove(prev, {b});
        ghost var m1 := mem[..];
        InsertTiling(h0, prev);
        assert {b} + {prev} == {prev, b};
        AbsorbReady(m1, h, {prev, b}, prev);
        assert {prev, b} - {b} == {prev};
        BlockAbsorb(prev, b);
        h := h.(t := Absorb(h.t, prev));
        KeptTrans(m0, m1, mem[..], h0.t, h0.t, {});
        r := prev;
      } else {
        KeptSelf(m0, h.t);
        r := b;
      }
    }

    // block_merge_next.  When b is in use, the block behind the merged one still
    // carries the flag of the block that is gone.
    method BlockMergeNext(b: nat, ghost x: set<nat>)
      requires Holds(x, {}, {}) && b in h.t && h.t[b].words > 0 && x <= {b} && (h.t[b].free ==> b in x)
      modifies this, mem, slBitmap, blocks
      ensures h == MergeNext(old(h), b) && Holds(x, if h.t[b].free then {} else {Next(h.t, b)}, {})
      ensures b in h.t && h.t[b].free == old(h.t[b].free)
      ensures Kept(old(mem[..]), mem[..], old(h.t), {})
    {
      hide Inv, Mirror, Kept, Index, Absorb, Remove, AbsorbWrites, SizeField, PrevFlag, FreeFlag, MergeNext;
      ghost var m0, h0 := mem[..], h;
      HeaderRead(m0, h, {}, {}, b);
      Neighbours(h, x, b);
      SameUsedSelf(h.t);
      MergeNextSelf(h, x, b);
      var next := BlockNext(b);
      HeaderRead(m0, h, {}, {}, next);
      if BlockIsFree(next) {
        BlockRemove(next, x);
        ghost var m1 := mem[..];
        InsertTiling(h0, next);
        assert x + {next} - {next} == x;
        AbsorbReady(m1, h, x + {next}, b);
        BlockAbsorb(b, next);
        h := h.(t := Absorb(h.t, b));
        KeptTrans(m0, m1, mem[..], h0.t, h0.t, {});
      } else {
        KeptSelf(m0, h.t);
        StaleMore(m0, h, if h.t[b].free then {} else {next});
      }
    }

    // -------------------------------------------------------------- trimming

    // block_can_split
    predicate BlockCanSplit(b: nat, size: nat)
      requires b + 1 < mem.Length
      reads mem
    {
      BlockSize(b) >= BLOCK_HEADER_SIZE + size
    }

    // block_trim_free
    method BlockTrimFree(b: nat, size: nat)
      requires Holds({b}, {}, {}) && b in h.t && h.t[b].free && h.t[b].words > 0 && !At(h.t, Next(h.t, b)).free
      requires size % 8 == 0 && size >= BLOCK_SIZE_MIN
      modifies this, mem, slBitmap, blocks
      ensures h == TrimFree(old(h), b, size / 8) && Holds({b}, {}, {})
      ensures Kept(old(mem[..]), mem[..], old(h.t), {})
    {
      hide Inv, Mirror, Kept, Index, Split, SplitWrites, SizeField, WithPrevFree, PrevFree, SplitDone, TrimDone,
           TrimWrites, Insert;
      ghost var m0, h0, n := mem[..], h, size / 8;
      HeaderRead(m0, h, {}, {}, b);
      if BlockCanSplit(b, size) {
        TrimFreeMem(m0, h, b, n);
        var rest := BlockSplit(b, size);
        var _ := BlockLinkNext(b);
        BlockSetPrevFree(rest);
        h := h.(t := Split(h.t, b, n));
        TrimFreeTiling(h0, b, n);
        ghost var m3, t3 := mem[..], h.t;
        BlockInsert(rest, {b} + {rest});
        assert {b} + {rest} - {rest} == {b};
        SameUsedSelf(t3);
        KeptTrans(m0, m3, mem[..], t3, t3, {});
        TrimFreeKept(m0, mem[..], h0, b, n);
      } else {
        KeptSelf(m0, h.t);
      }
    }

    // block_trim_used: the first size bytes of the payload stay as they were, and
    // everything does if the block is too small to be split.
    method BlockTrimUsed(b: nat, size: nat)
      requires b in h.t && !h.t[b].free && size % 8 == 0
      requires BLOCK_SIZE_MIN <= size <= 8 * h.t[b].words || !CanSplit(h.t, b, size / 8)
      requires Valid()
      modifies this, mem, slBitmap, blocks
      ensures h == TrimUsed(old(h), b, size / 8) && Valid()
      ensures Kept(old(mem[..]), mem[..], old(h.t), {b}) && SameWords(old(mem[..]), mem[..], b + 2, b + 1 + size / 8)
      ensures !CanSplit(old(h.t), b, size / 8) ==> mem[..] == old(mem[..])
    {
      hide Inv, Mirror, Kept, Index, Split, SplitWrites, SizeField, WithPrevUsed, PrevFree, Insert, MergeNext;
      ghost var m0, h0, n := mem[..], h, size / 8;
      HeaderRead(m0, h, {}, {}, b);
      if BlockCanSplit(b, size) {
        TrimUsedMem(m0, h, b, n);
        TrimUsedTiling(h, b, n);
        var rest := BlockSplit(b, size);
        BlockSetPrevUsed(rest);
        h := h.(t := Split(h.t, b, n));
        ghost var m1, h1 := mem[..], h;
        BlockMergeNext(rest, {rest});
        ghost var m2, h2 := mem[..], h;
        BlockInsert(rest, {rest});
        assert {rest} - {rest} == {};
        KeptTrans(m1, m2, mem[..], h1.t, h2.t, {});
        SameUsedSelf(h1.t);
        KeptTrans(m0, m1, mem[..], h1.t, h1.t, {});
        TrimUsedKept(m0, mem[..], h0, b, n);
      } else {
        KeptSelf(m0, h.t);
        KeptMore(m0, m0, h.t, {}, {b});
      }
    }

    // block_trim_free_leading: the first size bytes become a free block, if the block can be split.
    method BlockTrimFreeLeading(b: nat, size: nat) returns (remaining: nat)
      requires Holds({b}, {}, {}) && b in h.t && h.t[b].free && !PrevFree(h.t, b)
      requires size % 8 == 0 && size >= BLOCK_HEADER_SIZE
      modifies this, mem, slBitmap, blocks
      ensures Outcome(h, remaining) == TrimLeading(old(h), b, size / 8) && Holds({remaining}, {}, {})
      ensures Kept(old(mem[..]), mem[..], old(h.t), {})
    {
      hide Inv, Mirror, Kept, Index, Split, SplitWrites, SizeField, WithPrevFree, PrevFree, Insert, SameUsed;
      ghost var m0, h0, n := mem[..], h, size / 8 - 1;
      HeaderRead(m0, h, {}, {}, b);
      remaining := b;
      if BlockCanSplit(b, size) {
        LeadingMem(m0, h, b, n);
        LeadingTiling(h, b, n);
        remaining := BlockSplit(b, size - BLOCK_OVERHEAD);
        BlockSetPrevFree(remaining);
        var _ := BlockLinkNext(b);
        h := h.(t := Split(h.t, b, n));
        ghost var m3, t3 := mem[..], h.t;
        BlockInsert(b, {b} + {remaining});
        assert {b} + {remaining} - {b} == {remaining};
        SameUsedSelf(t3);
        KeptTrans(m0, m3, mem[..], t3, t3, {});
        KeptBack(m0, mem[..], h0.t, t3, {});
      } else {
        KeptSelf(m0, h.t);
      }
    }

    // -------------------------------------------------------------- the interface

    // block_locate_free
    method BlockLocateFree(size: nat) returns (b: nat)
      requires Fits(size / 8) && Valid() && size % 8 == 0 && (size == 0 || size >= BLOCK_SIZE_MIN)
      modifies this, mem, slBitmap, blocks
      ensures Outcome(h, b) == LocateFree(old(h), size / 8)
      ensures if b == NULL then Valid() && h == old(h) && mem[..] == old(mem[..]) else Holds({b}, {}, {})
      ensures Kept(old(mem[..]), mem[..], old(h.t), {})
    {
      hide Inv, Mirror, Kept, Index, MappingInsert, MappingSearch, Remove, LocateFree;
      b := NULL;
      KeptSelf(mem[..], h.t);
      LocateSteps(h, size / 8);
      if size != 0 {
        LocateFacts(h, size / 8);
        SearchInTable(size);
        var c := MappingSearch(size);
        var fl, sl;
        b, fl, sl := SearchSuitable(c.fl, c.sl);
        OffTable(h, {}, Scan(h.lists, c));
        if b != NULL {
          ListHead(h, {}, Class(fl, sl));
          RemoveFreeBlock(b, fl, sl, {});
          assert {} + {b} == {b};
        }
      }
    }

    // block_prepare_used; returns the pointer.
    method BlockPrepareUsed(b: nat, size: nat) returns (p: nat)
      requires b == NULL ==> Valid()
      requires b != NULL ==>
                 Holds({b}, {}, {}) && b in h.t && h.t[b].free && h.t[b].words > 0 && !At(h.t, Next(h.t, b)).free
      requires b != NULL ==> size % 8 == 0 && size >= BLOCK_SIZE_MIN
      modifies this, mem, slBitmap, blocks
      ensures b == NULL ==> mem[..] == old(mem[..])
      ensures Valid() && h == (if b == NULL then old(h) else PrepareUsed(old(h), b, size / 8))
      ensures p == if b == NULL then NULL else b + 2
      ensures Kept(old(mem[..]), mem[..], old(h.t), {})
    {
      hide Inv, Mirror, Kept, Index, TrimFree, MarkUsedWrites, SameUsed;
      p := NULL;
      ghost var m0, h0 := mem[..], h;
      KeptSelf(m0, h.t);
      if b != NULL {
        TrimFreeShape(h, {b}, b, size / 8);
        TrimFreeUsed(h, b, size / 8);
        BlockTrimFree(b, size);
        ghost var m1, h1 := mem[..], h;
        MarkUsedReady(m1, h, {b}, b, {});
        BlockMarkAsUsed(b);
        h := h.(t := SetFree(h.t, b, false));
        assert {b} - {b} == {};
        KeptTrans(m0, m1, mem[..], h0.t, h1.t, {});
        p := b + 2;
      }
    }

    // tlsf_malloc
    method Malloc(size: nat) returns (p: nat)
      requires Fits(Request(size)) && Valid()
      modifies this, mem, slBitmap, blocks
      ensures Valid() && Outcome(h, FromPtr(p)) == Policy.Malloc(old(h), Request(size))
      ensures p == NULL <==> !Available(old(h).t, Request(size))
      ensures p != NULL ==> FirstSuitable(old(h), Request(size), FromPtr(p))
      ensures p != NULL ==> LivePtr(h.t, p) && 8 * h.t[FromPtr(p)].words >= size
      ensures p == NULL ==> h == old(h) && mem[..] == old(mem[..])
      ensures Kept(old(mem[..]), mem[..], old(h.t), {})
    {
      AdjustedRequest(size);
      hide Inv, Mirror, Kept, Index, AdjustRequest, LocateFree, PrepareUsed, SameUsed, Available, FirstSuitable;
      ghost var m0, h0 := mem[..], h;
      var adjust := AdjustRequest(size, ALIGN_SIZE);
      MallocSucceeds(h0, adjust / 8);
      LocateSteps(h0, adjust / 8);
      var b := BlockLocateFree(adjust);
      ghost var m1 := mem[..];
      if b != NULL {
        LocatedReady(h0, adjust / 8);
      }
      p := BlockPrepareUsed(b, adjust);
      if b != NULL {
        MallocGives(h0, adjust / 8);
        GoodFitGiven(h0, adjust / 8);
      }
      SameUsedSelf(h0.t);
      KeptTrans(m0, m1, mem[..], h0.t, h0.t, {});
    }

    // tlsf_free
    method Free(p: nat)
      requires Valid() && (p == NULL || LivePtr(h.t, p))
      modifies this, mem, slBitmap, blocks
      ensures Valid() && h == (if p == NULL then old(h) else Policy.Free(old(h), FromPtr(p)))
      ensures Kept(old(mem[..]), mem[..], old(h.t), {FromPtr(p)})
    {
      hide Inv, Mirror, Kept, Index, MergeNext, MergePrev, Insert, MarkFreeWrites, SameUsed;
      ghost var m0, h0 := mem[..], h;
      KeptSelf(m0, h.t);
      KeptMore(m0, m0, h.t, {}, {FromPtr(p)});
      if p != NULL {
        var b := p - 2;
        MarkFreeReady(m0, h, b);
        BlockMarkAsFree(b);
        h := h.(t := SetFree(h.t, b, true));
        ghost var m1, h1 := mem[..], h;
        FreeMerges(h1, b);
        var r := BlockMergePrev(b);
        ghost var m2, h2 := mem[..], h;
        BlockMergeNext(r, {r});
        ghost var m3, h3 := mem[..], h;
        BlockInsert(r, {r});
        assert {r} - {r} == {};
        KeptTrans(m2, m3, mem[..], h2.t, h3.t, {});
        KeptTrans(m1, m2, mem[..], h1.t, h2.t, {});
        KeptMore(m1, mem[..], h1.t, {}, {b});
        KeptTrans(m0, m1, mem[..], h0.t, h1.t, {b});
      }
    }

    // tlsf_memalign for align = 2^k.  An empty request with an alignment above the
    // allocator's own is sound only when nothing is found.
    method Memalign(align: nat, size: nat, ghost k: nat) returns (p: nat)
      requires k < 64 && align == Pow2(k) && 0 < align <= TWO_64 && Fits(AlignedRequest(align, size))
      requires AdjustRequest(size, ALIGN_SIZE) != 0 || k <= 3 || !Available(h.t, AlignedRequest(align, size))
      requires Valid()
      modifies this, mem, slBitmap, blocks
      ensures Outcome(h, FromPtr(p)) == Policy.Memalign(old(h), align, size)
      ensures p == NULL <==> !Available(old(h).t, AlignedRequest(align, size))
      ensures p != NULL ==> AlignedPlace(old(h), AlignedRequest(align, size), align, FromPtr(p))
      ensures p != NULL ==> LivePtr(h.t, p) && 8 * h.t[FromPtr(p)].words >= size && Multiple(8 * p, align)
      ensures p == NULL ==> h == old(h) && mem[..] == old(mem[..])
      ensures Kept(old(mem[..]), mem[..], old(h.t), {})
      ensures Valid()
    {
      hide Inv, Mirror, Kept, Index, AdjustRequest, LocateFree, PrepareUsed, SameUsed, AlignUp, Pow2, Multiple,
           TrimLeading, CanSplit, AlignedRequest, Available, AlignedPlace;
      ghost var m0, h0 := mem[..], h;
      var adjust := AdjustRequest(size, ALIGN_SIZE);
      var sizeWithGap := AdjustRequest(adjust + align + BLOCK_HEADER_SIZE, align);
      var alignedSize := if align <= ALIGN_SIZE then adjust else sizeWithGap;
      AlignedSizes(k, size);
      ghost var w := AlignedRequest(align, size);
      MemoryAddressable(mem[..], h);
      MemalignEither(h0, k, size, w, adjust / 8);
      MemalignGives(h0, k, size);
      var b := BlockLocateFree(alignedSize);
      ghost var m1 := mem[..];
      KeptSelf(m1, h0.t);
      if b != NULL {
        LocatedReady(h0, w);
        var ptr := 8 * (b + 2);
        AlignUpAbove(ptr, k);
        var aligned := AlignUp(ptr, align);
        var gap := aligned as int - ptr as int;
        if gap != 0 && gap < BLOCK_HEADER_SIZE {
          var gapRemain := BLOCK_HEADER_SIZE - gap;
          var offset := if gapRemain > align then gapRemain else align;
          aligned := AlignUp(aligned + offset, align);
          gap := aligned as int - ptr as int;
        }
        assert gap == AlignGap(ptr, align);
        GapFits(h0.t, b, k, adjust / 8);
        if gap != 0 {
          LeadingReady(h, b, gap / 8);
          b := BlockTrimFreeLeading(b, gap);
        }
      }
      ghost var m2, h2 := mem[..], h;
      p := BlockPrepareUsed(b, adjust);
      SameUsedSelf(h0.t);
      KeptTrans(m0, m1, m2, h0.t, h0.t, {});
      KeptTrans(m0, m2, mem[..], h0.t, h2.t, {});
    }

    // The moving path of tlsf_realloc: allocate, copy, free.
    method ReallocMove(p: nat, size: nat) returns (q: nat)
      requires Fits(Request(size)) && LivePtr(h.t, p) && 0 < size < BLOCK_SIZE_MAX
      requires AdjustRequest(size, ALIGN_SIZE) > 8 * h.t[p - 2].words
      requires Valid()
      modifies this, mem, slBitmap, blocks
      ensures var l := Policy.Malloc(old(h), Request(size));
              Outcome(h, FromPtr(q)) == if l.b == NULL then l else Outcome(Policy.Free(l.h, p - 2), l.b)
      ensures Resized(old(mem[..]), old(h), mem[..], h, p, size, q)
      ensures Valid()
    {
      AdjustedRequest(size);
      hide Inv, Mirror, Kept, Index, AdjustRequest, Policy.Malloc, Policy.Free, SameUsed, SameBytes, FirstSuitable,
           MustMove, SizeField, Available;
      ghost var m0, h0, b, n := mem[..], h, p - 2, AdjustRequest(size, ALIGN_SIZE) / 8;
      HeaderRead(m0, h, {}, {}, b);
      var cursize := BlockSize(p - 2);
      q := Malloc(size);
      ghost var m1, h1 := mem[..], h;
      if q != NULL {
        MallocUsed(h0, n);
        MoveRoom(m1, h1, h0, b, q - 2, n);
        var minsize := Min(cursize, size);
        MemCopy(mem, q, p, minsize);
        ghost var m2 := mem[..];
        PayloadWrite(m1, m2, h1, q - 2);
        assert Mirror(mem[..], h, {}, {});
        Free(p);
        KeptBytes(m2, mem[..], h1.t, b, q - 2, minsize);
        MovedPayload(m0, m1, h0, b, minsize);
        SameBytesTrans(m0, p, m1, p, m2, q, minsize);
        SameBytesTrans(m0, p, m2, q, mem[..], q, minsize);
        MoveKept(m0, m1, m2, mem[..], h0.t, h1.t, b, q - 2);
        FreeUsed(h1, b);
        StillUsed(h1.t, h.t, q - 2, b);
      } else {
        KeptMore(m0, mem[..], h0.t, {}, {b});
      }
    }

    // Growing a block in use over the free block behind it: its words stay.
    method BlockGrow(b: nat)
      requires Valid() && Used(h.t, b) && h.t[b].words > 0
      modifies this, mem, slBitmap, blocks
      ensures Valid() && h == MergeNext(old(h), b)
      ensures SameWords(old(mem[..]), mem[..], b + 2, b + 1 + old(h.t[b].words))
      ensures Kept(old(mem[..]), mem[..], old(h.t), {b})
    {
      hide Inv, Mirror, Kept, Index, SameUsed, MergeNext, MarkUsedWrites;
      ghost var m0, h0 := mem[..], h;
      MergeNextUsed(h, b, {}, {b});
      MergeNextGrows(h, b);
      BlockMergeNext(b, {});
      ghost var m1, h1 := mem[..], h;
      MarkUsedReady(m1, h, {}, b, {Next(h.t, b)});
      BlockMarkAsUsed(b);
      h := h.(t := SetFree(h.t, b, false));
      assert h.t == h1.t;
      assert {} - {b} == {};
      KeptWords(m0, m1, mem[..], h0.t, h1.t, b);
      KeptMore(m0, m1, h0.t, {}, {b});
      KeptMore(m1, mem[..], h1.t, {}, {b});
      KeptTrans(m0, m1, mem[..], h0.t, h1.t, {b});
    }

    // Grow, if the block is smaller than the request.
    method MakeRoom(b: nat, adjust: nat)
      requires Used(h.t, b) && h.t[b].words > 0 && adjust % 8 == 0
      requires Valid()
      modifies this, mem, slBitmap, blocks
      ensures Valid() && h == Widened(old(h), b, adjust / 8)
      ensures adjust <= 8 * old(h.t[b].words) ==> mem[..] == old(mem[..])
      ensures old(mem[..]) == mem[..] || SameWords(old(mem[..]), mem[..], b + 2, b + 1 + old(h.t[b].words))
      ensures Kept(old(mem[..]), mem[..], old(h.t), {b})
    {
      hide Inv, Mirror, Kept, Index, SameWords, MergeNext, SizeField;
      HeaderRead(mem[..], h, {}, {}, b);
      if adjust > BlockSize(b) {
        BlockGrow(b);
      } else {
        KeptSelf(mem[..], h.t);
        KeptMore(mem[..], mem[..], h.t, {}, {b});
      }
    }

    // The path of tlsf_realloc that keeps the block: grow if needed, then trim.
    method ReallocInPlace(p: nat, size: nat)
      requires LivePtr(h.t, p) && size > 0 && (size < BLOCK_SIZE_MAX || h.t[p - 2].words < 4)
      requires !MustMove(h.t, p - 2, Request(size))
      requires Valid()
      modifies this, mem, slBitmap, blocks
      ensures Outcome(h, p - 2) == Policy.Realloc(old(h), p - 2, size)
      ensures Resized(old(mem[..]), old(h), mem[..], h, p, size, p)
      ensures Valid()
    {
      AdjustedRequest(size);
      hide Inv, Mirror, Kept, Index, AdjustRequest, SameUsed, SameBytes, SameWords, MustMove, MergeNext,
           Policy.Realloc, TrimUsed, Widened;
      var adjust := AdjustRequest(size, ALIGN_SIZE);
      ghost var m0, h0, n := mem[..], h, adjust / 8;
      var b := p - 2;
      if size < BLOCK_SIZE_MAX {
        InPlaceStart(m0, h0, b, size, n);
      } else {
        TinyStart(h0, b, size);
      }
      MakeRoom(b, adjust);
      ghost var m2, h2 := mem[..], h;
      BlockTrimUsed(b, adjust);
      if size < BLOCK_SIZE_MAX {
        InPlaceEnd(m0, m2, mem[..], h0, h2, b, size, n);
      } else {
        LiveRoom(m0, h0, b);
        SameBytesSelf(m0, p, 8 * h0.t[b].words);
        KeptSelf(m0, h0.t);
        KeptMore(m0, m0, h0.t, {}, {b});
      }
    }

    // tlsf_realloc.  A size of 2^32 or more is sound only for a block too small to be split.
    method Realloc(p: nat, size: nat) returns (q: nat)
      requires p == NULL || LivePtr(h.t, p)
      requires p != NULL ==> size < BLOCK_SIZE_MAX || h.t[p - 2].words < 4
      requires p == NULL || MustMove(h.t, p - 2, Request(size)) ==> Fits(Request(size))
      requires Valid()
      modifies this, mem, slBitmap, blocks
      ensures p == NULL ==> Outcome(h, FromPtr(q)) == Policy.Malloc(old(h), Request(size))
      ensures p != NULL && size == 0 ==> q == NULL && h == Policy.Free(old(h), p - 2)
      ensures p != NULL && size != 0 ==> Outcome(h, FromPtr(q)) == Policy.Realloc(old(h), p - 2, size)
      ensures p != NULL && size != 0 ==> Placed(old(h), p, Request(size), q)
      ensures if p != NULL && size == 0 then Kept(old(mem[..]), mem[..], old(h.t), {p - 2})
              else Resized(old(mem[..]), old(h), mem[..], h, p, size, q)
      ensures Valid()
    {
      hide Inv, Mirror, Kept, Index, AdjustRequest, SameBytes, Policy.Malloc, Policy.Free, FirstSuitable, Available;
      q := NULL;
      if p != NULL && size == 0 {
        Free(p);
      } else if p == NULL {
        q := Malloc(size);
        KeptMore(old(mem[..]), mem[..], old(h.t), {}, {NULL});
      } else {
        var b := p - 2;
        ReallocReads(mem[..], h, b);
        AdjustedRequest(size);
        var next := BlockNext(b);
        var cursize := BlockSize(b);
        var combined := cursize + BlockSize(next) + BLOCK_OVERHEAD;
        var adjust := AdjustRequest(size, ALIGN_SIZE);
        ReallocPlaced(h, b, size);
        if adjust > cursize && (!BlockIsFree(next) || adjust > combined) {
          q := ReallocMove(p, size);
        } else {
          ReallocInPlace(p, size);
          q := p;
        }
      }
    }

    // -------------------------------------------------------------- pools

    // The body of tlsf_add_pool once its tests have passed: the main block is
    // listed before the sentinel behind it is written.
    method PlacePool(b: nat, poolBytes: nat)
      requires Valid() && poolBytes % 8 == 0 && NewPool(mem[..], h, b, poolBytes / 8)
      modifies this, mem, slBitmap, blocks
      ensures Valid() && h == Policy.AddPool(old(h), b, poolBytes / 8)
      ensures Kept(old(mem[..]), mem[..], old(h.t), {})
    {
      hide Inv, Mirror, Kept, Index, PushFront, Insert, ClassOf, Floating, Insertable, NewPool, WithSize, WithFree,
           WithPrevUsed, WithUsed, WithPrevFree, SizeField;
      ghost var m0, h0, n := mem[..], h, poolBytes / 8;
      AddPoolReady(m0, h, b, n);
      BlockSetSize(b, poolBytes);
      BlockSetFree(b);
      BlockSetPrevUsed(b);
      assert mem[..] == m0[b + 1 := PoolHeader(m0[b + 1], n)];
      h := PoolBlocks(h, b, n);
      BlockInsert(b, {b});
      assert {b} - {b} == {};
      ghost var m2 := mem[..];
      AddPoolListed(m0, m2, h0, b, n);
      var next := BlockLinkNext(b);
      BlockSetSize(next, 0);
      BlockSetUsed(next);
      BlockSetPrevFree(next);
      assert mem[..] == m2[next := b][next + 1 := SentinelHeader(m2[next + 1])];
    }

    // tlsf_add_pool.  addr is the byte address of the memory.  The memory must
    // lie in mem and outside every pool, and its one block must be below 2^32
    // bytes: the size test lets exactly 2^32 through, which has no list.
    method AddPool(addr: nat, bytes: nat) returns (pool: nat)
      requires Valid() && bytes < TWO_64
      requires PoolAccepted(addr, bytes) ==>
                 && addr >= 8 && PoolBytes(bytes) < BLOCK_SIZE_MAX
                 && addr / 8 + PoolBytes(bytes) / 8 + 1 < mem.Length
                 && Apart(h.pools, addr / 8 - 1, PoolBytes(bytes) / 8)
      modifies this, mem, slBitmap, blocks
      ensures Valid()
      ensures pool == if addr % 8 == 0 && 40 <= bytes < 0x1_0000_0018 then addr else NULL
      ensures h == if pool != NULL then Policy.AddPool(old(h), addr / 8 - 1, (bytes - 16) / 8) else old(h)
      ensures Kept(old(mem[..]), mem[..], old(h.t), {})
    {
      hide Inv, Mirror, Kept, Index, PushFront, Insert, ClassOf;
      KeptSelf(mem[..], h.t);
      PoolAcceptedExactly(addr, bytes);
      var poolBytes := PoolBytes(bytes);
      if addr % ALIGN_SIZE != 0 {
        return NULL;
      }
      if poolBytes < BLOCK_SIZE_MIN || poolBytes > BLOCK_SIZE_MAX {
        return NULL;
      }
      PoolBytesAligned(bytes);
      pool := addr;
      PlacePool(addr / 8 - 1, poolBytes);
    }

    // tlsf_remove_pool; pool is the byte address of a pool that its assertions accept.
    method RemovePool(pool: nat)
      requires Valid() && pool >= 8 && pool % 8 == 0 && pool / 8 - 1 in h.pools
      requires At(h.t, pool / 8 - 1).free && At(h.t, Next(h.t, pool / 8 - 1)).words == 0
      modifies this, mem, slBitmap, blocks
      ensures Valid() && h == Policy.RemovePool(old(h), pool / 8 - 1)
      ensures Kept(old(mem[..]), mem[..], old(h.t), {})
    {
      hide Inv, Mirror, Kept, Index, MappingInsert, Policy.RemovePool, Remove;
      var b := pool / 8 - 1;
      ghost var h0 := h;
      StartOfPool(h, b);
      HeaderRead(mem[..], h, {}, {}, b);
      WordsBound(h, {}, b);
      var c := MappingInsert(BlockSize(b));
      RemoveFreeBlock(b, c.fl, c.sl, {});
      assert {} + {b} - {b} == {};
      RemovedMirror(mem[..], h0, b);
      h := Policy.RemovePool(h0, b);
    }

    // control_construct over fresh memory of the given number of words, whose contents are arbitrary.
    constructor (words: nat)
      requires FIRST_BLOCK <= words && 8 * words < TWO_62 / 2
      ensures Valid() && h == Empty() && mem.Length == words && fresh(mem) && fresh(slBitmap) && fresh(blocks)
    {
      mem := new nat[words];
      slBitmap := new nat[FL_INDEX_COUNT];
      blocks := new nat[FL_INDEX_COUNT, SL_INDEX_COUNT];
      flBitmap := 0;
      h := Empty();
      new;
      mem[BLOCK_NULL + 2] := BLOCK_NULL;
      mem[BLOCK_NULL + 3] := BLOCK_NULL;
      for i := 0 to FL_INDEX_COUNT
        invariant forall f :: 0 <= f < i ==> slBitmap[f] == 0
        invariant forall f, j :: 0 <= f < i && 0 <= j < SL_INDEX_COUNT ==> blocks[f, j] == BLOCK_NULL
        invariant flBitmap == 0 && h == Empty()
      {
        slBitmap[i] := 0;
        for j := 0 to SL_INDEX_COUNT
          invariant forall f :: 0 <= f <= i ==> slBitmap[f] == 0
          invariant forall f, k :: 0 <= f < i && 0 <= k < SL_INDEX_COUNT ==> blocks[f, k] == BLOCK_NULL
          invariant forall k :: 0 <= k < j ==> blocks[i, k] == BLOCK_NULL
          invariant flBitmap == 0 && h == Empty()
        {
          blocks[i, j] := BLOCK_NULL;
        }
      }
      EmptyInv();
      hide Inv;
      EmptyBits();
      assert forall f, j :: 0 <= f < FL_INDEX_COUNT && 0 <= j < SL_INDEX_COUNT ==> CellOk(h.lists, f, j);
      EmptyMirror(mem[..]);
    }

    // -------------------------------------------------------------- integrity

    // What tlsf_check insists on for a block of the list (i, j).
    predicate BlockGood(b: nat, i: nat, j: nat)
      requires b + 1 < mem.Length && BlockNext(b) + 1 < mem.Length
      reads mem
    {
      && BlockIsFree(b) && !BlockIsPrevFree(b) && !BlockIsFree(BlockNext(b)) && BlockIsPrevFree(BlockNext(b))
      && BlockSize(b) >= BLOCK_SIZE_MIN && MappingInsert(BlockSize(b)) == Class(i, j)
    }

    // The blocks that a loop along the next links visits from head on.
    ghost predicate Chain(l: seq<nat>, head: nat)
      reads mem
    {
      && head == (if l == [] then BLOCK_NULL else l[0])
      && forall k :: 0 <= k < |l| ==> ChainAt(l, k)
    }

    ghost predicate ChainAt(l: seq<nat>, k: nat)
      requires k < |l|
      reads mem
    {
      l[k] != BLOCK_NULL && l[k] + 2 < mem.Length && BlockNext(l[k]) + 1 < mem.Length && mem[l[k] + 2] == NextFree(l, k)
    }

    // What tlsf_check insists on for one list.
    ghost predicate CellGood(i: nat, j: nat, l: seq<nat>)
      requires Shape() && i < FL_INDEX_COUNT && j < SL_INDEX_COUNT && Chain(l, blocks[i, j])
      reads this, mem, slBitmap, blocks
    {
      && (Bit(slBitmap[i], j) ==> Bit(flBitmap, i))
      && (Bit(slBitmap[i], j) <==> l != [])
      && forall k :: 0 <= k < |l| ==> ChainAt(l, k) && BlockGood(l[k], i, j)
    }

    ghost predicate Chains(ls: map<Class, seq<nat>>)
      requires Shape()
      reads this, mem, slBitmap, blocks
    {
      forall i, j :: 0 <= i < FL_INDEX_COUNT && 0 <= j < SL_INDEX_COUNT ==> Chain(ListAt(ls, Class(i, j)), blocks[i, j])
    }

    // tlsf_check, on whatever lists there are: it returns 0 if and only if all it insists on holds.
    method Check(ghost ls: map<Class, seq<nat>>) returns (status: int)
      requires Shape() && Chains(ls)
      ensures status == 0 <==>
              forall i, j :: 0 <= i < FL_INDEX_COUNT && 0 <= j < SL_INDEX_COUNT ==>
                  CellGood(i, j, ListAt(ls, Class(i, j)))
    {
      hide CellGood, Chain;
      status := 0;
      for i := 0 to FL_INDEX_COUNT
        invariant status <= 0
        invariant status == 0 <==> forall f, s :: 0 <= f < i && 0 <= s < SL_INDEX_COUNT ==>
                  CellGood(f, s, ListAt(ls, Class(f, s)))
      {
        ghost var before := status;
        for j := 0 to SL_INDEX_COUNT
          invariant status <= before
          invariant status == before <==> forall s :: 0 <= s < j ==> CellGood(i, s, ListAt(ls, Class(i, s)))
        {
          var c := CheckList(i, j, ListAt(ls, Class(i, j)));
          status := status + c;
        }
      }
    }

    // One list of tlsf_check.
    method CheckList(i: nat, j: nat, ghost l: seq<nat>) returns (status: int)
      requires Shape() && i < FL_INDEX_COUNT && j < SL_INDEX_COUNT && Chain(l, blocks[i, j])
      ensures status <= 0 && (status == 0 <==> CellGood(i, j, l))
    {
      hide MappingInsert, And, Bit, SizeField, FreeFlag, PrevFlag, NextFree;
      status := 0;
      MaskBit(flBitmap, i);
      MaskBit(slBitmap[i], j);
      AnyBitOf(slBitmap[i], j);
      var flMap := And(flBitmap, Pow2(i));
      var slList := slBitmap[i];
      var slMap := And(slList, Pow2(j));
      var block := blocks[i, j];
      forall n | 0 <= n < |l| ensures l[n] != BLOCK_NULL {
        assert ChainAt(l, n);
      }
      if flMap == 0 {
        if slMap != 0 { status := status - 1; }
      }
      if slMap == 0 {
        if block != BLOCK_NULL { status := status - 1; }
        return;
      }
      if slList == 0 { status := status - 1; }
      if block == BLOCK_NULL { status := status - 1; }
      ghost var before, k := status, 0;
      while block != BLOCK_NULL
        invariant 0 <= k <= |l| && block == if k < |l| then l[k] else BLOCK_NULL
        invariant status <= before
        invariant status == before <==> forall n :: 0 <= n < k ==> ChainAt(l, n) && BlockGood(l[n], i, j)
        decreases |l| - k
      {
        assert ChainAt(l, k);
        ChainNext(l, k);
        var c := CheckBlock(block, i, j);
        status := status + c;
        block := mem[block + 2];
        k := k + 1;
      }
    }

    lemma ChainNext(l: seq<nat>, k: nat)
      requires k < |l| && Chain(l, l[0])
      ensures NextFree(l, k) == if k + 1 < |l| then l[k + 1] else BLOCK_NULL
    {
    }

    // One block of tlsf_check.
    method CheckBlock(block: nat, i: nat, j: nat) returns (status: int)
      requires block + 1 < mem.Length && BlockNext(block) + 1 < mem.Length
      ensures status <= 0 && (status == 0 <==> BlockGood(block, i, j))
    {
      hide MappingInsert, SizeField, FreeFlag, PrevFlag;
      status := 0;
      if !BlockIsFree(block) { status := status - 1; }
      if BlockIsPrevFree(block) { status := status - 1; }
      if BlockIsFree(BlockNext(block)) { status := status - 1; }
      if !BlockIsPrevFree(BlockNext(block)) { status := status - 1; }
      if BlockSize(block) < BLOCK_SIZE_MIN { status := status - 1; }
      if MappingInsert(BlockSize(block)) != Class(i, j) { status := status - 1; }
    }

    // In a valid state there is nothing to insist on, so tlsf_check returns 0.
    lemma ValidChecks()
      requires Valid()
      ensures Chains(h.lists)
      ensures forall i, j :: 0 <= i < FL_INDEX_COUNT && 0 <= j < SL_INDEX_COUNT ==>
              CellGood(i, j, ListAt(h.lists, Class(i, j)))
    {
      hide Inv, Mirror, CellGood, Chain;
      forall i, j | 0 <= i < FL_INDEX_COUNT && 0 <= j < SL_INDEX_COUNT
        ensures Chain(ListAt(h.lists, Class(i, j)), blocks[i, j]) && CellGood(i, j, ListAt(h.lists, Class(i, j)))
      {
        ValidCell(i, j);
      }
    }

    lemma ValidCell(i: nat, j: nat)
      requires Valid() && i < FL_INDEX_COUNT && j < SL_INDEX_COUNT
      ensures Chain(ListAt(h.lists, Class(i, j)), blocks[i, j]) && CellGood(i, j, ListAt(h.lists, Class(i, j)))
    {
      hide Inv, Mirror, Bit, MappingInsert, SizeField, FreeFlag, PrevFlag, NextFree;
      var c := Class(i, j);
      ClassListed(h, {}, c);
      var l := h.lists[c];
      assert CellOk(h.lists, i, j);
      BitOfZero(j);
      forall k | 0 <= k < |l| ensures ChainAt(l, k) && BlockGood(l[k], i, j) {
        CheckFacts(mem[..], h, c, k);
      }
    }

    // What a walker sees of the blocks w.
    ghost function Seen(w: seq<nat>): (v: seq<Visit>)
      reads mem
      ensures |v| == |w|
    {
      seq(|w|, k requires 0 <= k < |w| reads mem => SeenAt(w[k]))
    }

    ghost function SeenAt(b: nat): Visit
      reads mem
    {
      if b + 1 < mem.Length then Visit(8 * (b + 2), BlockSize(b), !BlockIsFree(b)) else Visit(0, 0, false)
    }

    // The blocks from b on, up to the first of size 0, are w.
    ghost predicate Trail(b: nat, w: seq<nat>)
      reads mem
      decreases |w|
    {
      && b != NULL && b + 1 < mem.Length
      && if BlockSize(b) == 0 then w == [] else w != [] && w[0] == b && Trail(BlockNext(b), w[1..])
    }

    // tlsf_walk_pool: the walker is called for the blocks of the trail, in order.
    method WalkPool(pool: nat, ghost w: seq<nat>) returns (visited: seq<Visit>)
      requires pool >= 8 && pool % 8 == 0 && Trail(pool / 8 - 1, w)
      ensures visited == Seen(w)
    {
      hide SizeField, FreeFlag;
      var block: nat := pool / 8 - 1;
      visited := [];
      ghost var k := 0;
      assert w[0..] == w;
      while block != NULL && BlockSize(block) != 0
        invariant 0 <= k <= |w| && Trail(block, w[k..]) && block + 1 < mem.Length
        invariant visited == Seen(w)[..k]
        decreases |w| - k
      {
        assert w[k..][0] == w[k] && w[k..][1..] == w[k + 1..];
        visited := visited + [Visit(8 * (block + 2), BlockSize(block), !BlockIsFree(block))];
        block := BlockNext(block);
        k := k + 1;
      }
    }

    // What integrity_walker insists on: the flag in the k-th block agrees with the block before it.
    ghost predicate FlagAgrees(w: seq<nat>, k: nat)
      requires k < |w|
      reads mem
    {
      w[k] + 1 < mem.Length && (BlockIsPrevFree(w[k]) <==> k > 0 && !SeenAt(w[k - 1]).used)
    }

    // tlsf_check_pool returns 0 if and only if every flag agrees.
    method CheckPool(pool: nat, ghost w: seq<nat>) returns (status: int)
      requires pool >= 8 && pool % 8 == 0 && Trail(pool / 8 - 1, w)
      ensures status == 0 <==> forall k :: 0 <= k < |w| ==> FlagAgrees(w, k)
    {
      hide SizeField, FreeFlag, PrevFlag;
      var visited := WalkPool(pool, w);
      var prevFree := false;
      status := 0;
      for i := 0 to |visited|
        invariant status <= 0
        invariant prevFree == (i > 0 && !SeenAt(w[i - 1]).used)
        invariant status == 0 <==> forall k :: 0 <= k < i ==> FlagAgrees(w, k)
      {
        TrailInside(pool / 8 - 1, w, i);
        var block: nat := visited[i].ptr / 8 - 2;
        assert block == w[i];
        assert FlagAgrees(w, i) <==> (prevFree <==> BlockIsPrevFree(block));
        if prevFree != BlockIsPrevFree(block) { status := status - 1; }
        if visited[i].size != BlockSize(block) { status := status - 1; }
        prevFree := BlockIsFree(block);
      }
    }

    lemma {:induction false} TrailInside(b: nat, w: seq<nat>, k: nat)
      requires Trail(b, w) && k < |w|
      ensures w[k] + 1 < mem.Length
      decreases |w|
    {
      if k > 0 {
        TrailInside(BlockNext(b), w[1..], k - 1);
      }
    }

    // In a valid state the trail is the abstract walk of the pool, the walker
    // sees what the state says, and every flag agrees: tlsf_check_pool returns 0.
    lemma ValidPool(p: nat)
      requires Valid() && p in h.pools
      ensures PoolWalkable(h, p)
      ensures var w := Walk(h.t, p, End(h.pools, p));
              && Trail(p, w) && Seen(w) == PoolVisits(h, p)
              && forall k :: 0 <= k < |w| ==> FlagAgrees(w, k)
    {
      hide Inv, Mirror, Geometry, SizeField, FreeFlag, PrevFlag;
      PoolWalks(h, p);
      StartHasNoPrev(h, p);
      var e := End(h.pools, p);
      var w := Walk(h.t, p, e);
      ValidTrail(p, e);
      forall k | 0 <= k < |w| ensures FlagAgrees(w, k) && Seen(w)[k] == PoolVisits(h, p)[k] {
        WalkLinks(h.t, p, e, k);
        HeaderRead(mem[..], h, {}, {}, w[k]);
        if k > 0 {
          WalkLinks(h.t, p, e, k - 1);
          HeaderRead(mem[..], h, {}, {}, w[k - 1]);
        }
      }
    }

    lemma {:induction false} ValidTrail(a: nat, e: nat)
      requires Mirror(mem[..], h, {}, {})
      requires Geometry(h.t) && a in h.t && e in h.t && a <= e && h.t[e].words == 0 && a != NULL
      ensures Trail(a, Walk(h.t, a, e))
      decreases e - a
    {
      hide Mirror, SizeField;
      HeaderRead(mem[..], h, {}, {}, a);
      if h.t[a].words != 0 {
        WalkStep(h.t, a, e);
        ValidTrail(Next(h.t, a), e);
        assert Walk(h.t, a, e)[1..] == Walk(h.t, Next(h.t, a), e);
      }
    }

    // tlsf_block_size
    method UsableSize(p: nat) returns (size: nat)
      requires Valid() && (p == NULL || LivePtr(h.t, p))
      ensures size == if p == NULL then 0 else 8 * At(h.t, p - 2).words
    {
      hide Inv, Mirror, Index;
      size := 0;
      if p != NULL {
        HeaderRead(mem[..], h, {}, {}, p - 2);
        size := BlockSize(p - 2);
      }
    }
  }

  // One call of a walker: pointer, size, in use.
  datatype Visit = Visit(ptr: nat, size: nat, used: bool)

  function Visits(t: Tiling, w: seq<nat>): seq<Visit> {
    seq(|w|, i requires 0 <= i < |w| => Visit(8 * (w[i] + 2), 8 * At(t, w[i]).words, !At(t, w[i]).free))
  }

  // What Walk asks of a pool.
  ghost predicate PoolWalkable(h: State, p: nat) {
    && Geometry(h.t) && p in h.pools && p in h.t && End(h.pools, p) in h.t
    && NULL < p <= End(h.pools, p) && h.t[End(h.pools, p)].words == 0
  }

  ghost function PoolVisits(h: State, p: nat): seq<Visit>
    requires PoolWalkable(h, p)
  {
    Visits(h.t, Walk(h.t, p, End(h.pools, p)))
  }

  lemma PoolWalks(h: State, p: nat)
    requires Inv(h, {}) && p in h.pools
    ensures PoolWalkable(h, p)
  {
    GeometryOf(h, {});
    PoolConserved(h, {}, p);
  }

  lemma WalkStep(t: Tiling, a: nat, e: nat)
    requires Geometry(t) && a in t && e in t && a <= e && t[e].words == 0 && t[a].words > 0
    ensures Next(t, a) in t && a < Next(t, a) <= e && Walk(t, a, e) == [a] + Walk(t, Next(t, a), e)
  {
    assert a + 1 + t[a].words <= e;
  }

  lemma TrimFreeMem(m: Words, h: State, b: nat, n: nat)
    requires Inv(h, {b}) && Mirror(m, h, {}, {}) && b in h.t && h.t[b].free && n >= 3 && CanSplit(h.t, b, n)
    ensures TrimSteps(m, h, b, n)
  {
    hide Inv, Mirror, Kept, Split, SplitWrites, SizeField;
    TrimFreeReady(m, h, {b}, b, n);
    SplitReady(m, h, {b}, b, n);
  }

  ghost predicate TrimSteps(m: Words, h: State, b: nat, n: nat) {
    var r, e := b + 1 + n, Next(h.t, b);
    && b in h.t && CanSplit(h.t, b, n)
    && b + 1 < |m| && r + 1 < |m| && e + 1 < |m|
    && SizeField(m[b + 1]) == 8 * h.t[b].words && b + 1 + SizeField(m[b + 1]) / 8 == e
    && var m1 := SplitWrites(m, b, n, r, h.t[b].words - n - 1, e);
    && b + 1 + SizeField(m1[b + 1]) / 8 == r
    && var m2 := m1[r := b];
    && var m3 := m2[r + 1 := WithPrevFree(m2[r + 1])];
    && Mirror(m3, h.(t := Split(h.t, b, n)), {}, {}) && Kept(m, m3, Split(h.t, b, n), {})
  }

  lemma TrimFreeTiling(h: State, b: nat, n: nat)
    requires Inv(h, {b}) && b in h.t && h.t[b].free && n >= 3 && CanSplit(h.t, b, n) && !At(h.t, Next(h.t, b)).free
    ensures var r, h' := b + 1 + n, h.(t := Split(h.t, b, n));
            Inv(h', {b} + {r}) && Floating(h', {b} + {r}, r)
  {
    hide Inv, Split;
    SplitTiling(h, {b}, b, n);
  }

  lemma TrimFreeKept(m: Words, m': Words, h: State, b: nat, n: nat)
    requires Inv(h, {b}) && b in h.t && h.t[b].free && h.t[b].words > 0 && n >= 3 && CanSplit(h.t, b, n)
    requires Kept(m, m', Split(h.t, b, n), {})
    ensures Kept(m, m', h.t, {})
  {
    hide Inv, Kept, SameUsed, Insert;
    InsertTiling(h.(t := Split(h.t, b, n)), b + 1 + n);
    TrimFreeUsed(h, b, n);
    KeptBack(m, m', h.t, Split(h.t, b, n), {});
  }

  lemma TrimUsedMem(m: Words, h: State, b: nat, n: nat)
    requires Inv(h, {}) && Mirror(m, h, {}, {}) && b in h.t && !h.t[b].free && n >= 3 && CanSplit(h.t, b, n)
    ensures TrimUsedSteps(m, h, b, n)
  {
    hide Inv, Mirror, Kept, Split, SplitWrites, SizeField;
    SplitReady(m, h, {}, b, n);
    SplitTiling(h, {}, b, n);
    var r, e, h' := b + 1 + n, Next(h.t, b), h.(t := Split(h.t, b, n));
    var m1 := SplitWrites(m, b, n, r, h.t[b].words - n - 1, e);
    FlagMirror(m1, h', {} + {r}, r, {r}, {b});
    var m2 := m1[r + 1 := WithPrevUsed(m1[r + 1])];
    UsedNoLink(m2, h', {}, b);
    SameUsedSelf(h'.t);
    KeptTrans(m, m1, m2, h'.t, h'.t, {});
  }

  ghost predicate TrimUsedSteps(m: Words, h: State, b: nat, n: nat) {
    var r, e := b + 1 + n, Next(h.t, b);
    && b in h.t && CanSplit(h.t, b, n)
    && b + 1 < |m| && r + 1 < |m| && e + 1 < |m|
    && SizeField(m[b + 1]) == 8 * h.t[b].words && b + 1 + SizeField(m[b + 1]) / 8 == e
    && var m1 := SplitWrites(m, b, n, r, h.t[b].words - n - 1, e);
    && var m2 := m1[r + 1 := WithPrevUsed(m1[r + 1])];
    && Mirror(m2, h.(t := Split(h.t, b, n)), {}, {}) && Kept(m, m2, Split(h.t, b, n), {})
  }

  lemma UsedNoLink(m: Words, h: State, s: set<nat>, b: nat)
    requires Mirror(m, h, s, {b}) && b in h.t && !h.t[b].free
    ensures Mirror(m, h, s, {})
  {
    hide Headers, Links;
  }

  // The rest of a block in use, before and after it merges forwards.
  lemma TrimUsedTiling(h: State, b: nat, n: nat)
    requires Inv(h, {}) && b in h.t && !h.t[b].free && n >= 3 && CanSplit(h.t, b, n)
    ensures var r, h' := b + 1 + n, h.(t := Split(h.t, b, n));
            && Inv(h', {r}) && r in h'.t && h'.t[r].free && h'.t[r].words > 0
            && var h2 := MergeNext(h', r);
            && (Inv(h2, {r}) ==> Floating(h2, {r}, r)) && SameUsed(h'.t, h2.t, {})
  {
    hide Inv, Split, SameUsed;
    SplitTiling(h, {}, b, n);
    var r, h' := b + 1 + n, h.(t := Split(h.t, b, n));
    assert {} + {r} == {r};
    Neighbours(h', {r}, r);
    MergeNextDone(h', r, {r});
    MergeNextUsed(h', r, {r}, {});
    PrevBelow(h', {r}, r);
    MergeNextShape(h', r);
  }

  lemma TrimUsedKept(m: Words, m': Words, h: State, b: nat, n: nat)
    requires Inv(h, {}) && b in h.t && !h.t[b].free && n >= 3 && CanSplit(h.t, b, n)
    requires Kept(m, m', Split(h.t, b, n), {})
    requires b + 1 + n < |m|
    ensures Kept(m, m', h.t, {b}) && SameWords(m, m', b + 2, b + 1 + n)
  {
    hide Inv, SameUsed;
    SplitInUse(h, b, n);
    KeptMore(m, m', Split(h.t, b, n), {}, {b});
    KeptBack(m, m', h.t, Split(h.t, b, n), {b});
    assert Used(Split(h.t, b, n), b);
    hide Split;
  }

  lemma LeadingMem(m: Words, h: State, b: nat, n: nat)
    requires Inv(h, {b}) && Mirror(m, h, {}, {}) && b in h.t && h.t[b].free && n >= 3 && CanSplit(h.t, b, n)
    ensures LeadingSteps(m, h, b, n)
  {
    hide Inv, Mirror, Kept, Split, SplitWrites, SizeField;
    SplitReady(m, h, {b}, b, n);
    SplitTiling(h, {b}, b, n);
    var r, e, h' := b + 1 + n, Next(h.t, b), h.(t := Split(h.t, b, n));
    var m1 := SplitWrites(m, b, n, r, h.t[b].words - n - 1, e);
    FlagMirror(m1, h', {b} + {r}, r, {r}, {b});
    var m2 := m1[r + 1 := WithPrevFree(m1[r + 1])];
    LinkNextMirror(m2, h', {b} + {r}, b, {});
    var m3 := m2[r := b];
    HeaderRead(m2, h', {}, {b}, b);
    SameUsedSelf(h'.t);
    KeptTrans(m, m1, m2, h'.t, h'.t, {});
    KeptTrans(m, m2, m3, h'.t, h'.t, {});
  }

  ghost predicate LeadingSteps(m: Words, h: State, b: nat, n: nat) {
    var r, e := b + 1 + n, Next(h.t, b);
    && b in h.t && CanSplit(h.t, b, n)
    && b + 1 < |m| && r + 1 < |m| && e + 1 < |m|
    && SizeField(m[b + 1]) == 8 * h.t[b].words && b + 1 + SizeField(m[b + 1]) / 8 == e
    && var m1 := SplitWrites(m, b, n, r, h.t[b].words - n - 1, e);
    && var m2 := m1[r + 1 := WithPrevFree(m1[r + 1])];
    && b + 1 + SizeField(m2[b + 1]) / 8 == r
    && var m3 := m2[r := b];
    && Mirror(m3, h.(t := Split(h.t, b, n)), {}, {}) && Kept(m, m3, Split(h.t, b, n), {})
  }

  lemma LeadingTiling(h: State, b: nat, n: nat)
    requires Inv(h, {b}) && b in h.t && h.t[b].free && n >= 3 && CanSplit(h.t, b, n) && !PrevFree(h.t, b)
    ensures var r, h' := b + 1 + n, h.(t := Split(h.t, b, n));
            Inv(h', {b} + {r}) && Floating(h', {b} + {r}, b) && SameUsed(h.t, h'.t, {})
  {
    hide Inv, Split, SameUsed;
    SplitTiling(h, {b}, b, n);
    Neighbours(h, {b}, b);
    FreshRest(h, {b}, b, n);
    SplitUsed(h.t, b, n, {});
  }

  lemma FreshRest(h: State, x: set<nat>, b: nat, n: nat)
    requires Inv(h, x) && b in h.t && n >= 3 && CanSplit(h.t, b, n)
    ensures b + 1 + n !in h.t
  {
    hide NextLinks, PrevLinks, Pools, Coalesced, Listed;
  }

  lemma OffTable(h: State, x: set<nat>, c: Class)
    requires Inv(h, x)
    ensures c.fl >= FL_INDEX_COUNT ==> ListAt(h.lists, c) == []
  {
  }

  lemma LocateSteps(h: State, n: nat)
    requires Fits(n)
    ensures n == 0 ==> LocateFree(h, n) == Outcome(h, NULL)
    ensures n != 0 ==> MappingSearch(8 * n).sl < SL_INDEX_COUNT
    ensures n != 0 ==>
              var s := ListAt(h.lists, Scan(h.lists, MappingSearch(8 * n)));
              LocateFree(h, n) == if s == [] then Outcome(h, NULL) else Outcome(Remove(h, s[0]), s[0])
  {
    InsertSecondLevel(Rounded(8 * n));
  }

  lemma MarkUsedReady(m: Words, h: State, x: set<nat>, b: nat, s: set<nat>)
    requires Inv(h, x) && b in h.t && h.t[b].words > 0 && (h.t[b].free ==> b in x)
    requires s <= {Next(h.t, b)} && Mirror(m, h, s, {})
    ensures var e := Next(h.t, b);
            && b + 1 < |m| && e + 1 < |m| && b + 1 + SizeField(m[b + 1]) / 8 == e
            && var m' := MarkUsedWrites(m, b, e);
            && Mirror(m', h.(t := SetFree(h.t, b, false)), {}, {}) && Kept(m, m', h.t, {})
    ensures Inv(h.(t := SetFree(h.t, b, false)), x - {b})
  {
    hide Inv, Mirror, Kept, MarkUsedWrites, SizeField;
    HeaderRead(m, h, s, {}, b);
    MarkUsedMirror(m, h, x, b, s);
    SetFreeInv(h, b, false, x);
  }

  // The block that was located, before it is prepared.
  lemma LocatedReady(h: State, n: nat)
    requires Fits(n) && Inv(h, {}) && n > 0 && LocateFree(h, n).b != NULL
    ensures var l := LocateFree(h, n);
            && l.h.t == h.t && l.b in h.t && h.t[l.b].free && h.t[l.b].words >= n && h.t[l.b].words > 0
            && !At(h.t, Next(h.t, l.b)).free && !PrevFree(h.t, l.b)
  {
    hide Inv;
    LocateFacts(h, n);
    FreeAlone(h, LocateFree(h, n).b);
  }

  lemma MallocGives(h: State, n: nat)
    requires Fits(n) && Inv(h, {}) && n >= 3 && LocateFree(h, n).b != NULL
    ensures var m := Policy.Malloc(h, n);
            && m == Outcome(PrepareUsed(LocateFree(h, n).h, LocateFree(h, n).b, n), LocateFree(h, n).b)
            && m.b in m.h.t && !m.h.t[m.b].free && m.h.t[m.b].words >= n
  {
    hide Inv, SameUsed, LocateFree, PrepareUsed;
    MallocUsed(h, n);
  }

  lemma MarkFreeReady(m: Words, h: State, b: nat)
    requires Inv(h, {}) && Mirror(m, h, {}, {}) && Used(h.t, b) && h.t[b].words > 0
    ensures var e := Next(h.t, b);
            && b + 1 < |m| && e + 1 < |m| && b + 1 < e && b + 1 + SizeField(m[b + 1]) / 8 == e
            && var m' := MarkFreeWrites(m, b, e);
            && Mirror(m', h.(t := SetFree(h.t, b, true)), {}, {}) && Kept(m, m', h.t, {b})
    ensures Inv(h.(t := SetFree(h.t, b, true)), {b}) && SameUsed(h.t, SetFree(h.t, b, true), {b})
  {
    hide Inv, Mirror, Kept, MarkFreeWrites, SizeField, SameUsed;
    HeaderRead(m, h, {}, {}, b);
    Neighbours(h, {}, b);
    MarkFreeMirror(m, h, {}, b);
    SetFreeInv(h, b, true, {});
    assert {} + {b} == {b};
    SetFreeUsed(h.t, b, true);
  }

  // The two merges of tlsf_free, seen from the tiling.
  lemma FreeMerges(h: State, b: nat)
    requires Inv(h, {b}) && b in h.t && h.t[b].free && h.t[b].words > 0
    ensures var m := MergePrev(h, b);
            && m.b in m.h.t && m.h.t[m.b].free && m.h.t[m.b].words > 0 && Inv(m.h, {m.b})
            && var h3 := MergeNext(m.h, m.b);
            && Floating(h3, {m.b}, m.b) && SameUsed(h.t, m.h.t, {}) && SameUsed(m.h.t, h3.t, {})
  {
    hide Inv, SameUsed;
    MergePrevInv(h, b);
    MergePrevDone(h, b);
    MergePrevUsed(h, b);
    var m := MergePrev(h, b);
    hide MergePrev;
    MergedFloating(m.h, m.b);
    MergeNextUsed(m.h, m.b, {m.b}, {});
  }

  lemma MergedFloating(h: State, b: nat)
    requires Inv(h, {b}) && b in h.t && h.t[b].free && h.t[b].words > 0 && !PrevFree(h.t, b)
    ensures Floating(MergeNext(h, b), {b}, b)
  {
    hide Inv;
    Neighbours(h, {b}, b);
    PrevBelow(h, {b}, b);
    MergeNextDone(h, b, {b});
    MergeNextShape(h, b);
  }

  lemma AlignUpAbove(ptr: nat, k: nat)
    requires k < 64 && ptr < TWO_62 && (k <= 3 || Pow2(k) < BLOCK_SIZE_MAX)
    ensures 0 < Pow2(k) <= TWO_64 && AlignUp(ptr, Pow2(k)) >= ptr
  {
    hide AlignUp, Multiple;
    Pow2Values();
    if k <= 3 {
      Pow2Mono(k, 3);
    }
    AlignUpMultiple(ptr, k);
  }

  // The sizes that tlsf_memalign computes are whole words.
  lemma AlignedSizes(k: nat, size: nat)
    requires k < 64
    ensures 0 < Pow2(k) <= TWO_64
    ensures var adjust := AdjustRequest(size, 8);
            var aligned := if Pow2(k) <= 8 then adjust else AdjustRequest(adjust + Pow2(k) + BLOCK_HEADER_SIZE,
                Pow2(k));
            && aligned % 8 == 0 && (aligned == 0 || aligned >= BLOCK_SIZE_MIN) &&
               aligned == 8 * AlignedRequest(Pow2(k), size)
            && adjust % 8 == 0 && (adjust == 0 || (adjust >= BLOCK_SIZE_MIN && adjust >= size))
  {
    hide AlignUp, Pow2, Multiple;
    Pow2AtMost(k);
    Pow2Values();
    AdjustedRequest(size);
    if k > 3 {
      Pow2Mono(4, k);
      var x := AdjustRequest(size, 8) + Pow2(k) + BLOCK_HEADER_SIZE;
      if x < BLOCK_SIZE_MAX {
        AlignUpMultiple(x, k);
        MultipleOfEight(AlignUp(x, Pow2(k)), k);
      }
    } else {
      Pow2Mono(k, 3);
    }
  }

  lemma MemoryAddressable(m: Words, h: State)
    requires Mirror(m, h, {}, {}) && 8 * |m| < TWO_62 / 2
    ensures Addressable(h.t)
  {
    hide PhysLinks, Links, Header;
    forall a | a in h.t ensures 8 * a < TWO_62 / 2 {
      assert HeaderOk(m, h.t, {}, a);
    }
  }

  // What tlsf_memalign gives, in terms of its steps.
  lemma MemalignOutcome(h: State, k: nat, size: nat, w: nat, n: nat)
    requires Inv(h, {}) && Addressable(h.t) && k < 64 && 0 < Pow2(k) <= TWO_64
    requires AdjustRequest(size, 8) != 0 || k <= 3
    requires w == AlignedRequest(Pow2(k), size) && Fits(w) && n == AdjustRequest(size, 8) / 8
    ensures MemalignParts(h, k, size, w, n)
  {
    hide Inv, AlignUp, Pow2, Multiple, AdjustRequest, AlignedRequest, Policy.Memalign, AlignGap, LocateFree,
         PrepareUsed;
    RequestCases(k, size);
    AdjustedRequest(size);
    MemalignSteps(h, Pow2(k), size, w, n);
    LocateEither(h, w);
    MemalignInv(h, k, size);
  }

  // A request that is sound adjusts to a size, or nothing is found for it.
  lemma MemalignEither(h: State, k: nat, size: nat, w: nat, n: nat)
    requires Inv(h, {}) && Addressable(h.t) && k < 64 && 0 < Pow2(k) <= TWO_64
    requires w == AlignedRequest(Pow2(k), size) && Fits(w) && n == AdjustRequest(size, 8) / 8
    requires AdjustRequest(size, 8) != 0 || k <= 3 || !Available(h.t, w)
    ensures MemalignParts(h, k, size, w, n)
  {
    hide Inv, MemalignParts, AlignedRequest, AdjustRequest, Available;
    if AdjustRequest(size, 8) != 0 || k <= 3 {
      MemalignOutcome(h, k, size, w, n);
    } else {
      MemalignNothing(h, k, size, w, n);
    }
  }

  lemma MemalignNothing(h: State, k: nat, size: nat, w: nat, n: nat)
    requires Inv(h, {}) && 0 < Pow2(k) <= TWO_64
    requires w == AlignedRequest(Pow2(k), size) && Fits(w) && !Available(h.t, w)
    ensures MemalignParts(h, k, size, w, n)
  {
    hide Inv, AlignedRequest, AdjustRequest, Available, LocateFree, Policy.Memalign;
    LocateSucceeds(h, w);
    LocateEither(h, w);
    MemalignNone(h, Pow2(k), size);
  }

  ghost predicate MemalignParts(h: State, k: nat, size: nat, w: nat, n: nat)
    requires 0 < Pow2(k) <= TWO_64 && Fits(AlignedRequest(Pow2(k), size)) && Fits(w)
  {
    var l, r := LocateFree(h, w), Policy.Memalign(h, Pow2(k), size);
    && (l.b == NULL ==> r == Outcome(h, NULL))
    && (l.b != NULL ==>
          var gap := AlignGap(8 * (l.b + 2), Pow2(k));
          var m := if gap >= 8 then TrimLeading(l.h, l.b, gap / 8) else l;
          && w != 0 && r == Outcome(PrepareUsed(m.h, m.b, n), m.b) && r.b > 0
          && Used(r.h.t, r.b) && r.h.t[r.b].words >= n && Multiple(8 * (r.b + 2), Pow2(k))
          && (if k <= 3 then w == n else 8 * w >= 8 * n + Pow2(k) + 32 && Pow2(k) < BLOCK_SIZE_MAX)
          && n >= 3)
  }

  lemma LeadingReady(h: State, b: nat, gap: nat)
    requires Inv(h, {b}) && b in h.t && h.t[b].free && gap >= 4 && CanSplit(h.t, b, gap)
    requires !At(h.t, Next(h.t, b)).free
    ensures var m := TrimLeading(h, b, gap);
            && SameUsed(h.t, m.h.t, {})
            && m.b == b + gap && m.b in m.h.t && m.h.t[m.b].free && m.h.t[m.b].words > 0
            && !At(m.h.t, Next(m.h.t, m.b)).free
  {
    hide Inv, SameUsed;
    PrevBelow(h, {b}, b);
    TrimLeadingShape(h, b, gap);
    TrimLeadingUsed(h, b, gap);
  }

  lemma MergeNextGrows(h: State, b: nat)
    requires Inv(h, {}) && Used(h.t, b) && h.t[b].words > 0
    ensures var h' := MergeNext(h, b); Inv(h', {}) && Used(h'.t, b) && h'.t[b].words >= h.t[b].words
  {
    hide Inv;
    Neighbours(h, {}, b);
    PrevBelow(h, {}, b);
    MergeNextInv(h, b, {});
    MergeNextShape(h, b);
  }

  lemma KeptWords(m0: Words, m1: Words, m2: Words, t0: Tiling, t1: Tiling, b: nat)
    requires Kept(m0, m1, t0, {}) && Kept(m1, m2, t1, {}) && Used(t0, b) && Used(t1, b) && t1[b].words >= t0[b].words
    ensures SameWords(m0, m2, b + 2, b + 1 + t0[b].words)
  {
    forall k | b + 2 <= k <= b + 1 + t0[b].words && k < |m0| ensures m2[k] == m0[k] {
      assert m1[k] == m0[k];
    }
  }

  // A block after tlsf_realloc has taken in the free block behind it, if it had to.
  function Widened(h: State, b: nat, n: nat): State {
    if n > At(h.t, b).words then MergeNext(h, b) else h
  }

  lemma InPlaceOutcome(h: State, b: nat, size: nat, n: nat)
    requires n == AdjustRequest(size, 8) / 8 && !MustMove(h.t, b, n)
    ensures Policy.Realloc(h, b, size) == Outcome(TrimUsed(Widened(h, b, n), b, n), b)
  {
  }

  // Where tlsf_realloc puts the block, for every size it is sound for.
  lemma ReallocPlaced(h: State, b: nat, size: nat)
    requires Inv(h, {}) && Alive(h.t, b) && size > 0 && (size < BLOCK_SIZE_MAX || h.t[b].words < 4)
    requires MustMove(h.t, b, Request(size)) ==> Fits(Request(size))
    ensures forall q: nat {:trigger Placed(h, b + 2, Request(size), q)} ::
              FromPtr(q) == Policy.Realloc(h, b, size).b && (q == NULL || q > 2) ==> Placed(h, b + 2, Request(size), q)
  {
    hide Inv, Policy.Realloc, Policy.Malloc, Request, RoomFor, Available, MustMove;
    Neighbours(h, {}, b);
    MovesExactly(h, b, Request(size));
    ReallocChoice(h, b, size);
    if MustMove(h.t, b, Request(size)) {
      MallocSucceeds(h, Request(size));
      MallocElsewhere(h, b, Request(size));
    }
  }

  // tlsf_realloc hands out the block itself or what tlsf_malloc would.
  lemma ReallocChoice(h: State, b: nat, size: nat)
    requires MustMove(h.t, b, Request(size)) ==> Fits(Request(size))
    ensures Policy.Realloc(h, b, size).b ==
            if MustMove(h.t, b, Request(size)) then Policy.Malloc(h, Request(size)).b else b
  {
    hide Request, MustMove, Policy.Malloc, TrimUsed, MergeNext, Policy.Free;
  }

  // A block handed out was free before.
  lemma MallocElsewhere(h: State, b: nat, n: nat)
    requires Inv(h, {}) && Fits(n) && Used(h.t, b)
    ensures Policy.Malloc(h, n).b != b || b == NULL
  {
    hide Inv;
    if n != 0 {
      LocateFacts(h, n);
    }
    hide LocateFree, PrepareUsed;
  }

  lemma InPlaceStart(m: Words, h: State, b: nat, size: nat, n: nat)
    requires Inv(h, {}) && Mirror(m, h, {}, {}) && Used(h.t, b) && h.t[b].words > 0 && n >= 3
    requires n == AdjustRequest(size, 8) / 8 && !MustMove(h.t, b, n)
    ensures var h2 := Widened(h, b, n);
            && SameUsed(h.t, h2.t, {b}) && Used(h2.t, b) && h2.t[b].words >= n
            && Policy.Realloc(h, b, size) == Outcome(TrimUsed(h2, b, n), b)
  {
    hide Inv, Mirror, SameUsed, MustMove, AdjustRequest, Policy.Realloc, TrimUsed, MergeNext, SizeField;
    InPlaceOutcome(h, b, size, n);
    Live.ReallocInPlace(h, b, n);
  }

  // The path for a size from 2^32 on and a block too small to be split.
  lemma TinyStart(h: State, b: nat, size: nat)
    requires size >= BLOCK_SIZE_MAX && !CanSplit(h.t, b, 0)
    ensures Widened(h, b, 0) == h && TrimUsed(h, b, 0) == h && Policy.Realloc(h, b, size) == Outcome(h, b)
  {
    ReallocTiny(h, b, size);
  }

  lemma SameBytesSelf(m: Words, p: nat, n: nat)
    requires 8 * p + n <= 8 * |m|
    ensures forall k :: 0 <= k <= n ==> SameBytes(m, p, m, p, k)
  {
  }

  // ... and when it has trimmed.
  lemma InPlaceEnd(m0: Words, m2: Words, m3: Words, h: State, h2: State, b: nat, size: nat, n: nat)
    requires Inv(h, {}) && Mirror(m0, h, {}, {}) && Used(h.t, b) && h.t[b].words > 0 && n >= 3 && size <= 8 * n
    requires Inv(h2, {}) && SameUsed(h.t, h2.t, {b}) && Used(h2.t, b) && h2.t[b].words >= n
    requires Kept(m0, m2, h.t, {b}) && Kept(m2, m3, h2.t, {b})
    requires m2 == m0 || SameWords(m0, m2, b + 2, b + 1 + h.t[b].words)
    requires SameWords(m2, m3, b + 2, b + 1 + n)
    ensures Kept(m0, m3, h.t, {b})
    ensures SameBytes(m0, b + 2, m3, b + 2, Min(8 * h.t[b].words, size))
    ensures Used(TrimUsed(h2, b, n).t, b) && TrimUsed(h2, b, n).t[b].words >= n
  {
    hide Inv, Mirror, SameUsed, Kept, SameWords, SameBytes, TrimUsed;
    LiveRoom(m0, h, b);
    KeptTrans(m0, m2, m3, h.t, h2.t, {b});
    TrimUsedShape(h2, b, n);
    KeptLength(m0, m2, h.t, {b});
    WordsBytes(m0, m2, m3, b + 2, h.t[b].words, n, Min(8 * h.t[b].words, size));
  }

  lemma KeptLength(m: Words, m': Words, t: Tiling, s: set<nat>)
    requires Kept(m, m', t, s)
    ensures |m'| == |m|
  {
  }

  lemma LiveRoom(m: Words, h: State, b: nat)
    requires Inv(h, {}) && Mirror(m, h, {}, {}) && Used(h.t, b) && h.t[b].words > 0
    ensures b + 2 + h.t[b].words <= |m|
  {
    hide Inv, Mirror;
    Neighbours(h, {}, b);
    HeaderRead(m, h, {}, {}, Next(h.t, b));
  }

  // Words kept by two steps, as bytes.
  lemma WordsBytes(m0: Words, m1: Words, m2: Words, p: nat, w0: nat, w1: nat, n: nat)
    requires p >= 2 && (m1 == m0 || SameWords(m0, m1, p, p - 1 + w0))
    requires SameWords(m1, m2, p, p - 1 + w1)
    requires w0 >= 1 && w1 >= 1 && n <= 8 * w0 && n <= 8 * w1 && p + w0 <= |m0| == |m1|
    ensures SameBytes(m0, p, m2, p, n)
  {
    forall j | 0 <= j < n ensures SameByte(m0, p, m2, p, j) {
      var k := p + j / 8;
      assert (8 * p + j) / 8 == k;
      assert m2[k] == m1[k] == m0[k];
    }
  }

  lemma ReallocReads(m: Words, h: State, b: nat)
    requires Inv(h, {}) && Mirror(m, h, {}, {}) && Used(h.t, b) && h.t[b].words > 0
    ensures var e := Next(h.t, b);
            && b + 1 < |m| && e + 1 < |m|
            && SizeField(m[b + 1]) == 8 * h.t[b].words && b + 1 + SizeField(m[b + 1]) / 8 == e
            && SizeField(m[e + 1]) == 8 * At(h.t, e).words && (FreeFlag(m[e + 1]) <==> At(h.t, e).free)
  {
    hide Inv, Mirror;
    Neighbours(h, {}, b);
    HeaderRead(m, h, {}, {}, b);
    HeaderRead(m, h, {}, {}, Next(h.t, b));
  }

  // Of the pools that pass the tests of tlsf_add_pool, exactly those whose block
  // has 2^32 bytes have no list to go to; there are such pools.
  lemma PoolListed(addr: nat, bytes: nat)
    requires bytes < TWO_64 && PoolAccepted(addr, bytes)
    ensures MappingInsert(PoolBytes(bytes)).InTable() <==> PoolBytes(bytes) != BLOCK_SIZE_MAX
    ensures PoolAccepted(8, BLOCK_SIZE_MAX + 16) &&
            MappingInsert(PoolBytes(BLOCK_SIZE_MAX + 16)) == Class(FL_INDEX_COUNT, 0)
  {
    hide PoolBytes, MappingInsert;
    InsertInTable(PoolBytes(bytes));
    PoolBytesAligned(BLOCK_SIZE_MAX + 16);
    LargestClass();
  }

  lemma LargestClass()
    ensures MappingInsert(BLOCK_SIZE_MAX) == Class(FL_INDEX_COUNT, 0)
  {
    hide Pow2, Fls;
    Pow2Values();
    Pow2Add(16, 11);
    Pow2Add(8, 3);
    Pow2Step(33);
    FlsUnique(BLOCK_SIZE_MAX, 32);
    LargeClass(BLOCK_SIZE_MAX);
  }

  // Right before tlsf_add_pool lists the new block.
  lemma AddPoolReady(m: Words, h: State, p: nat, n: nat)
    requires NewPool(m, h, p, n)
    ensures FIRST_BLOCK <= p && p + 2 + n < |m| && n >= 3
    ensures HeadOf(h.lists, ClassOf(PoolBlocks(h, p, n).t, p)) + 3 < |m|
    ensures var m1, h1 := m[p + 1 := PoolHeader(m[p + 1], n)], PoolBlocks(h, p, n);
            Inv(h1, {p}) && Floating(h1, {p}, p) && Insertable(m1, h1, p)
  {
    NewPoolFacts(m, h, p, n);
    PoolHeaders(m[p + 1], n);
    hide Inv, PoolHeader, IsPoolAdded, BlocksApart, Nodes, Headers, PhysLinks, Links, Disjoint, PrevLinks, SizeField,
         ClassOf, Header;
    var m1, h1 := m[p + 1 := PoolHeader(m[p + 1], n)], PoolBlocks(h, p, n);
    AddedLinks(m, m1, h.t, h.lists, p, n);
    WordsBound(h1, {p}, p);
    ClassListed(h1, {p}, ClassOf(h1.t, p));
    HeadApart(m, h, p, n, ClassOf(h1.t, p));
    HeadInMemory(m, h, ClassOf(h1.t, p));
  }

  lemma HeadInMemory(m: Words, h: State, c: Class)
    requires Links(m, h.lists) && |m| >= FIRST_BLOCK && c in h.lists
    ensures HeadOf(h.lists, c) + 3 < |m|
  {
    var s := h.lists[c];
    assert Linked(m, s);
    if s != [] {
      assert LinkOk(m, s, 0);
    }
  }

  // With the list head in place, writing the sentinel completes the pool.
  ghost predicate PoolPlaced(m: Words, m2: Words, h: State, p: nat, n: nat) {
    var s := p + 1 + n;
    && s + 1 < |m2| && p + 1 + SizeField(m2[p + 1]) / 8 == s
    && var m' := m2[s := p][s + 1 := SentinelHeader(m2[s + 1])];
    Mirror(m', Policy.AddPool(h, p, n), {}, {}) && Kept(m, m', h.t, {})
  }

  lemma AddPoolListed(m: Words, m2: Words, h: State, p: nat, n: nat)
    requires NewPool(m, h, p, n) && p + 3 < |m|
    requires var h1 := PoolBlocks(h, p, n);
             var head := HeadOf(h1.lists, ClassOf(h1.t, p));
             head + 3 < |m| && m2 == PushFront(m[p + 1 := PoolHeader(m[p + 1], n)], head, p)
    ensures PoolPlaced(m, m2, h, p, n)
  {
    var h1 := PoolBlocks(h, p, n);
    NewPoolFacts(m, h, p, n);
    PoolHeaders(m[p + 1], n);
    hide Inv, Mirror, Kept, PushFront, PoolWrites, ClassOf, Insert, PoolHeader, SentinelHeader, IsPoolAdded,
         BlocksApart, Nodes, Disjoint, PrevLinks, SizeField, Policy.AddPool, Header;
    WordsBound(h1, {p}, p);
    ClassListed(h1, {p}, ClassOf(h1.t, p));
    HeadApart(m, h, p, n, ClassOf(h1.t, p));
    InsertFirst(m, p, n, HeadOf(h1.lists, ClassOf(h1.t, p)));
    AddPoolMirror(m, h, p, n);
  }

  lemma EmptyBits()
    ensures forall i: nat :: !Bit(0, i)
  {
    forall i: nat ensures !Bit(0, i) {
      BitOfZero(i);
    }
  }

  lemma EmptyMirror(m: Words)
    requires |m| >= FIRST_BLOCK
    ensures Mirror(m, Empty(), {}, {})
  {
  }

  // w & (1 << k)
  lemma MaskBit(w: nat, k: nat)
    ensures And(w, Pow2(k)) != 0 <==> Bit(w, k)
  {
    AndBit(w, Pow2(k), k);
    Pow2Bit(k, k);
    BitOfZero(k);
    if And(w, Pow2(k)) != 0 {
      var i := LowestBit(And(w, Pow2(k)));
      AndBit(w, Pow2(k), i);
      Pow2Bit(k, i);
    }
  }

  // What tlsf_check asks of the k-th block b of the list of class c.
  ghost predicate CheckedBlock(m: Words, l: seq<nat>, c: Class, k: nat)
    requires k < |l|
  {
    var b := l[k];
    && b + 2 < |m| && m[b + 2] == NextFree(l, k)
    && FreeFlag(m[b + 1]) && !PrevFlag(m[b + 1]) && SizeField(m[b + 1]) >= BLOCK_SIZE_MIN
    && MappingInsert(SizeField(m[b + 1])) == c
    && var e := b + 1 + SizeField(m[b + 1]) / 8;
    && e + 1 < |m| && !FreeFlag(m[e + 1]) && PrevFlag(m[e + 1])
  }

  lemma CheckFacts(m: Words, h: State, c: Class, k: nat)
    requires Inv(h, {}) && Mirror(m, h, {}, {}) && c in h.lists && k < |h.lists[c]|
    ensures CheckedBlock(m, h.lists[c], c, k)
  {
    hide Inv, Mirror, MappingInsert, SizeField, FreeFlag, PrevFlag, NextFree;
    var b := h.lists[c][k];
    ListedAt(h, c, k);
    LinkAt(m, h, c, k);
    FreeAlone(h, b);
    Neighbours(h, {}, b);
    HeaderRead(m, h, {}, {}, b);
    HeaderRead(m, h, {}, {}, Next(h.t, b));
  }

  lemma LinkAt(m: Words, h: State, c: Class, k: nat)
    requires Mirror(m, h, {}, {}) && c in h.lists && k < |h.lists[c]|
    ensures h.lists[c][k] + 2 < |m| && m[h.lists[c][k] + 2] == NextFree(h.lists[c], k)
  {
    hide Headers, PhysLinks;
    assert Linked(m, h.lists[c]);
    assert LinkOk(m, h.lists[c], k);
  }

  lemma ListedAt(h: State, c: Class, k: nat)
    requires Inv(h, {}) && c in h.lists && k < |h.lists[c]|
    ensures var b := h.lists[c][k]; b in h.t && h.t[b].free && ClassOf(h.t, b) == c
  {
    hide MappingInsert, NextLinks, PrevLinks, Disjoint, Pools, Coalesced;
  }

  lemma RemovedMirror(m: Words, h: State, p: nat)
    requires Inv(h, {}) && p in h.pools && At(h.t, p).free && At(h.t, Next(h.t, p)).words == 0
    requires Mirror(m, Remove(h, p), {}, {})
    ensures Mirror(m, Policy.RemovePool(h, p), {}, {}) && Inv(Policy.RemovePool(h, p), {})
    ensures Policy.RemovePool(h, p).lists == Remove(h, p).lists
  {
    hide Inv, IsPoolRemoved, Headers, PhysLinks, Links, Geometry;
    StartHasNoPrev(h, p);
    RemovePoolInv(h, p);
    PoolCut(h, p);
    var t' := h.t - {p, Next(h.t, p)};
    RemovedHeaders(m, h.t, t', p, Next(h.t, p));
    RemovedPhys(m, h.t, t', p, Next(h.t, p));
  }

  lemma PoolCut(h: State, p: nat)
    requires Inv(h, {}) && p in h.pools && At(h.t, p).free && At(h.t, Next(h.t, p)).words == 0
    ensures Geometry(h.t) && IsPoolRemoved(h.t, h.t - {p, Next(h.t, p)}, p, Next(h.t, p))
  {
    hide Inv, Geometry;
    StartHasNoPrev(h, p);
    FreeAlone(h, p);
    Neighbours(h, {}, p);
    GeometryOf(h, {});
  }

  lemma StartHasNoPrev(h: State, p: nat)
    requires Inv(h, {}) && p in h.pools
    ensures p in h.t && h.t[p].prev == 0 && !PrevFree(h.t, p)
  {
    hide NextLinks, PrevLinks, PoolInner, PoolCover, Coalesced, Listed;
  }

  lemma RemovedHeaders(m: Words, t: Tiling, t': Tiling, p: nat, s: nat)
    requires Geometry(t) && Headers(m, t, {}) && IsPoolRemoved(t, t', p, s)
    ensures Headers(m, t', {})
  {
    hide Header;
    forall a {:trigger HeaderOk(m, t', {}, a)} | a in t' ensures HeaderOk(m, t', {}, a) {
      assert HeaderOk(m, t, {}, a);
      assert t[a].prev != p && t[a].prev != s;
    }
  }

  lemma RemovedPhys(m: Words, t: Tiling, t': Tiling, p: nat, s: nat)
    requires PhysLinks(m, t, {}) && IsPoolRemoved(t, t', p, s)
    ensures PhysLinks(m, t', {})
  {
    forall a {:trigger Next(t', a)} | a in t' && t'[a].free ensures Next(t', a) < |m| && m[Next(t', a)] == a {
      assert Next(t', a) == Next(t, a);
    }
  }

  function Min(a: nat, b: nat): nat {
    if a < b then a else b
  }

  // Where the payloads of the old and the new block lie.
  lemma MoveRoom(m: Words, h: State, h0: State, b: nat, c: nat, n: nat)
    requires Inv(h, {}) && Mirror(m, h, {}, {}) && Used(h0.t, b) && h0.t[b].words > 0 && h0.t[b].words < n
    requires SameUsed(h0.t, h.t, {c}) && Used(h.t, c) && n <= h.t[c].words && !Used(h0.t, c)
    ensures b != c && Used(h.t, b) && h.t[b].words == h0.t[b].words
    ensures b + 2 + h.t[b].words <= |m| && c + 2 + h.t[c].words <= |m|
    ensures b + 2 + h.t[b].words <= c + 1 || c + 2 + h.t[c].words <= b + 1
  {
    assert Used(h0.t, b) && Used(h.t, b);
    Neighbours(h, {}, b);
    Neighbours(h, {}, c);
    HeaderRead(m, h, {}, {}, Next(h.t, b));
    HeaderRead(m, h, {}, {}, Next(h.t, c));
    hide NextLinks, PrevLinks, Pools, Coalesced, Listed, Mirror, SameUsed;
  }

  // Writing the payload of a block in use disturbs nothing.
  lemma PayloadWrite(m: Words, m': Words, h: State, c: nat)
    requires Inv(h, {}) && Mirror(m, h, {}, {}) && Used(h.t, c) && |m'| == |m|
    requires forall k :: 0 <= k < |m| && !(c + 2 <= k <= c + 1 + h.t[c].words) ==> m'[k] == m[k]
    ensures Mirror(m', h, {}, {}) && Kept(m, m', h.t, {c})
  {
    GeometryOf(h, {});
    ListedNodes(h, {});
    ListedFree(h, {});
    hide Inv, Listed, Pools, Coalesced;
    PayloadHeaders(m, m', h.t, c);
    PayloadPhys(m, m', h.t, c);
    PayloadLinks(m, m', h.t, h.lists, c);
    PayloadKept(m, m', h.t, c);
    hide NextLinks, PrevLinks, Disjoint, Headers, PhysLinks, Links, Kept;
  }

  lemma ListedFree(h: State, x: set<nat>)
    requires Inv(h, x)
    ensures forall c, i :: c in h.lists && 0 <= i < |h.lists[c]| ==> h.lists[c][i] in h.t && h.t[h.lists[c][i]].free
    ensures forall a :: a in h.t && h.t[a].free ==> h.t[a].words > 0
  {
    hide ClassOf, NextLinks, PrevLinks, Disjoint, PoolEnds, PoolCover, Coalesced;
  }

  lemma PayloadHeaders(m: Words, m': Words, t: Tiling, c: nat)
    requires Disjoint(t) && Headers(m, t, {}) && c in t && |m'| == |m|
    requires forall k :: 0 <= k < |m| && !(c + 2 <= k <= c + 1 + t[c].words) ==> m'[k] == m[k]
    ensures Headers(m', t, {})
  {
    hide Header;
    forall a {:trigger HeaderOk(m', t, {}, a)} | a in t ensures HeaderOk(m', t, {}, a) {
      assert HeaderOk(m, t, {}, a);
    }
  }

  lemma PayloadPhys(m: Words, m': Words, t: Tiling, c: nat)
    requires NextLinks(t) && Disjoint(t) && PhysLinks(m, t, {}) && c in t && !t[c].free && |m'| == |m|
    requires forall a :: a in t && t[a].free ==> t[a].words > 0
    requires forall k :: 0 <= k < |m| && !(c + 2 <= k <= c + 1 + t[c].words) ==> m'[k] == m[k]
    ensures PhysLinks(m', t, {})
  {
    forall a {:trigger Next(t, a)} | a in t && t[a].free ensures Next(t, a) < |m'| && m'[Next(t, a)] == a {
      var e := Next(t, a);
      assert e in t && t[e].prev == a;
      assert a < c ==> e <= c;
      assert c < a ==> c + 1 + t[c].words <= a;
    }
  }

  lemma PayloadLinks(m: Words, m': Words, t: Tiling, lists: map<Class, seq<nat>>, c: nat)
    requires Disjoint(t) && Nodes(lists, t) && Links(m, lists) && c in t && !t[c].free && |m'| == |m|
    requires forall d, i :: d in lists && 0 <= i < |lists[d]| ==> lists[d][i] in t && t[lists[d][i]].free
    requires forall k :: 0 <= k < |m| && !(c + 2 <= k <= c + 1 + t[c].words) ==> m'[k] == m[k]
    ensures Links(m', lists)
  {
    forall d, i | d in lists && 0 <= i < |lists[d]| && lists[d][i] + 3 < |m|
      ensures m'[lists[d][i] + 2] == m[lists[d][i] + 2] && m'[lists[d][i] + 3] == m[lists[d][i] + 3]
    {
      var a := lists[d][i];
      assert a in t && t[a].free && t[a].words > 0 && a != c;
    }
    LinksFrame(m, m', lists);
  }

  lemma PayloadKept(m: Words, m': Words, t: Tiling, c: nat)
    requires Disjoint(t) && c in t && |m'| == |m|
    requires forall k :: 0 <= k < |m| && !(c + 2 <= k <= c + 1 + t[c].words) ==> m'[k] == m[k]
    ensures Kept(m, m', t, {c})
  {
    forall a: nat, j: nat {:trigger Used(t, a), m'[j]} | Used(t, a) && a !in {c} && a + 2 <= j <= a + 1 + t[a].words &&
        j < |m|
      ensures m'[j] == m[j]
    {
      assert a in t;
    }
  }

  // The payload of a kept block, byte by byte.
  lemma KeptBytes(m: Words, m': Words, t: Tiling, b: nat, c: nat, n: nat)
    requires Kept(m, m', t, {b}) && Used(t, c) && c != b && n <= 8 * t[c].words && c + 2 + t[c].words <= |m|
    ensures SameBytes(m, c + 2, m', c + 2, n)
  {
    var p := c + 2;
    forall j | 0 <= j < n ensures SameByte(m, p, m', p, j) {
      var k := p + j / 8;
      assert (8 * p + j) / 8 == k;
      assert m'[k] == m[k];
    }
  }

  lemma MovedPayload(m: Words, m': Words, h: State, b: nat, n: nat)
    requires Kept(m, m', h.t, {}) && Used(h.t, b) && n <= 8 * h.t[b].words && b + 2 + h.t[b].words <= |m|
    ensures SameBytes(m, b + 2, m', b + 2, n)
  {
    var p := b + 2;
    forall j | 0 <= j < n ensures SameByte(m, p, m', p, j) {
      var k := p + j / 8;
      assert (8 * p + j) / 8 == k;
      assert m'[k] == m[k];
    }
  }

  lemma MoveKept(m0: Words, m1: Words, m2: Words, m3: Words, t0: Tiling, t1: Tiling, b: nat, c: nat)
    requires Kept(m0, m1, t0, {}) && SameUsed(t0, t1, {c}) && !Used(t0, c)
    requires Kept(m1, m2, t1, {c}) && Kept(m2, m3, t1, {b})
    ensures Kept(m0, m3, t0, {b})
  {
    forall a: nat, k: nat {:trigger Used(t0, a), m3[k]} | Used(t0, a) && a !in {b} &&
        a + 2 <= k <= a + 1 + t0[a].words && k < |m0|
      ensures m3[k] == m0[k]
    {
      assert Used(t1, a);
      assert m1[k] == m0[k] && m2[k] == m1[k];
    }
  }

  lemma StillUsed(t: Tiling, t': Tiling, c: nat, b: nat)
    requires SameUsed(t, t', {b}) && c != b && Used(t, c)
    ensures Used(t', c) && t'[c].words == t[c].words
  {
  }

  lemma StaleMore(m: Words, h: State, s: set<nat>)
    requires Mirror(m, h, {}, {})
    ensures Mirror(m, h, s, {})
  {
    forall a {:trigger HeaderOk(m, h.t, s, a)} | a in h.t ensures HeaderOk(m, h.t, s, a) {
      assert HeaderOk(m, h.t, {}, a);
    }
  }

  // What merging forwards leaves of b and behind it.
  lemma MergePrevSelf(h: State, b: nat)
    ensures MergePrev(h, b) ==
            if PrevFree(h.t, b) then var p := At(h.t, b).prev; Outcome(Remove(h, p).(t := Absorb(Remove(h, p).t, p)), p)
            else Outcome(h, b)
  {
  }

  lemma MergeNextSelf(h: State, x: set<nat>, b: nat)
    requires Inv(h, x) && b in h.t && h.t[b].words > 0
    ensures var h' := MergeNext(h, b);
            && b in h'.t && h'.t[b].free == h.t[b].free && h'.pools == h.pools
            && (if At(h.t, Next(h.t, b)).free then
                  var h1 := Remove(h, Next(h.t, b)); h' == h1.(t := Absorb(h1.t, b))
                else h' == h)
            && Next(h'.t, b) == if At(h.t, Next(h.t, b)).free then Next(h.t, Next(h.t, b)) else Next(h.t, b)
  {
    hide Inv;
    Neighbours(h, x, b);
    PrevBelow(h, x, b);
    if h.t[Next(h.t, b)].free {
      assert h.t[Next(h.t, b)].words > 0;
    }
    MergeNextShape(h, b);
  }

  lemma KeptSelf(m: Words, t: Tiling)
    ensures Kept(m, m, t, {})
  {
  }

  // b is a free block in hand whose free neighbours, if any, are in hand too.
  ghost predicate Floating(h: State, x: set<nat>, b: nat) {
    && b in x && b in h.t && h.t[b].free && h.t[b].words > 0
    && (At(h.t, Next(h.t, b)).free ==> Next(h.t, b) in x - {b})
    && (PrevFree(h.t, b) ==> h.t[b].prev in x - {b})
  }

  // What insert_free_block needs when memory does not mirror the whole state yet.
  ghost predicate Insertable(m: Words, h: State, b: nat) {
    && Links(m, h.lists) && |m| >= FIRST_BLOCK && b + 3 < |m| && HeadOf(h.lists, ClassOf(h.t, b)) + 3 < |m|
    && SizeField(m[b + 1]) == 8 * At(h.t, b).words
  }

  lemma SizeRead(m: Words, h: State, b: nat)
    requires b in h.t && (Mirror(m, h, {}, {}) || Insertable(m, h, b))
    ensures b + 1 < |m| && SizeField(m[b + 1]) == 8 * h.t[b].words
  {
    hide Mirror, SizeField, ClassOf;
    if Mirror(m, h, {}, {}) {
      HeaderRead(m, h, {}, {}, b);
    }
  }

  lemma InsertReady(m: Words, h: State, x: set<nat>, b: nat, c: Class)
    requires Inv(h, x) && Floating(h, x, b) && ClassOf(h.t, b) == c
    requires Mirror(m, h, {}, {}) || Insertable(m, h, b)
    ensures c in h.lists && b + 3 < |m| && HeadOf(h.lists, c) + 3 < |m|
    ensures var m' := PushFront(m, HeadOf(h.lists, c), b);
            Mirror(m, h, {}, {}) ==> Mirror(m', Insert(h, b), {}, {}) && Kept(m, m', h.t, {})
    ensures Inv(Insert(h, b), x - {b})
    ensures Insert(h, b).lists == h.lists[c := [b] + ListAt(h.lists, c)]
  {
    hide Inv, Mirror, Kept, PushFront, ClassOf;
    Neighbours(h, x, b);
    if Mirror(m, h, {}, {}) {
      InsertMirror(m, h, x, b, {}, {});
    }
    InsertInv(h, b, x);
  }

  // All that remove_free_block needs to know.
  lemma RemoveReady(m: Words, h: State, x: set<nat>, b: nat, c: Class)
    requires Inv(h, x) && Mirror(m, h, {}, {}) && b in h.t && h.t[b].free && b !in x && ClassOf(h.t, b) == c
    ensures c in h.lists && b in h.lists[c]
    ensures var l, i := h.lists[c], IndexOf(h.lists[c], b);
            && NoDuplicates(l) && BLOCK_NULL !in l
            && b + 3 < |m| && m[b + 2] == NextFree(l, i) && m[b + 3] == PrevFreeOf(l, i)
            && NextFree(l, i) + 3 < |m| && PrevFreeOf(l, i) + 2 < |m|
            && Mirror(Unlink(m, l, i), Remove(h, b), {}, {}) && Kept(m, Unlink(m, l, i), h.t, {})
    ensures Inv(Remove(h, b), x + {b})
    ensures Remove(h, b).lists == h.lists[c := Without(h.lists[c], b)]
  {
    hide Inv, Mirror, Kept, Unlink, ClassOf;
    RemoveMirror(m, h, x, b, {}, {});
    RemoveInv(h, b, x);
    ListSpacing(h, x, c);
  }
}
