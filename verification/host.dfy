// The memory interface of the host in tjost.c: tjost_alloc, tjost_realloc,
// tjost_free, tjost_add_memory and tjost_free_memory over the allocator.
module Host {
  import opened SizeClass
  import opened Heap
  import opened Aligned
  import opened Runs
  import opened Memory
  import opened Allocator
  import opened Accounting
  import Growth
  import opened Policy
  import Bits

  // If tlsf_add_pool accepts the memory, it has a list to go to and lies in the modelled words.
  ghost predicate PoolFits(words: nat, area: nat, size: nat) {
    && size < Bits.TWO_64
    && (PoolAccepted(area, size) ==>
          area >= 8 && PoolBytes(size) < BLOCK_SIZE_MAX && area / 8 + PoolBytes(size) / 8 + 1 < words)
  }

  // Where the pool of such memory starts, and its words.
  function PoolStart(area: nat): nat {
    if area >= 8 then area / 8 - 1 else 0
  }

  function PoolWords(size: nat): nat {
    if size >= 16 then (size - 16) / 8 else 0
  }

  lemma NoPools(area: nat, size: nat)
    requires size < Bits.TWO_64 && area >= 8 * (FIRST_BLOCK + 1)
    ensures Policy.Apart(Empty().pools, PoolStart(area), PoolWords(size))
  {
  }

  // ---------------------------------------------------------------- chunks and pools

  // The pool of a chunk that has one.
  predicate PoolOf(pools: map<nat, nat>, c: Growth.Chunk) {
    c.pool >= 8 && c.pool % 8 == 0 && c.pool / 8 - 1 in pools
  }

  ghost predicate HasChunk(chunks: seq<Growth.Chunk>, p: nat) {
    exists i :: 0 <= i < |chunks| && chunks[i].pool == 8 * (p + 1)
  }

  // The chunks that were accepted have different pools, and there are no other pools.
  ghost predicate PoolsListed(pools: map<nat, nat>, chunks: seq<Growth.Chunk>) {
    && (forall i :: 0 <= i < |chunks| && chunks[i].pool != NULL ==> PoolOf(pools, chunks[i]))
    && (forall i, j :: 0 <= i < j < |chunks| && chunks[i].pool != NULL ==> chunks[i].pool != chunks[j].pool)
    && (forall p {:trigger HasChunk(chunks, p)} :: p in pools ==> HasChunk(chunks, p))
  }

  lemma ListChunk(pools: map<nat, nat>, chunks: seq<Growth.Chunk>, c: Growth.Chunk, p: nat, n: nat)
    requires PoolsListed(pools, chunks) && p !in pools && c.pool == 8 * (p + 1)
    ensures PoolsListed(pools[p := n], [c] + chunks)
  {
    var chunks' := [c] + chunks;
    assert chunks'[0].pool == 8 * (p + 1);
    forall q {:trigger HasChunk(chunks', q)} | q in pools ensures HasChunk(chunks', q) {
      MoreChunks(chunks, c, q);
    }
  }

  lemma ListRejected(pools: map<nat, nat>, chunks: seq<Growth.Chunk>, c: Growth.Chunk)
    requires PoolsListed(pools, chunks) && c.pool == NULL
    ensures PoolsListed(pools, [c] + chunks)
  {
    var chunks' := [c] + chunks;
    forall q {:trigger HasChunk(chunks', q)} | q in pools ensures HasChunk(chunks', q) {
      MoreChunks(chunks, c, q);
    }
  }

  lemma MoreChunks(chunks: seq<Growth.Chunk>, c: Growth.Chunk, p: nat)
    ensures HasChunk(chunks, p) ==> HasChunk([c] + chunks, p)
    ensures HasChunk([c] + chunks, p) && c.pool != 8 * (p + 1) ==> HasChunk(chunks, p)
  {
    if HasChunk(chunks, p) {
      var i :| 0 <= i < |chunks| && chunks[i].pool == 8 * (p + 1);
      assert ([c] + chunks)[i + 1] == chunks[i];
    }
  }

  // The assertions of tlsf_remove_pool hold for the pool of a chunk.
  ghost predicate Removable(h: State, c: Growth.Chunk) {
    PoolOf(h.pools, c) && Legal(h, OpRemovePool(c.pool / 8 - 1))
  }

  // They hold for every listed chunk if and only if tlsf_add_pool accepted every
  // chunk listed after the first and no block is live.
  lemma RemovalsSound(h: State, chunks: seq<Growth.Chunk>)
    requires Inv(h, {}) && PoolsListed(h.pools, chunks) && Growth.PoolsRight(chunks)
    ensures (forall i :: 0 <= i < |chunks| ==> Removable(h, chunks[i])) <==>
              (forall i :: 0 <= i < |chunks| - 1 ==> Growth.Accepted(chunks[i])) && NothingAlive(h.t)
  {
    hide Inv, Growth.Accepted, NothingAlive, PoolsListed, Legal;
    if forall i :: 0 <= i < |chunks| ==> Removable(h, chunks[i]) {
      AllRemovable(h, chunks);
      forall i | 0 <= i < |chunks| - 1 ensures Growth.Accepted(chunks[i]) {
        assert Removable(h, chunks[i]);
      }
    }
    if (forall i :: 0 <= i < |chunks| - 1 ==> Growth.Accepted(chunks[i])) && NothingAlive(h.t) {
      forall i | 0 <= i < |chunks| ensures Removable(h, chunks[i]) {
        ChunkRemovable(h, chunks, i);
      }
    }
  }

  lemma ChunkRemovable(h: State, chunks: seq<Growth.Chunk>, i: nat)
    requires Inv(h, {}) && PoolsListed(h.pools, chunks) && i < |chunks| && chunks[i].pool != NULL && NothingAlive(h.t)
    ensures Removable(h, chunks[i])
  {
    hide Inv, Legal;
    assert PoolOf(h.pools, chunks[i]);
    RemovalExact(h, chunks[i].pool / 8 - 1);
  }

  // Every block lies in the pool of a chunk.
  lemma AllRemovable(h: State, chunks: seq<Growth.Chunk>)
    requires Inv(h, {}) && PoolsListed(h.pools, chunks) && forall i :: 0 <= i < |chunks| ==> Removable(h, chunks[i])
    ensures NothingAlive(h.t)
  {
    hide Inv, PoolsListed, Removable;
    forall b ensures !Alive(h.t, b) {
      if b in h.t {
        var p := PoolOfBlock(h, b);
        DeadBlock(h, chunks, b, p);
      }
    }
  }

  lemma DeadBlock(h: State, chunks: seq<Growth.Chunk>, b: nat, p: nat)
    requires Inv(h, {}) && PoolsListed(h.pools, chunks) && forall i :: 0 <= i < |chunks| ==> Removable(h, chunks[i])
    requires p in h.pools && p <= b <= End(h.pools, p)
    ensures !Alive(h.t, b)
  {
    hide Inv, Legal;
    assert HasChunk(chunks, p);
    var i :| 0 <= i < |chunks| && chunks[i].pool == 8 * (p + 1);
    assert Removable(h, chunks[i]);
    RemovalExact(h, p);
  }

  lemma PoolOfBlock(h: State, b: nat) returns (p: nat)
    requires Inv(h, {}) && b in h.t
    ensures p in h.pools && p <= b <= End(h.pools, p)
  {
    hide NextLinks, PrevLinks, Disjoint, PoolEnds, PoolInner, Coalesced, Listed;
    assert InPool(h.pools, b);
    p :| p in h.pools && p <= b <= End(h.pools, p);
  }

  lemma DropChunk(pools: map<nat, nat>, chunks: seq<Growth.Chunk>, p: nat)
    requires PoolsListed(pools, chunks) && chunks != [] && chunks[0].pool == 8 * (p + 1)
    ensures p in pools && PoolsListed(pools - {p}, chunks[1..])
  {
    var rest := chunks[1..];
    assert chunks == [chunks[0]] + rest;
    assert PoolOf(pools, chunks[0]);
    forall i | 0 <= i < |rest| && rest[i].pool != NULL ensures PoolOf(pools - {p}, rest[i]) {
      assert PoolOf(pools, chunks[i + 1]) && chunks[0].pool != chunks[i + 1].pool;
    }
    forall q {:trigger HasChunk(rest, q)} | q in pools - {p} ensures HasChunk(rest, q) {
      assert HasChunk(chunks, q);
      MoreChunks(rest, chunks[0], q);
    }
  }

  lemma NoChunks(pools: map<nat, nat>)
    requires PoolsListed(pools, [])
    ensures pools == map[]
  {
    forall p ensures p !in pools {
      assert p in pools ==> HasChunk([], p);
    }
  }

  lemma ResizeAllowed(l: Ledger, b: nat, len: nat)
    requires ResizeFits(l.h, b, len) && Resizable(l.h, b, len)
    ensures Allowed(l, Resize(b, len))
  {
  }

  // The books after tlsf_realloc with the outcome m.
  lemma ResizeBook(l: Ledger, b: nat, len: nat, m: Outcome)
    requires Allowed(l, Resize(b, len)) && Inv(l.h, {}) && m == AnyRealloc(l.h, b, len)
    ensures Book(l, Resize(b, len)) ==
            Ledger(m.h, Wrap(Wrap(l.used - BlockBytes(l.h.t, b)) + BlockBytes(m.h.t, m.b)),
                   l.debt + if m.b == NULL && b != NULL && len != 0 then BlockBytes(l.h.t, b) else 0)
  {
    hide Inv, AnyRealloc, Fails;
    if b != NULL && len != 0 {
      FailsExactly(l, b, len);
    } else {
      FailsNever(l, b, len);
    }
  }

  lemma FailsNever(l: Ledger, b: nat, len: nat)
    requires b == NULL || len == 0
    ensures !Fails(l, Resize(b, len))
  {
  }

  // A call that books nothing about pools leaves them alone.
  lemma BookPools(l: Ledger, c: Call)
    requires Allowed(l, c) && !c.Extend? && !c.Retract?
    ensures Book(l, c).h.pools == l.h.pools
  {
    hide Policy.Malloc, Policy.Free, Policy.Realloc, Request, MustMove, Inv;
    match c
    case Alloc(len) => MallocPools(l.h, Request(len));
    case Release(b) => FreePools(l.h, b);
    case Resize(b, len) =>
      if b == NULL {
        MallocPools(l.h, Request(len));
      } else if len == 0 {
        FreePools(l.h, b);
      } else {
        ReallocPools(l.h, b, len);
      }
  }

  class MemoryHost {
    const tlsf: Tlsf
    var used: nat
    var rtmemFlag: nat
    var rtmemSum: nat
    var rtmemChunks: seq<Growth.Chunk>
    // how often uv_async_send was called
    var sends: nat
    ghost var debt: nat

    ghost function Books(): Ledger
      reads this, tlsf
    {
      Ledger(tlsf.h, used, debt)
    }

    ghost predicate Valid()
      reads this, tlsf, tlsf.mem, tlsf.slBitmap, tlsf.blocks
    {
      && tlsf.Valid() && Balanced(Books(), tlsf.mem.Length)
      && rtmemSum == Growth.Total(rtmemChunks) % Bits.TWO_64
      && PoolsListed(tlsf.h.pools, rtmemChunks) && Growth.PoolsRight(rtmemChunks)
    }

    // The memory part of _tjost_init: the first chunk holds the control structure
    // of the given size and, behind it, the first pool.
    constructor (words: nat, first: Growth.Chunk, control: nat)
      requires FIRST_BLOCK <= words && 8 * words < TWO_62 / 2 && control <= first.size < Bits.TWO_64
      requires PoolFits(words, first.area + control, first.size - control) &&
               first.area + control >= 8 * (FIRST_BLOCK + 1)
      requires PoolAccepted(first.area + control, first.size - control)
      ensures Valid() && fresh(tlsf) && fresh(tlsf.mem) && fresh(tlsf.slBitmap) && fresh(tlsf.blocks)
      ensures var area, size := first.area + control, first.size - control;
              Books() == Ledger(Policy.AddPool(Empty(), PoolStart(area), PoolWords(size)), 0, 0)
      ensures rtmemChunks == [first.(pool := first.area + control)] && rtmemSum == first.size && rtmemFlag == 0
    {
      hide Inv, Mirror, Kept, Balanced, Policy.AddPool, Policy.Apart, Tlsf.Index, PoolBytes, Empty, PoolsListed;
      tlsf := new Tlsf(words);
      used, rtmemFlag, rtmemSum, rtmemChunks, sends, debt := 0, 0, first.size, [], 0, 0;
      new;
      ghost var area, size := first.area + control, first.size - control;
      NoPools(area, size);
      PoolAcceptedExactly(area, size);
      var pool := tlsf.AddPool(first.area + control, first.size - control);
      rtmemChunks := [first.(pool := pool)];
      StartBalanced(words);
      PoolFitsBooks(words, area, size);
      BookBalanced(Ledger(Empty(), 0, 0), Extend(PoolStart(area), PoolWords(size)), words);
      FirstChunk(rtmemChunks[0], PoolStart(area), PoolWords(size));
    }

    // With the flag clear and more than half used, the flag is raised and one
    // request is sent; otherwise neither changes.
    predicate Asked(flag: nat, sent: nat)
      reads this
    {
      var ask := flag == 0 && used > rtmemSum / 2;
      rtmemFlag == (if ask then 1 else flag) && sends == sent + (if ask then 1 else 0)
    }

    // The end of tjost_alloc and tjost_realloc: ask for memory when more than half is used.
    method AskForMemory()
      modifies this`rtmemFlag, this`sends
      ensures Asked(old(rtmemFlag), old(sends))
    {
      if rtmemFlag == 0 && used > rtmemSum / 2 {
        rtmemFlag := 1;
        sends := sends + 1;
      }
    }

    // tjost_alloc
    method Alloc(len: nat) returns (data: nat)
      requires Fits(Request(len))
      requires Valid()
      modifies this, tlsf, tlsf.mem, tlsf.slBitmap, tlsf.blocks
      ensures Books() == Book(old(Books()), Call.Alloc(len))
      ensures Outcome(tlsf.h, FromPtr(data)) == Policy.Malloc(old(tlsf.h), Request(len))
      ensures data == NULL <==> !Available(old(tlsf.h).t, Request(len))
      ensures data != NULL ==> LivePtr(tlsf.h.t, data) && 8 * tlsf.h.t[FromPtr(data)].words >= len
      ensures data == NULL ==> tlsf.h == old(tlsf.h) && used == old(used)
      ensures Kept(old(tlsf.mem[..]), tlsf.mem[..], old(tlsf.h.t), {})
      ensures rtmemSum == old(rtmemSum) && rtmemChunks == old(rtmemChunks)
      ensures Asked(old(rtmemFlag), old(sends))
      ensures Valid()
    {
      hide Inv, Mirror, Kept, Balanced, Policy.Malloc, Tlsf.Index, Request, PoolsListed, Available, FirstSuitable;
      ghost var books := Books();
      BalancedUsed(books, tlsf.mem.Length);
      data := tlsf.Malloc(len);
      var size := tlsf.UsableSize(data);
      used := (used + size) % Bits.TWO_64;
      assert Books() == Book(books, Call.Alloc(len));
      BookBalanced(books, Call.Alloc(len), tlsf.mem.Length);
      BookPools(books, Call.Alloc(len));
      AskForMemory();
    }

    // tjost_realloc.  When it cannot resize a live block, that block stays live
    // but has been taken off the counter.
    method Realloc(len: nat, buf: nat) returns (data: nat)
      requires buf == NULL || LivePtr(tlsf.h.t, buf)
      requires Resizable(tlsf.h, FromPtr(buf), len) && ResizeFits(tlsf.h, FromPtr(buf), len)
      requires Valid()
      modifies this, tlsf, tlsf.mem, tlsf.slBitmap, tlsf.blocks
      ensures Books() == Book(old(Books()), Resize(FromPtr(buf), len))
      ensures buf != NULL && len != 0 ==> Placed(old(tlsf.h), buf, Request(len), data)
      ensures var lost := data == NULL && buf != NULL && len != 0;
              debt == old(debt) + if lost then old(8 * tlsf.h.t[FromPtr(buf)].words) else 0
      ensures data != NULL ==>
                LivePtr(tlsf.h.t, data) && (len < BLOCK_SIZE_MAX ==> 8 * tlsf.h.t[FromPtr(data)].words >= len)
      ensures data == NULL && len != 0 ==> tlsf.h == old(tlsf.h)
      ensures Kept(old(tlsf.mem[..]), tlsf.mem[..], old(tlsf.h.t), {FromPtr(buf)})
      ensures rtmemSum == old(rtmemSum) && rtmemChunks == old(rtmemChunks)
      ensures Asked(old(rtmemFlag), old(sends))
      ensures Valid()
    {
      hide Inv, Mirror, Kept, Balanced, Policy.Malloc, Policy.Realloc, Policy.Free, Tlsf.Index, Request, PoolsListed,
           MustMove, Available, Growth.Total, Growth.PoolsRight, Book, Allowed, LiveBytes, Placed;
      ghost var books := Books();
      BalancedUsed(books, tlsf.mem.Length);
      ResizeAllowed(books, FromPtr(buf), len);
      var size := tlsf.UsableSize(buf);
      used := (used - size) % Bits.TWO_64;
      data := tlsf.Realloc(buf, len);
      assert Outcome(tlsf.h, FromPtr(data)) == AnyRealloc(books.h, FromPtr(buf), len);
      hide AnyRealloc;
      if data == NULL && buf != NULL && len != 0 {
        debt := debt + size;
      }
      size := tlsf.UsableSize(data);
      used := (used + size) % Bits.TWO_64;
      ResizeBook(books, FromPtr(buf), len, Outcome(tlsf.h, FromPtr(data)));
      BookBalanced(books, Resize(FromPtr(buf), len), tlsf.mem.Length);
      BookPools(books, Resize(FromPtr(buf), len));
      AskForMemory();
    }

    // tjost_free
    method Free(buf: nat)
      requires buf == NULL || LivePtr(tlsf.h.t, buf)
      requires Valid()
      modifies this, tlsf, tlsf.mem, tlsf.slBitmap, tlsf.blocks
      ensures Books() == Book(old(Books()), Release(FromPtr(buf)))
      ensures Kept(old(tlsf.mem[..]), tlsf.mem[..], old(tlsf.h.t), {FromPtr(buf)})
      ensures rtmemSum == old(rtmemSum) && rtmemChunks == old(rtmemChunks) && rtmemFlag == old(rtmemFlag) &&
              sends == old(sends)
      ensures Valid()
    {
      hide Inv, Mirror, Kept, Balanced, Policy.Free, Tlsf.Index, PoolsListed;
      ghost var books := Books();
      BalancedUsed(books, tlsf.mem.Length);
      var size := tlsf.UsableSize(buf);
      used := (used - size) % Bits.TWO_64;
      tlsf.Free(buf);
      assert Books() == Book(books, Release(FromPtr(buf)));
      BookBalanced(books, Release(FromPtr(buf)), tlsf.mem.Length);
      BookPools(books, Release(FromPtr(buf)));
    }

    // tjost_add_memory, given the chunks that the ring holds.  A chunk that
    // tlsf_add_pool rejects, such as a failed mapping, is listed and counted all the same.
    method AddMemory(ring: seq<Growth.Chunk>) returns (rest: seq<Growth.Chunk>)
      requires Valid() && rtmemChunks != []
      requires ring != [] ==>
                 && PoolFits(tlsf.mem.Length, ring[0].area, ring[0].size)
                 && (Growth.Accepted(ring[0]) ==>
                       Policy.Apart(tlsf.h.pools, PoolStart(ring[0].area), PoolWords(ring[0].size)))
      modifies this, tlsf, tlsf.mem, tlsf.slBitmap, tlsf.blocks
      ensures Valid()
      ensures sends == old(sends)
      ensures ring == [] ==>
                rest == [] && Books() == old(Books()) && rtmemChunks == old(rtmemChunks) && rtmemFlag == old(rtmemFlag)
      ensures ring != [] ==>
                rest == ring[1..] && rtmemChunks == [Growth.Added(ring[0])] + old(rtmemChunks) && rtmemFlag == 0
      ensures ring != [] && !Growth.Accepted(ring[0]) ==> Books() == old(Books())
      ensures ring != [] && Growth.Accepted(ring[0]) ==>
                var start, words := PoolStart(ring[0].area), PoolWords(ring[0].size);
                Books() == old(Books()).(h := Policy.AddPool(old(tlsf.h), start, words))
      ensures Kept(old(tlsf.mem[..]), tlsf.mem[..], old(tlsf.h.t), {})
    {
      hide Inv, Mirror, Kept, Balanced, Policy.AddPool, Policy.Apart, Tlsf.Index, PoolBytes, PoolsListed;
      rest := ring;
      KeptSelf(tlsf.mem[..], tlsf.h.t);
      if |ring| >= 1 {
        ghost var books, chunks := Books(), rtmemChunks;
        var chunk := ring[0];
        rest := ring[1..];
        PoolAcceptedExactly(chunk.area, chunk.size);
        var pool := tlsf.AddPool(chunk.area, chunk.size);
        chunk := chunk.(pool := pool);
        rtmemChunks := [chunk] + rtmemChunks;
        if pool != NULL {
          ghost var p, n := PoolStart(chunk.area), PoolWords(chunk.size);
          PoolFitsBooks(tlsf.mem.Length, chunk.area, chunk.size);
          NewStart(books.h.pools, p, n);
          BookBalanced(books, Extend(p, n), tlsf.mem.Length);
          AddPoolKeys(books.h, p, n);
          ListChunk(books.h.pools, chunks, chunk, p, n);
        } else {
          ListRejected(books.h.pools, chunks, chunk);
        }
        Growth.RightCons(ring[0], chunks);
        Growth.TotalCons(chunk, chunks);
        Growth.AddWraps(Growth.Total(chunks), chunk.size);
        rtmemSum := (rtmemSum + chunk.size) % Bits.TWO_64;
        rtmemFlag := 0;
      }
    }

    // tjost_free_memory, when nothing is live any more and every chunk was
    // accepted: all pools are taken out, whatever the order of the chunks.
    method FreeMemory()
      requires NothingAlive(tlsf.h.t)
      requires forall i :: 0 <= i < |rtmemChunks| - 1 ==> Growth.Accepted(rtmemChunks[i])
      requires Valid()
      modifies this, tlsf, tlsf.mem, tlsf.slBitmap, tlsf.blocks
      ensures Valid() && rtmemChunks == [] && rtmemSum == 0
      ensures tlsf.h.pools == map[] && tlsf.h.t == map[] && used == old(used) && debt == old(debt)
    {
      hide Inv, Mirror, Kept, Balanced, Policy.RemovePool, Tlsf.Index, PoolsListed, NothingAlive, Growth.Accepted;
      while rtmemChunks != []
        invariant Valid() && NothingAlive(tlsf.h.t)
        invariant forall i :: 0 <= i < |rtmemChunks| - 1 ==> Growth.Accepted(rtmemChunks[i])
        invariant used == old(used) && debt == old(debt)
        decreases |rtmemChunks|
      {
        ghost var books, chunks := Books(), rtmemChunks;
        var chunk := rtmemChunks[0];
        ghost var p := chunk.pool / 8 - 1;
        FirstPool(books.h, chunks);
        RemoveFirst(books, p);
        BookBalanced(books, Retract(p), tlsf.mem.Length);
        DropChunk(books.h.pools, chunks, p);
        Growth.RightTail(chunks);
        tlsf.RemovePool(chunk.pool);
        Growth.TotalCons(chunk, chunks[1..]);
        assert chunks == [chunk] + chunks[1..];
        TakeOff(Growth.Total(chunks[1..]), chunk.size);
        rtmemSum := (rtmemSum - chunk.size) % Bits.TWO_64;
        rtmemChunks := rtmemChunks[1..];
      }
      NoChunks(tlsf.h.pools);
      NoBlocks(tlsf.h);
    }
  }

  ghost predicate NothingAlive(t: Tiling) {
    forall b :: !Alive(t, b)
  }

  lemma FirstChunk(c: Growth.Chunk, p: nat, n: nat)
    requires c.pool == 8 * (p + 1)
    ensures PoolsListed(Policy.AddPool(Empty(), p, n).pools, [c]) && Growth.Total([c]) == c.size
  {
    hide Empty;
    EmptyPools();
    AddPoolKeys(Empty(), p, n);
    ListChunk(map[], [], c, p, n);
    assert [c] + [] == [c];
  }

  lemma EmptyPools()
    ensures Empty().pools == map[]
  {
  }

  lemma AddPoolKeys(h: State, p: nat, n: nat)
    ensures Policy.AddPool(h, p, n).pools == h.pools[p := n]
  {
  }

  lemma NewStart(pools: map<nat, nat>, p: nat, n: nat)
    requires Policy.Apart(pools, p, n)
    ensures p !in pools
  {
  }

  lemma FirstPool(h: State, chunks: seq<Growth.Chunk>)
    requires Inv(h, {}) && NothingAlive(h.t) && PoolsListed(h.pools, chunks) && chunks != [] && chunks[0].pool != NULL
    ensures var pool := chunks[0].pool;
            pool >= 8 && pool % 8 == 0 && pool == 8 * (pool / 8 - 1 + 1) && Legal(h, OpRemovePool(pool / 8 - 1))
  {
    hide Inv;
    assert PoolOf(h.pools, chunks[0]);
    RemovalExact(h, chunks[0].pool / 8 - 1);
  }

  lemma RemoveFirst(l: Ledger, p: nat)
    requires Legal(l.h, OpRemovePool(p)) && NothingAlive(l.h.t)
    ensures Allowed(l, Retract(p)) && Book(l, Retract(p)) == l.(h := Policy.RemovePool(l.h, p))
    ensures var h' := Policy.RemovePool(l.h, p); NothingAlive(h'.t) && h'.pools == l.h.pools - {p}
  {
    var h' := Policy.RemovePool(l.h, p);
    assert forall b :: b in h'.t ==> b in l.h.t && h'.t[b] == l.h.t[b] && !Alive(l.h.t, b);
  }

  // Without pools there are no blocks.
  lemma NoBlocks(h: State)
    requires Inv(h, {}) && h.pools == map[]
    ensures h.t == map[]
  {
    hide NextLinks, PrevLinks, Disjoint, PoolEnds, PoolInner, Coalesced, Listed;
    forall a ensures a !in h.t {
      assert a in h.t ==> InPool(h.pools, a);
    }
  }

  // Taking out one unused pool leaves every other unused pool as it is.
  lemma StillDrained(h: State, p: nat, q: nat)
    requires Inv(h, {}) && Legal(h, OpRemovePool(p)) && Legal(h, OpRemovePool(q)) && p != q
    ensures Legal(Policy.RemovePool(h, p), OpRemovePool(q))
  {
    hide Inv;
    PoolsDiffer(h, p, q);
    CutElsewhere(h, p, q);
  }

  lemma CutElsewhere(h: State, p: nat, q: nat)
    requires Legal(h, OpRemovePool(q)) && p != q && Next(h.t, p) != q && Next(h.t, q) != p &&
             Next(h.t, p) != Next(h.t, q)
    ensures Legal(Policy.RemovePool(h, p), OpRemovePool(q))
  {
  }

  // Two unused pools share no block.
  lemma PoolsDiffer(h: State, p: nat, q: nat)
    requires Inv(h, {}) && Legal(h, OpRemovePool(p)) && Legal(h, OpRemovePool(q)) && p != q
    ensures Next(h.t, p) != q && Next(h.t, q) != p && Next(h.t, p) != Next(h.t, q)
  {
    hide Inv;
    StartOfPool(h, q);
    StartOfPool(h, p);
    Policy.FreeAlone(h, p);
    Policy.FreeAlone(h, q);
    Neighbours(h, {}, p);
    Neighbours(h, {}, q);
  }

  lemma TakeOff(x: nat, c: nat)
    ensures ((c + x) % Bits.TWO_64 - c) % Bits.TWO_64 == x % Bits.TWO_64
  {
  }

  lemma BalancedUsed(l: Ledger, n: nat)
    requires Balanced(l, n)
    ensures l.used < Bits.TWO_64
  {
  }

  lemma PoolFitsBooks(words: nat, area: nat, size: nat)
    requires PoolFits(words, area, size) && PoolAccepted(area, size) && 8 * words < TWO_62 / 2
    ensures 3 <= PoolWords(size) < MAX_WORDS && area == 8 * (PoolStart(area) + 1)
    ensures PoolStart(area) + 1 + PoolWords(size) < words
    ensures 40 <= size < 0x1_0000_0018
  {
    hide PoolBytes;
    PoolAcceptedExactly(area, size);
  }
}
