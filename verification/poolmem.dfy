// Memory around tlsf_add_pool and tlsf_remove_pool.
module PoolMemory {
  import opened SizeClass
  import opened Heap
  import opened Policy
  import opened Live
  import opened Memory

  // The size field of a pool's first block, over whatever the word held.
  function PoolHeader(w: nat, n: nat): nat {
    WithPrevUsed(WithFree(WithSize(w, 8 * n)))
  }

  function SentinelHeader(w: nat): nat {
    WithPrevFree(WithUsed(WithSize(w, 0)))
  }

  lemma PoolHeaders(w: nat, n: nat)
    ensures PoolHeader(w, n) == Header(n, true, false) && SentinelHeader(w) == Header(0, false, true)
    ensures SizeField(PoolHeader(w, n)) == 8 * n
  {
    hide Header, SizeField, FreeFlag, PrevFlag, WithSize, WithFree, WithUsed, WithPrevFree, WithPrevUsed;
    StaleFlags(w, n);
    StaleFlags(w, 0);
    HeaderFields(n, FreeFlag(w), PrevFlag(w));
    HeaderFields(n, true, PrevFlag(w));
    HeaderFields(n, true, false);
    HeaderFields(0, FreeFlag(w), PrevFlag(w));
    HeaderFields(0, false, PrevFlag(w));
  }

  // The words of the two blocks of a new pool.
  function PoolWrites(m: Words, p: nat, n: nat): (w: Words)
    requires p + 2 + n < |m|
    ensures |w| == |m|
  {
    var s := p + 1 + n;
    m[p + 1 := PoolHeader(m[p + 1], n)][s := p][s + 1 := SentinelHeader(m[s + 1])]
  }

  lemma AddedHeaders(m: Words, t: Tiling, t': Tiling, p: nat, n: nat, s: nat)
    requires Headers(m, t, {}) && IsPoolAdded(t, t', p, n, s) && BlocksApart(t, p, n) && PrevLinks(t) && p > 0 &&
             s + 1 < |m|
    ensures Headers(PoolWrites(m, p, n), t', {})
  {
    PoolHeaders(m[p + 1], n);
    PoolHeaders(m[s + 1], n);
    hide PoolHeader, SentinelHeader, Header;
    var m' := PoolWrites(m, p, n);
    forall a {:trigger HeaderOk(m', t', {}, a)} | a in t' ensures HeaderOk(m', t', {}, a) {
      if a in t {
        assert HeaderOk(m, t, {}, a);
        assert t[a].prev != 0 ==> t[a].prev in t;
      } else {
        assert 0 !in t';
      }
    }
  }

  lemma AddedPhys(m: Words, t: Tiling, t': Tiling, p: nat, n: nat, s: nat)
    requires PhysLinks(m, t, {}) && IsPoolAdded(t, t', p, n, s) && BlocksApart(t, p, n) && s + 1 < |m|
    ensures PhysLinks(PoolWrites(m, p, n), t', {})
  {
    hide PoolHeader, SentinelHeader;
    var m' := PoolWrites(m, p, n);
    forall a {:trigger Next(t', a)} | a in t' && t'[a].free ensures Next(t', a) < |m'| && m'[Next(t', a)] == a {
      if a in t {
        assert Next(t', a) == Next(t, a);
        assert a + 1 + t[a].words <= p || s < a;
      }
    }
  }

  // The first block's header alone, and all the words of the pool, miss the links of listed blocks.
  lemma AddedLinks(m: Words, m': Words, t: Tiling, lists: map<Class, seq<nat>>, p: nat, n: nat)
    requires Links(m, lists) && Nodes(lists, t) && Disjoint(t) && BlocksApart(t, p, n) && |m'| == |m|
    requires forall k :: 0 <= k < |m| && !(p < k <= p + 2 + n) ==> m'[k] == m[k]
    ensures Links(m', lists)
  {
    forall c, i | c in lists && 0 <= i < |lists[c]| && lists[c][i] + 3 < |m|
      ensures m'[lists[c][i] + 2] == m[lists[c][i] + 2] && m'[lists[c][i] + 3] == m[lists[c][i] + 3]
    {
      var a := lists[c][i];
      assert a in t && t[a].words >= 3;
    }
    LinksFrame(m, m', lists);
  }

  lemma AddedKept(m: Words, m': Words, t: Tiling, p: nat, n: nat)
    requires BlocksApart(t, p, n) && |m'| == |m|
    requires forall k :: 0 <= k < |m| && !(p < k <= p + 2 + n) ==> m'[k] == m[k]
    ensures Kept(m, m', t, {})
  {
    forall a: nat, k: nat {:trigger Used(t, a), m'[k]} | Used(t, a) && a + 2 <= k <= a + 1 + t[a].words && k < |m|
      ensures m'[k] == m[k]
    {
      assert a in t;
    }
  }

  ghost predicate NewPool(m: Words, h: State, p: nat, n: nat) {
    Inv(h, {}) && Mirror(m, h, {}, {}) && 3 <= n < MAX_WORDS && Apart(h.pools, p, n) && p + 2 + n < |m|
  }

  lemma NewPoolFacts(m: Words, h: State, p: nat, n: nat)
    requires NewPool(m, h, p, n)
    ensures FIRST_BLOCK <= p && BlocksApart(h.t, p, n) && Nodes(h.lists, h.t) && Disjoint(h.t) && PrevLinks(h.t)
    ensures IsPoolAdded(h.t, PoolBlocks(h, p, n).t, p, n, p + 1 + n) && Inv(PoolBlocks(h, p, n), {p})
    ensures Next(PoolBlocks(h, p, n).t, p) == p + 1 + n && !PrevFree(PoolBlocks(h, p, n).t, p)
  {
    hide Links, Headers, PhysLinks, MappingInsert, NextLinks, PoolInner;
    ApartFromBlocks(h.t, h.pools, p, n);
    PoolBlocksAdded(h, p, n);
    ListedNodes(h, {});
    GeometryOf(h, {});
    hide Inv, Mirror;
    AddedInv(h, PoolBlocks(h, p, n).t, p, n, p + 1 + n);
    hide NextLinks, PrevLinks, Disjoint, Pools, Coalesced, Listed, Headers, PhysLinks, Links, Nodes, IsPoolAdded,
         BlocksApart;
  }

  lemma PoolWritesInside(m: Words, p: nat, n: nat)
    requires p + 2 + n < |m|
    ensures forall k :: 0 <= k < |m| && !(p < k <= p + 2 + n) ==> PoolWrites(m, p, n)[k] == m[k]
  {
    hide PoolHeader, SentinelHeader;
  }

  lemma PoolWordsWritten(m: Words, h: State, t': Tiling, p: nat, n: nat, s: nat)
    requires Headers(m, h.t, {}) && PhysLinks(m, h.t, {}) && Links(m, h.lists) && p + 2 + n < |m|
    requires p > 0 && BlocksApart(h.t, p, n) && Nodes(h.lists, h.t) && Disjoint(h.t) && PrevLinks(h.t)
    requires IsPoolAdded(h.t, t', p, n, s)
    ensures var m' := PoolWrites(m, p, n);
            Headers(m', t', {}) && PhysLinks(m', t', {}) && Links(m', h.lists) && Kept(m, m', h.t, {})
  {
    assert s == p + 1 + n;
    hide BlocksApart, Nodes, Headers, PhysLinks, Links, Kept, Disjoint, PrevLinks, IsPoolAdded, PoolWrites;
    AddedHeaders(m, h.t, t', p, n, s);
    AddedPhys(m, h.t, t', p, n, s);
    PoolWritesInside(m, p, n);
    AddedLinks(m, PoolWrites(m, p, n), h.t, h.lists, p, n);
    AddedKept(m, PoolWrites(m, p, n), h.t, p, n);
  }

  // With the whole pool written, memory mirrors the state before the block is listed.
  lemma PoolWritten(m: Words, h: State, p: nat, n: nat)
    requires NewPool(m, h, p, n)
    ensures Mirror(PoolWrites(m, p, n), PoolBlocks(h, p, n), {}, {}) && Kept(m, PoolWrites(m, p, n), h.t, {})
  {
    hide Inv, PoolWrites, IsPoolAdded, BlocksApart, Nodes, Headers, PhysLinks, Links, Kept, Disjoint, PrevLinks;
    NewPoolFacts(m, h, p, n);
    PoolWordsWritten(m, h, PoolBlocks(h, p, n).t, p, n, p + 1 + n);
  }

  // The head of a list is away from the new pool.
  lemma HeadApart(m: Words, h: State, p: nat, n: nat, c: Class)
    requires NewPool(m, h, p, n) && c in h.lists
    ensures var head := HeadOf(h.lists, c); head + 4 <= p || p + 2 + n <= head
  {
    NewPoolFacts(m, h, p, n);
    hide Inv, Mirror;
    if h.lists[c] != [] {
      var a := h.lists[c][0];
      assert a in h.t && h.t[a].words >= 3;
    }
  }

  // Listing the block before or after the sentinel is written comes to the same.
  lemma InsertFirst(m: Words, p: nat, n: nat, head: nat)
    requires p + 2 + n < |m| && n >= 3 && (head + 4 <= p || p + 2 + n <= head) && head + 3 < |m|
    ensures p + 3 < |m|
    ensures var s := p + 1 + n;
            var m1 := m[p + 1 := PoolHeader(m[p + 1], n)];
            var m2 := PushFront(m1, head, p);
            && m2[p + 1] == m1[p + 1]
            && m2[s := p][s + 1 := SentinelHeader(m2[s + 1])] == PushFront(PoolWrites(m, p, n), head, p)
  {
    hide PoolHeader, SentinelHeader;
  }

  lemma SameUsedAdded(t: Tiling, t': Tiling, p: nat, n: nat, s: nat)
    requires IsPoolAdded(t, t', p, n, s) && BlocksApart(t, p, n)
    ensures SameUsed(t, t', {s}) && !Used(t, s)
  {
  }

  // tlsf_add_pool in memory.
  lemma AddPoolMirror(m: Words, h: State, p: nat, n: nat)
    requires NewPool(m, h, p, n)
    ensures AddedPool(m, h, p, n)
  {
    hide Inv, Mirror, Kept, PushFront, PoolWrites, ClassOf, Insert;
    NewPoolFacts(m, h, p, n);
    PoolWritten(m, h, p, n);
    var h1, s := PoolBlocks(h, p, n), p + 1 + n;
    InsertMirror(PoolWrites(m, p, n), h1, {p}, p, {}, {});
    var m' := PushFront(PoolWrites(m, p, n), HeadOf(h1.lists, ClassOf(h1.t, p)), p);
    SameUsedAdded(h.t, h1.t, p, n, s);
    KeptMore(m, PoolWrites(m, p, n), h.t, {}, {s});
    KeptMore(PoolWrites(m, p, n), m', h1.t, {}, {s});
    KeptTrans(m, PoolWrites(m, p, n), m', h.t, h1.t, {s});
    KeptUnused(m, m', h.t, s);
  }

  ghost predicate AddedPool(m: Words, h: State, p: nat, n: nat) {
    var h1 := PoolBlocks(h, p, n);
    var head := HeadOf(h1.lists, ClassOf(h1.t, p));
    && p + 2 + n < |m| && n >= 3 && head + 3 < |m|
    && var m' := PushFront(PoolWrites(m, p, n), head, p);
    && Mirror(m', AddPool(h, p, n), {}, {}) && Kept(m, m', h.t, {})
  }
}
