// The allocator's state seen from outside its memory: how blocks tile the
// pools, and which free block is in which list.
//
// Addresses are word addresses (one word is 8 bytes), so the block header at a
// has its prev_phys_block field in word a, its size field in word a + 1, its
// free-list links in words a + 2 and a + 3, and its payload from word a + 2 on.
// The header of the physically next block is at a + 1 + words.
module Heap {
  import opened SizeClass

  const NULL: nat := 0
  const BLOCK_NULL: nat := 1
  const FIRST_BLOCK: nat := 5
  const MAX_WORDS: nat := 0x2000_0000

  // words: the size in words.  prev: the physically preceding block, 0 for the first of a pool.
  datatype Block = Block(words: nat, free: bool, prev: nat)

  type Tiling = map<nat, Block>

  // pools maps the first header of a pool to the words of its one initial block.
  datatype State = State(t: Tiling, lists: map<Class, seq<nat>>, pools: map<nat, nat>)

  // The block at a; where there is none, a used block without payload.
  function At(t: Tiling, a: nat): Block {
    if a in t then t[a] else Block(0, false, 0)
  }

  function Next(t: Tiling, a: nat): nat {
    a + 1 + At(t, a).words
  }

  // The sentinel of a pool.
  function End(pools: map<nat, nat>, p: nat): nat
    requires p in pools
  {
    p + 1 + pools[p]
  }

  function ClassOf(t: Tiling, a: nat): Class {
    MappingInsert(8 * At(t, a).words)
  }

  predicate PrevFree(t: Tiling, a: nat) {
    At(t, At(t, a).prev).free
  }

  function ListAt(lists: map<Class, seq<nat>>, c: Class): seq<nat> {
    if c in lists then lists[c] else []
  }

  // ---------------------------------------------------------------- the invariant

  // Every block with a payload is followed by a block that knows it as its predecessor.
  ghost predicate NextLinks(t: Tiling) {
    forall a {:trigger Next(t, a)} :: a in t && t[a].words > 0 ==>
      Next(t, a) in t && t[Next(t, a)].prev == a
  }

  ghost predicate PrevLinks(t: Tiling) {
    forall a {:trigger t[a].prev} :: a in t && t[a].prev != 0 ==>
      t[a].prev in t && t[t[a].prev].words > 0 && Next(t, t[a].prev) == a
  }

  // No block overlaps a later one, nor the control structure; a payload has room for the links.
  ghost predicate Disjoint(t: Tiling) {
    && (forall a :: a in t ==> FIRST_BLOCK <= a && (t[a].words == 0 || t[a].words >= 3))
    && (forall a, b :: a in t && b in t && a < b ==> a + 1 + t[a].words <= b)
  }

  ghost predicate Geometry(t: Tiling) {
    NextLinks(t) && PrevLinks(t) && Disjoint(t)
  }

  ghost predicate InPool(pools: map<nat, nat>, a: nat) {
    exists p :: p in pools && p <= a <= End(pools, p)
  }

  // Every pool starts at a block and ends at its zero-size sentinel, ...
  ghost predicate PoolEnds(t: Tiling, pools: map<nat, nat>) {
    forall p :: p in pools ==>
      && p in t && t[p].prev == 0 && 3 <= pools[p] < MAX_WORDS
      && End(pools, p) in t && t[End(pools, p)].words == 0
  }

  // ... and between the two every block has a payload.
  ghost predicate PoolInner(t: Tiling, pools: map<nat, nat>) {
    && (forall p, a :: p in pools && a in t && p <= a < End(pools, p) ==> t[a].words > 0)
    && (forall a :: a in t && t[a].words == 0 ==> !t[a].free)
  }

  // Pools do not overlap, and there is no block outside them.
  ghost predicate PoolCover(t: Tiling, pools: map<nat, nat>) {
    && (forall p, q :: p in pools && q in pools && p < q ==> End(pools, p) < q)
    && (forall a {:trigger InPool(pools, a)} :: a in t ==> InPool(pools, a))
  }

  ghost predicate Pools(t: Tiling, pools: map<nat, nat>) {
    PoolEnds(t, pools) && PoolInner(t, pools) && PoolCover(t, pools)
  }

  // No two physically adjacent blocks are free, except around the blocks of x.
  ghost predicate Coalesced(t: Tiling, x: set<nat>) {
    forall a {:trigger Next(t, a)} :: a in t && t[a].free && Next(t, a) in t && t[Next(t, a)].free ==>
      a in x || Next(t, a) in x
  }

  ghost predicate NoDuplicates(s: seq<nat>) {
    forall i, j :: 0 <= i < j < |s| ==> s[i] != s[j]
  }

  // The free blocks outside x are in exactly the list their size maps to, once.
  ghost predicate Listed(t: Tiling, lists: map<Class, seq<nat>>, x: set<nat>) {
    && (forall c: Class :: c in lists <==> c.InTable())
    && (forall c, i :: c in lists && 0 <= i < |lists[c]| ==>
          lists[c][i] in t && t[lists[c][i]].free && lists[c][i] !in x && ClassOf(t, lists[c][i]) == c)
    && (forall a :: a in t && t[a].free && a !in x ==> ClassOf(t, a) in lists && a in lists[ClassOf(t, a)])
    && (forall c :: c in lists ==> NoDuplicates(lists[c]))
  }

  // x holds the free blocks that an operation has in hand and that are in no list.
  ghost predicate Inv(h: State, x: set<nat>) {
    Geometry(h.t) && Pools(h.t, h.pools) && Coalesced(h.t, x) && Listed(h.t, h.lists, x)
  }

  // What the invariant says about one block with a payload and its two neighbours.
  lemma Neighbours(h: State, x: set<nat>, b: nat)
    requires Inv(h, x) && b in h.t && h.t[b].words > 0
    ensures FIRST_BLOCK <= b && 3 <= h.t[b].words < MAX_WORDS && ClassOf(h.t, b).InTable()
    ensures var e := Next(h.t, b);
            && e in h.t && h.t[e].prev == b
            && (h.t[e].free ==> h.t[e].words > 0 && Next(h.t, e) in h.t && h.t[Next(h.t, e)].prev == e)
            && (h.t[e].free && h.t[b].free ==> b in x || e in x)
    ensures PrevFree(h.t, b) ==>
              var p := h.t[b].prev;
              && p != 0 && p != b && p in h.t && h.t[p].free && h.t[p].words > 0 && Next(h.t, p) == b
              && (h.t[b].free ==> b in x || p in x)
  {
    WordsBound(h, x, b);
    hide Listed, PoolEnds, PoolCover, MappingInsert;
    var e := Next(h.t, b);
    if h.t[e].free {
      assert Next(h.t, e) in h.t;
    }
  }

  lemma WordsBound(h: State, x: set<nat>, a: nat)
    requires Inv(h, x) && a in h.t
    ensures h.t[a].words < MAX_WORDS && ClassOf(h.t, a).InTable()
  {
    hide MappingInsert, NextLinks, PrevLinks, Coalesced, Listed, PoolInner;
    assert InPool(h.pools, a);
    var p :| p in h.pools && p <= a <= End(h.pools, p);
    WordsFit(h, x, p, a);
    InsertInTable(8 * h.t[a].words);
  }

  lemma WordsFit(h: State, x: set<nat>, p: nat, a: nat)
    requires Inv(h, x) && a in h.t && p in h.pools && p <= a <= End(h.pools, p)
    ensures h.t[a].words < MAX_WORDS
  {
    hide NextLinks, PrevLinks, Coalesced, Listed, PoolInner, PoolCover;
    assert a != End(h.pools, p) ==> a + 1 + h.t[a].words <= End(h.pools, p);
  }

  // ---------------------------------------------------------------- sequences without repetition

  function IndexOf(s: seq<nat>, b: nat): (i: nat)
    requires b in s
    ensures i < |s| && s[i] == b
  {
    if s[0] == b then 0 else 1 + IndexOf(s[1..], b)
  }

  // s without its element number i.
  function Cut(s: seq<nat>, i: nat): (r: seq<nat>)
    requires i < |s|
    ensures |r| == |s| - 1
  {
    s[..i] + s[i + 1..]
  }

  function Without(s: seq<nat>, b: nat): seq<nat> {
    if b in s then Cut(s, IndexOf(s, b)) else s
  }

  lemma WithoutMembers(s: seq<nat>, b: nat)
    requires NoDuplicates(s)
    ensures NoDuplicates(Without(s, b))
    ensures forall a :: a in Without(s, b) <==> a in s && a != b
  {
    if b in s {
      var i, r := IndexOf(s, b), Without(s, b);
      CutAt(s, i);
      forall a ensures a in r <==> a in s && a != b {
        if a in s && a != b {
          var j :| 0 <= j < |s| && s[j] == a;
          assert r[if j < i then j else j - 1] == a;
        }
      }
    }
  }

  lemma CutAt(s: seq<nat>, i: nat)
    requires NoDuplicates(s) && i < |s|
    ensures NoDuplicates(Cut(s, i)) && s[i] !in Cut(s, i)
  {
  }

  // ---------------------------------------------------------------- the steps

  // Take b off its list.
  function Remove(h: State, b: nat): State {
    var c := ClassOf(h.t, b);
    h.(lists := h.lists[c := Without(ListAt(h.lists, c), b)])
  }

  // Put b at the head of its list.
  function Insert(h: State, b: nat): State {
    var c := ClassOf(h.t, b);
    h.(lists := h.lists[c := [b] + ListAt(h.lists, c)])
  }

  function SetFree(t: Tiling, b: nat, free: bool): Tiling {
    t[b := At(t, b).(free := free)]
  }

  // Cut b down to n words; the rest becomes a free block.
  function Split(t: Tiling, b: nat, n: nat): Tiling
    requires n < At(t, b).words
  {
    t[b := At(t, b).(words := n)]
     [b + 1 + n := Block(At(t, b).words - n - 1, true, b)]
     [Next(t, b) := At(t, Next(t, b)).(prev := b + 1 + n)]
  }

  // Let b swallow the block that follows it.
  function Absorb(t: Tiling, b: nat): Tiling {
    var q := Next(t, b);
    (t - {q})
     [b := At(t, b).(words := At(t, b).words + 1 + At(t, q).words)]
     [Next(t, q) := At(t, Next(t, q)).(prev := b)]
  }

  lemma RemoveInv(h: State, b: nat, x: set<nat>)
    requires Inv(h, x) && b in h.t && h.t[b].free && b !in x
    ensures ClassOf(h.t, b) in h.lists && b in h.lists[ClassOf(h.t, b)]
    ensures Inv(Remove(h, b), x + {b})
  {
    hide Geometry, Pools, Listed;
    RemoveListed(h, b, x);
  }

  lemma RemoveListed(h: State, b: nat, x: set<nat>)
    requires Listed(h.t, h.lists, x) && b in h.t && h.t[b].free && b !in x
    ensures ClassOf(h.t, b) in h.lists && b in h.lists[ClassOf(h.t, b)]
    ensures Listed(h.t, Remove(h, b).lists, x + {b})
  {
    hide ClassOf, Without, NoDuplicates;
    var c := ClassOf(h.t, b);
    WithoutMembers(h.lists[c], b);
    var h' := Remove(h, b);
    forall d, k | d in h'.lists && 0 <= k < |h'.lists[d]|
      ensures var a := h'.lists[d][k]; a in h.t && h.t[a].free && a !in x + {b} && ClassOf(h.t, a) == d
    {
      var a := h'.lists[d][k];
      assert a in h'.lists[d] && a in h.lists[d];
      var j :| 0 <= j < |h.lists[d]| && h.lists[d][j] == a;
    }
  }

  lemma InsertListed(t: Tiling, lists: map<Class, seq<nat>>, b: nat, x: set<nat>)
    requires Listed(t, lists, x) && b in x && b in t && t[b].free && ClassOf(t, b).InTable()
    ensures b !in lists[ClassOf(t, b)]
    ensures Listed(t, lists[ClassOf(t, b) := [b] + lists[ClassOf(t, b)]], x - {b})
  {
    hide ClassOf;
    var c := ClassOf(t, b);
    assert b !in lists[c];
    var s := [b] + lists[c];
    assert forall i :: 1 <= i < |s| ==> s[i] == lists[c][i - 1];
    assert NoDuplicates(s);
    assert forall a :: a in lists[c] ==> a in s;
    assert s[0] == b;
    var lists' := lists[c := s];
    assert forall d :: d in lists' && d != c ==> lists'[d] == lists[d];
  }

  lemma InsertInv(h: State, b: nat, x: set<nat>)
    requires Inv(h, x) && b in x && b in h.t && h.t[b].free && h.t[b].words > 0
    requires h.t[Next(h.t, b)].free ==> Next(h.t, b) in x - {b}
    requires PrevFree(h.t, b) ==> h.t[b].prev in x - {b}
    ensures ClassOf(h.t, b) in h.lists && b !in h.lists[ClassOf(h.t, b)]
    ensures Inv(Insert(h, b), x - {b})
  {
    WordsBound(h, x, b);
    InsertListed(h.t, h.lists, b, x);
    hide ClassOf, Pools, Listed;
  }

  // Geometry depends on where blocks are, not on which are free.
  lemma SameGeometry(t: Tiling, t': Tiling)
    requires Geometry(t) && t'.Keys == t.Keys
    requires forall a :: a in t ==> t'[a].words == t[a].words && t'[a].prev == t[a].prev
    ensures Geometry(t')
  {
    assert forall a :: a in t ==> Next(t', a) == Next(t, a);
  }

  lemma SetFreeListed(t: Tiling, lists: map<Class, seq<nat>>, b: nat, free: bool, x: set<nat>)
    requires Listed(t, lists, x) && b in t && (t[b].free ==> b in x)
    ensures Listed(SetFree(t, b, free), lists, if free then x + {b} else x - {b})
  {
    var t' := SetFree(t, b, free);
    assert forall a :: a in t ==> ClassOf(t', a) == ClassOf(t, a);
    hide ClassOf;
    assert forall c :: c in lists ==> b !in lists[c];
  }
  
  lemma SetFreeCoalesced(t: Tiling, b: nat, free: bool, x: set<nat>)
    requires Coalesced(t, x) && b in t && (t[b].free ==> b in x)
    ensures Coalesced(SetFree(t, b, free), if free then x + {b} else x - {b})
  {
    var t', x' := SetFree(t, b, free), if free then x + {b} else x - {b};
    forall a {:trigger Next(t', a)} | a in t' && t'[a].free && Next(t', a) in t' && t'[Next(t', a)].free
      ensures a in x' || Next(t', a) in x'
    {
      assert Next(t', a) == Next(t, a);
    }
  }

  lemma SetFreePools(t: Tiling, pools: map<nat, nat>, b: nat, free: bool)
    requires Pools(t, pools) && b in t && t[b].words > 0
    ensures Pools(SetFree(t, b, free), pools)
  {
  }

  // ---------------------------------------------------------------- splitting

  // t' is t with b cut down to n words; r is the free rest and e the block after it.
  ghost predicate IsSplit(t: Tiling, t': Tiling, b: nat, n: nat, r: nat, e: nat) {
    && b in t && n >= 3 && t[b].words >= n + 4
    && r == b + 1 + n && r !in t && e == Next(t, b) && e in t && e != b
    && (forall a :: a in t' <==> a in t || a == r)
    && t'[b] == t[b].(words := n)
    && t'[r] == Block(t[b].words - n - 1, true, b)
    && t'[e] == t[e].(prev := r)
    && forall a {:trigger t'[a]} {:trigger t[a]} :: a in t && a != b && a != e ==> t'[a] == t[a]
  }

  lemma SplitIsSplit(t: Tiling, b: nat, n: nat)
    requires Geometry(t) && b in t && n >= 3 && t[b].words >= n + 4
    ensures Next(t, b) in t && IsSplit(t, Split(t, b, n), b, n, b + 1 + n, Next(t, b))
  {
  }

  lemma SplitNextAt(t: Tiling, t': Tiling, b: nat, n: nat, r: nat, e: nat, a: nat)
    requires Geometry(t) && IsSplit(t, t', b, n, r, e) && a in t' && t'[a].words > 0
    ensures Next(t', a) in t' && t'[Next(t', a)].prev == a
  {
    hide PrevLinks;
    if a != b && a != r {
      assert Next(t', a) == Next(t, a);
      assert t[Next(t, a)].prev == a;
      assert Next(t, a) != e && Next(t, a) != r;
    }
  }

  lemma SplitNext(t: Tiling, t': Tiling, b: nat, n: nat, r: nat, e: nat)
    requires Geometry(t) && IsSplit(t, t', b, n, r, e)
    ensures NextLinks(t')
  {
    forall a {:trigger Next(t', a)} | a in t' && t'[a].words > 0
      ensures Next(t', a) in t' && t'[Next(t', a)].prev == a
    {
      SplitNextAt(t, t', b, n, r, e, a);
    }
  }

  lemma SplitPrev(t: Tiling, t': Tiling, b: nat, n: nat, r: nat, e: nat)
    requires Geometry(t) && IsSplit(t, t', b, n, r, e)
    ensures PrevLinks(t')
  {
    forall a {:trigger t'[a].prev} | a in t' && t'[a].prev != 0
      ensures t'[a].prev in t' && t'[t'[a].prev].words > 0 && Next(t', t'[a].prev) == a
    {
      if a != r && a != e {
        var p := t[a].prev;
        assert t'[a].prev == p;
        assert p != b;
        assert Next(t', p) == Next(t, p);
      }
    }
  }

  lemma SplitGeometry(t: Tiling, t': Tiling, b: nat, n: nat, r: nat, e: nat)
    requires Geometry(t) && IsSplit(t, t', b, n, r, e)
    ensures Geometry(t')
  {
    SplitNext(t, t', b, n, r, e);
    SplitPrev(t, t', b, n, r, e);
    hide NextLinks, PrevLinks;
  }

  lemma SplitPools(t: Tiling, t': Tiling, pools: map<nat, nat>, b: nat, n: nat, r: nat, e: nat)
    requires Geometry(t) && Pools(t, pools) && IsSplit(t, t', b, n, r, e)
    ensures Pools(t', pools)
  {
    assert t[e].prev == b && b != 0;
    hide *;
    SplitEnds(t, t', pools, b, n, r, e);
    SplitInner(t, t', pools, b, n, r, e);
    SplitCover(t, t', pools, b, n, r, e);
  }

  lemma SplitEnds(t: Tiling, t': Tiling, pools: map<nat, nat>, b: nat, n: nat, r: nat, e: nat)
    requires PoolEnds(t, pools) && IsSplit(t, t', b, n, r, e) && t[e].prev == b && b != 0
    ensures PoolEnds(t', pools)
  {
  }

  lemma SplitInner(t: Tiling, t': Tiling, pools: map<nat, nat>, b: nat, n: nat, r: nat, e: nat)
    requires PoolInner(t, pools) && IsSplit(t, t', b, n, r, e)
    ensures PoolInner(t', pools)
  {
  }

  lemma SplitCover(t: Tiling, t': Tiling, pools: map<nat, nat>, b: nat, n: nat, r: nat, e: nat)
    requires Disjoint(t) && PoolEnds(t, pools) && PoolCover(t, pools) && IsSplit(t, t', b, n, r, e)
    ensures PoolCover(t', pools)
  {
    assert InPool(pools, b);
    var p :| p in pools && p <= b <= End(pools, p);
    assert b != End(pools, p);
    assert InPool(pools, r);
  }

  lemma SplitCoalesced(t: Tiling, t': Tiling, b: nat, n: nat, r: nat, e: nat, x: set<nat>)
    requires IsSplit(t, t', b, n, r, e) && Coalesced(t, x) && (t[b].free ==> b in x)
    ensures Coalesced(t', x + {r})
  {
    forall a {:trigger Next(t', a)} | a in t' && t'[a].free && Next(t', a) in t' && t'[Next(t', a)].free
      ensures a in x + {r} || Next(t', a) in x + {r}
    {
      if a != b && a != r {
        assert Next(t', a) == Next(t, a);
      }
    }
  }

  lemma SplitListed(t: Tiling, t': Tiling, lists: map<Class, seq<nat>>, b: nat, n: nat, r: nat, e: nat, x: set<nat>)
    requires Listed(t, lists, x) && IsSplit(t, t', b, n, r, e) && (t[b].free ==> b in x)
    ensures Listed(t', lists, x + {r})
  {
    hide MappingInsert;
    assert forall c :: c in lists ==> b !in lists[c];
    assert forall a {:trigger ClassOf(t', a)} :: a in t && a != b ==> ClassOf(t', a) == ClassOf(t, a);
  }

  lemma SplitInv(h: State, b: nat, n: nat, x: set<nat>)
    requires Inv(h, x) && b in h.t && (h.t[b].free ==> b in x)
    requires n >= 3 && h.t[b].words >= n + 4
    ensures Next(h.t, b) in h.t && b + 1 + n !in h.t
    ensures Inv(h.(t := Split(h.t, b, n)), x + {b + 1 + n})
  {
    hide Geometry, Pools, Coalesced, Listed, Split;
    SplitIsSplit(h.t, b, n);
    var t', r, e := Split(h.t, b, n), b + 1 + n, Next(h.t, b);
    SplitGeometry(h.t, t', b, n, r, e);
    SplitPools(h.t, t', h.pools, b, n, r, e);
    SplitCoalesced(h.t, t', b, n, r, e, x);
    SplitListed(h.t, t', h.lists, b, n, r, e, x);
  }

  // ---------------------------------------------------------------- absorbing

  // t' is t with b grown over the block q behind it; e is the block after q.
  ghost predicate IsAbsorb(t: Tiling, t': Tiling, b: nat, q: nat, e: nat) {
    && b in t && t[b].words > 0 && q == Next(t, b) && q in t && t[q].words > 0 && e == Next(t, q) && e in t
    && b != q && q != e && b != e
    && (forall a :: a in t' <==> a in t && a != q)
    && t'[b] == t[b].(words := t[b].words + 1 + t[q].words)
    && t'[e] == t[e].(prev := b)
    && forall a {:trigger t'[a]} {:trigger t[a]} :: a in t && a != b && a != q && a != e ==> t'[a] == t[a]
  }

  lemma AbsorbIsAbsorb(t: Tiling, b: nat)
    requires Geometry(t) && b in t && t[b].words > 0 && t[Next(t, b)].words > 0
    ensures var q := Next(t, b); q in t && Next(t, q) in t && IsAbsorb(t, Absorb(t, b), b, q, Next(t, q))
  {
    hide Absorb, IsAbsorb, PrevLinks;
    var q := Next(t, b);
    assert q in t && b < q;
    assert Next(t, q) in t && q < Next(t, q);
    AbsorbShape(t, b, q);
  }

  lemma AbsorbShape(t: Tiling, b: nat, q: nat)
    requires b in t && t[b].words > 0 && q == Next(t, b) && q in t && t[q].words > 0 && Next(t, q) in t &&
             b < q < Next(t, q)
    ensures IsAbsorb(t, Absorb(t, b), b, q, Next(t, q))
  {
  }

  lemma AbsorbNext(t: Tiling, t': Tiling, b: nat, q: nat, e: nat)
    requires Geometry(t) && IsAbsorb(t, t', b, q, e)
    ensures NextLinks(t')
  {
    forall a {:trigger Next(t', a)} | a in t' && t'[a].words > 0
      ensures Next(t', a) in t' && t'[Next(t', a)].prev == a
    {
      if a != b {
        assert Next(t', a) == Next(t, a);
        assert t[Next(t, a)].prev == a;
      }
    }
  }

  lemma AbsorbPrev(t: Tiling, t': Tiling, b: nat, q: nat, e: nat)
    requires Geometry(t) && IsAbsorb(t, t', b, q, e)
    ensures PrevLinks(t')
  {
    forall a {:trigger t'[a].prev} | a in t' && t'[a].prev != 0
      ensures t'[a].prev in t' && t'[t'[a].prev].words > 0 && Next(t', t'[a].prev) == a
    {
      if a != e {
        var p := t[a].prev;
        assert t'[a].prev == p && p != q && p != b;
        assert Next(t', p) == Next(t, p);
      }
    }
  }

  lemma AbsorbGeometry(t: Tiling, t': Tiling, b: nat, q: nat, e: nat)
    requires Geometry(t) && IsAbsorb(t, t', b, q, e)
    ensures Geometry(t')
  {
    AbsorbNext(t, t', b, q, e);
    AbsorbPrev(t, t', b, q, e);
    hide NextLinks, PrevLinks;
  }

  lemma AbsorbPools(t: Tiling, t': Tiling, pools: map<nat, nat>, b: nat, q: nat, e: nat)
    requires Geometry(t) && Pools(t, pools) && IsAbsorb(t, t', b, q, e)
    ensures Pools(t', pools)
  {
    assert t[q].prev == b && b != 0 && t[e].prev == q && q != 0;
    hide *;
    AbsorbEnds(t, t', pools, b, q, e);
    AbsorbInner(t, t', pools, b, q, e);
    AbsorbCover(t, t', pools, b, q, e);
  }

  lemma AbsorbEnds(t: Tiling, t': Tiling, pools: map<nat, nat>, b: nat, q: nat, e: nat)
    requires PoolEnds(t, pools) && IsAbsorb(t, t', b, q, e) && t[q].prev == b && b != 0 && t[e].prev == q && q != 0
    ensures PoolEnds(t', pools)
  {
  }

  lemma AbsorbInner(t: Tiling, t': Tiling, pools: map<nat, nat>, b: nat, q: nat, e: nat)
    requires PoolInner(t, pools) && IsAbsorb(t, t', b, q, e)
    ensures PoolInner(t', pools)
  {
  }

  lemma AbsorbCover(t: Tiling, t': Tiling, pools: map<nat, nat>, b: nat, q: nat, e: nat)
    requires PoolCover(t, pools) && IsAbsorb(t, t', b, q, e)
    ensures PoolCover(t', pools)
  {
  }

  lemma AbsorbCoalesced(t: Tiling, t': Tiling, b: nat, q: nat, e: nat, x: set<nat>)
    requires NextLinks(t) && IsAbsorb(t, t', b, q, e) && Coalesced(t, x) && (t[b].free ==> b in x)
    ensures Coalesced(t', x - {q})
  {
    forall a {:trigger Next(t', a)} | a in t' && t'[a].free && Next(t', a) in t' && t'[Next(t', a)].free
      ensures a in x - {q} || Next(t', a) in x - {q}
    {
      if a != b {
        assert Next(t', a) == Next(t, a);
      }
    }
  }

  lemma AbsorbListed(t: Tiling, t': Tiling, lists: map<Class, seq<nat>>, b: nat, q: nat, e: nat, x: set<nat>)
    requires Listed(t, lists, x) && IsAbsorb(t, t', b, q, e) && (t[b].free ==> b in x) && q in x
    ensures Listed(t', lists, x - {q})
  {
    hide MappingInsert;
    assert forall c :: c in lists ==> b !in lists[c] && q !in lists[c];
    assert forall a {:trigger ClassOf(t', a)} :: a in t' && a != b ==> ClassOf(t', a) == ClassOf(t, a);
  }

  lemma AbsorbInv(h: State, b: nat, x: set<nat>)
    requires Inv(h, x) && b in h.t && h.t[b].words > 0 && (h.t[b].free ==> b in x)
    requires var q := Next(h.t, b); q in x && h.t[q].free
    ensures Next(h.t, Next(h.t, b)) in h.t
    ensures Inv(h.(t := Absorb(h.t, b)), x - {Next(h.t, b)})
  {
    assert h.t[Next(h.t, b)].words > 0;
    AbsorbIsAbsorb(h.t, b);
    var t', q := Absorb(h.t, b), Next(h.t, b);
    var e := Next(h.t, q);
    AbsorbGeometry(h.t, t', b, q, e);
    AbsorbPools(h.t, t', h.pools, b, q, e);
    AbsorbCoalesced(h.t, t', b, q, e, x);
    AbsorbListed(h.t, t', h.lists, b, q, e, x);
    hide Geometry, Pools, Coalesced, Listed;
  }

  lemma ClassListed(h: State, x: set<nat>, c: Class)
    requires Inv(h, x) && c.InTable()
    ensures c in h.lists && ListAt(h.lists, c) == h.lists[c]
    ensures BLOCK_NULL !in h.lists[c]
  {
    hide MappingInsert, NextLinks, PrevLinks, Pools, Coalesced;
  }

  lemma InsertTiling(h: State, b: nat)
    ensures Insert(h, b).t == h.t && Insert(h, b).pools == h.pools
    ensures Remove(h, b).t == h.t && Remove(h, b).pools == h.pools
  {
  }
}
