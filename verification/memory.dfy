// How the tiling and the lists are laid out in memory, and which writes keep
// that layout.  Memory is a sequence of 8-byte words; a size field holds the
// size in bytes, bit 0 the free flag and bit 1 the flag of the previous block.
module Memory {
  import opened SizeClass
  import opened Heap
  import opened Policy
  import opened Live

  type Words = seq<nat>

  function Header(words: nat, free: bool, prevFree: bool): nat {
    8 * words + (if free then 1 else 0) + (if prevFree then 2 else 0)
  }

  // The fields of a size word.
  function SizeField(w: nat): nat { w - w % 4 }
  predicate FreeFlag(w: nat) { w % 2 == 1 }
  predicate PrevFlag(w: nat) { w / 2 % 2 == 1 }

  // size | (w & 3), w | 1, w & ~1, w | 2, w & ~2
  function WithSize(w: nat, size: nat): nat { size + w % 4 }
  function WithFree(w: nat): nat { w - w % 2 + 1 }
  function WithUsed(w: nat): nat { w - w % 2 }
  function WithPrevFree(w: nat): nat { if PrevFlag(w) then w else w + 2 }
  function WithPrevUsed(w: nat): nat { if PrevFlag(w) && w >= 2 then w - 2 else w }

  lemma LowBits(n: nat, c: nat)
    requires c < 4
    ensures (8 * n + c) % 4 == c && (8 * n + c) % 2 == c % 2 && (8 * n + c) / 2 % 2 == c / 2
  {
    assert c == 2 * (c / 2) + c % 2;
    var half := 2 * (2 * n) + c / 2;
    assert 8 * n + c == 4 * (2 * n) + c && 8 * n + c == 2 * half + c % 2;
    assert (8 * n + c) / 2 == half;
  }

  lemma HeaderFields(words: nat, free: bool, prevFree: bool)
    ensures var w := Header(words, free, prevFree);
            && SizeField(w) == 8 * words && (FreeFlag(w) <==> free) && (PrevFlag(w) <==> prevFree)
            && WithFree(w) == Header(words, true, prevFree) && WithUsed(w) == Header(words, false, prevFree)
            && WithPrevFree(w) == Header(words, free, true) && WithPrevUsed(w) == Header(words, free, false)
            && w % 4 == Header(0, free, prevFree)
  {
    LowBits(words, Header(0, free, prevFree));
  }

  // Whatever was in a word, its two low bits are a pair of flags.
  lemma StaleFlags(w: nat, n: nat)
    ensures WithSize(w, 8 * n) == Header(n, FreeFlag(w), PrevFlag(w))
  {
    var q := w / 2;
    assert w == 4 * (q / 2) + 2 * (q % 2) + w % 2;
    assert w % 4 == 2 * (q % 2) + w % 2;
  }

  // ---------------------------------------------------------------- the layout

  // The size field of a is right; for a in s its flag for the previous block may not be.
  ghost predicate HeaderOk(m: Words, t: Tiling, s: set<nat>, a: nat)
    requires a in t
  {
    && a + 1 < |m|
    && (m[a + 1] == Header(t[a].words, t[a].free, PrevFree(t, a))
        || (a in s && m[a + 1] == Header(t[a].words, t[a].free, !PrevFree(t, a))))
  }

  ghost predicate Headers(m: Words, t: Tiling, s: set<nat>) {
    forall a {:trigger HeaderOk(m, t, s, a)} {:trigger t[a]} :: a in t ==> HeaderOk(m, t, s, a)
  }

  // The block behind a free block points back to it; this may fail for the blocks in u.
  ghost predicate PhysLinks(m: Words, t: Tiling, u: set<nat>) {
    forall a {:trigger Next(t, a)} :: a in t && t[a].free && a !in u ==> Next(t, a) < |m| && m[Next(t, a)] == a
  }

  function NextFree(s: seq<nat>, i: nat): nat
    requires i < |s|
  {
    if i + 1 < |s| then s[i + 1] else BLOCK_NULL
  }

  function PrevFreeOf(s: seq<nat>, i: nat): nat
    requires i < |s|
  {
    if i > 0 then s[i - 1] else BLOCK_NULL
  }

  // The link words of one node of a list, and of all of them.
  ghost predicate LinkOk(m: Words, s: seq<nat>, i: nat)
    requires i < |s|
  {
    s[i] + 3 < |m| && m[s[i] + 2] == NextFree(s, i) && m[s[i] + 3] == PrevFreeOf(s, i)
  }

  ghost predicate Linked(m: Words, s: seq<nat>) {
    forall i {:trigger s[i]} {:trigger LinkOk(m, s, i)} :: 0 <= i < |s| ==> LinkOk(m, s, i)
  }

  ghost predicate Links(m: Words, lists: map<Class, seq<nat>>) {
    forall c {:trigger lists[c]} :: c in lists ==> Linked(m, lists[c])
  }

  // Listed blocks are far enough apart for their link words not to meet.
  ghost predicate Nodes(lists: map<Class, seq<nat>>, t: Tiling) {
    forall c, i :: c in lists && 0 <= i < |lists[c]| ==> lists[c][i] in t && t[lists[c][i]].words > 0
  }

  lemma ListedNodes(h: State, x: set<nat>)
    requires Inv(h, x)
    ensures Nodes(h.lists, h.t)
  {
    hide ClassOf, NextLinks, PrevLinks, Disjoint, PoolEnds, PoolCover, Coalesced;
  }

  // ---------------------------------------------------------------- list writes

  // remove_free_block: the neighbours on the list are linked to each other.
  function Unlink(m: Words, s: seq<nat>, i: nat): (w: Words)
    requires i < |s| && NextFree(s, i) + 3 < |m| && PrevFreeOf(s, i) + 2 < |m|
    ensures |w| == |m|
  {
    m[NextFree(s, i) + 3 := PrevFreeOf(s, i)][PrevFreeOf(s, i) + 2 := NextFree(s, i)]
  }

  // insert_free_block: b goes in front of the list with the given head.
  function PushFront(m: Words, head: nat, b: nat): (w: Words)
    requires b + 3 < |m| && head + 3 < |m|
    ensures |w| == |m|
  {
    m[b + 2 := head][b + 3 := BLOCK_NULL][head + 3 := b]
  }

  // x and y are the same node, or too far apart to share a link word.
  predicate NodesApart(x: nat, y: nat) {
    x == y || x + 4 <= y || y + 4 <= x
  }

  ghost predicate ListApart(s: seq<nat>, y: nat) {
    y >= FIRST_BLOCK && forall i :: 0 <= i < |s| ==> s[i] != y && NodesApart(s[i], y)
  }

  ghost predicate WellSpaced(s: seq<nat>) {
    && NoDuplicates(s)
    && (forall i :: 0 <= i < |s| ==> s[i] >= FIRST_BLOCK)
    && (forall i, j :: 0 <= i < |s| && 0 <= j < |s| ==> NodesApart(s[i], s[j]))
  }

  // The links of s[k] once s[i] is unlinked.
  lemma UnlinkAt(m: Words, s: seq<nat>, i: nat, k: nat)
    requires |m| >= FIRST_BLOCK && Linked(m, s) && WellSpaced(s) && i < |s| && k < |s| && k != i
    ensures NextFree(s, i) + 3 < |m| && PrevFreeOf(s, i) + 2 < |m| && s[k] + 3 < |m|
    ensures var m' := Unlink(m, s, i);
            && m'[s[k] + 2] == (if k + 1 == i then NextFree(s, i) else NextFree(s, k))
            && m'[s[k] + 3] == (if k == i + 1 then PrevFreeOf(s, i) else PrevFreeOf(s, k))
  {
    hide Unlink, NextFree, PrevFreeOf, WellSpaced;
    UnlinkInside(m, s, i);
    UnlinkNextAt(m, s, i, k);
    UnlinkPrevAt(m, s, i, k);
  }

  lemma UnlinkInside(m: Words, s: seq<nat>, i: nat)
    requires |m| >= FIRST_BLOCK && Linked(m, s) && i < |s|
    ensures NextFree(s, i) + 3 < |m| && PrevFreeOf(s, i) + 2 < |m|
  {
    if i + 1 < |s| {
      assert LinkOk(m, s, i + 1);
    }
    if i > 0 {
      assert LinkOk(m, s, i - 1);
    }
  }

  // The node at k and a neighbour of the unlinked node share no link word, unless they are the same.
  lemma NeighbourApart(s: seq<nat>, i: nat, k: nat)
    requires WellSpaced(s) && i < |s| && k < |s| && k != i
    ensures s[k] != BLOCK_NULL && NodesApart(s[k], BLOCK_NULL)
    ensures i + 1 < |s| ==> NodesApart(s[k], s[i + 1]) && (k != i + 1 ==> s[k] != s[i + 1])
    ensures i > 0 ==> NodesApart(s[k], s[i - 1]) && (k != i - 1 ==> s[k] != s[i - 1])
  {
  }

  lemma UnlinkNextAt(m: Words, s: seq<nat>, i: nat, k: nat)
    requires i < |s| && NextFree(s, i) + 3 < |m| && PrevFreeOf(s, i) + 2 < |m|
    requires Linked(m, s) && WellSpaced(s) && k < |s| && k != i
    ensures s[k] + 3 < |m| && Unlink(m, s, i)[s[k] + 2] == (if k + 1 == i then NextFree(s, i) else NextFree(s, k))
  {
    hide WellSpaced, Linked;
    NodeLink(m, s, k);
    NeighbourApart(s, i, k);
  }

  lemma UnlinkPrevAt(m: Words, s: seq<nat>, i: nat, k: nat)
    requires i < |s| && NextFree(s, i) + 3 < |m| && PrevFreeOf(s, i) + 2 < |m|
    requires Linked(m, s) && WellSpaced(s) && k < |s| && k != i
    ensures s[k] + 3 < |m| && Unlink(m, s, i)[s[k] + 3] == (if k == i + 1 then PrevFreeOf(s, i) else PrevFreeOf(s, k))
  {
    hide WellSpaced, Linked;
    NodeLink(m, s, k);
    NeighbourApart(s, i, k);
  }

  lemma NodeLink(m: Words, s: seq<nat>, k: nat)
    requires Linked(m, s) && k < |s|
    ensures LinkOk(m, s, k)
  {
  }

  lemma UnlinkSame(m: Words, s: seq<nat>, i: nat)
    requires |m| >= FIRST_BLOCK && Linked(m, s) && WellSpaced(s) && i < |s|
    ensures NextFree(s, i) + 3 < |m| && PrevFreeOf(s, i) + 2 < |m|
    ensures Linked(Unlink(m, s, i), Cut(s, i))
  {
    var r := Cut(s, i);
    assert NextFree(s, i) + 3 < |m| && PrevFreeOf(s, i) + 2 < |m|;
    var m' := Unlink(m, s, i);
    hide *;
    forall j {:trigger LinkOk(m', r, j)} | 0 <= j < |r| ensures LinkOk(m', r, j) {
      UnlinkCut(m, s, i, j);
    }
    assert Linked(m', r) by {
      Relink(m', r);
    }
  }

  lemma Relink(m: Words, s: seq<nat>)
    requires forall i {:trigger LinkOk(m, s, i)} :: 0 <= i < |s| ==> LinkOk(m, s, i)
    ensures Linked(m, s)
  {
  }

  lemma UnlinkCut(m: Words, s: seq<nat>, i: nat, j: nat)
    requires |m| >= FIRST_BLOCK && Linked(m, s) && WellSpaced(s) && i < |s| && j < |s| - 1
    ensures NextFree(s, i) + 3 < |m| && PrevFreeOf(s, i) + 2 < |m|
    ensures LinkOk(Unlink(m, s, i), Cut(s, i), j)
  {
    hide Linked, WellSpaced, NextFree, PrevFreeOf;
    UnlinkAt(m, s, i, if j < i then j else j + 1);
    CutNeighbours(s, i, j);
    hide Cut;
  }

  lemma CutNeighbours(s: seq<nat>, i: nat, j: nat)
    requires i < |s| && j < |s| - 1
    ensures var r, k := Cut(s, i), if j < i then j else j + 1;
            && r[j] == s[k]
            && NextFree(r, j) == (if k + 1 == i then NextFree(s, i) else NextFree(s, k))
            && PrevFreeOf(r, j) == (if k == i + 1 then PrevFreeOf(s, i) else PrevFreeOf(s, k))
  {
  }

  lemma UnlinkOther(m: Words, s: seq<nat>, i: nat, r: seq<nat>)
    requires |m| >= FIRST_BLOCK && Linked(m, s) && Linked(m, r) && i < |s|
    requires forall j :: 0 <= j < |s| ==> ListApart(r, s[j])
    requires forall j :: 0 <= j < |r| ==> r[j] >= FIRST_BLOCK
    ensures NextFree(s, i) + 3 < |m| && PrevFreeOf(s, i) + 2 < |m|
    ensures Linked(Unlink(m, s, i), r)
  {
  }

  lemma PushSame(m: Words, s: seq<nat>, b: nat)
    requires |m| >= FIRST_BLOCK && Linked(m, s) && WellSpaced(s) && ListApart(s, b) && b + 3 < |m|
    ensures (if s == [] then BLOCK_NULL else s[0]) + 3 < |m|
    ensures Linked(PushFront(m, if s == [] then BLOCK_NULL else s[0], b), [b] + s)
  {
    hide WellSpaced, ListApart, PushFront, NextFree, PrevFreeOf;
    PushedHead(m, s, b);
    var r := [b] + s;
    var m' := PushFront(m, if s == [] then BLOCK_NULL else s[0], b);
    forall j {:trigger LinkOk(m', r, j)} | 0 <= j < |r| ensures LinkOk(m', r, j) {
      PushNeighbours(s, b, j);
      if j > 0 {
        PushAt(m, s, b, j - 1);
      }
    }
  }

  lemma PushedHead(m: Words, s: seq<nat>, b: nat)
    requires |m| >= FIRST_BLOCK && Linked(m, s) && ListApart(s, b) && b + 3 < |m|
    ensures (if s == [] then BLOCK_NULL else s[0]) + 3 < |m|
    ensures var m' := PushFront(m, if s == [] then BLOCK_NULL else s[0], b);
            m'[b + 2] == (if s == [] then BLOCK_NULL else s[0]) && m'[b + 3] == BLOCK_NULL
  {
    if s != [] {
      assert LinkOk(m, s, 0);
      assert NodesApart(s[0], b) && s[0] != b;
    }
  }

  // The links of s[k] once b is in front of s.
  lemma PushAt(m: Words, s: seq<nat>, b: nat, k: nat)
    requires |m| >= FIRST_BLOCK && Linked(m, s) && WellSpaced(s) && ListApart(s, b) && b + 3 < |m| && k < |s|
    ensures s[0] + 3 < |m| && s[k] + 3 < |m|
    ensures var m' := PushFront(m, s[0], b);
            && m'[s[k] + 2] == NextFree(s, k) && m'[s[k] + 3] == (if k == 0 then b else PrevFreeOf(s, k))
  {
    assert NodesApart(s[k], b) && NodesApart(s[k], s[0]) && s[k] != b;
    assert k != 0 ==> s[k] != s[0];
    assert s[0] + 3 < |m| && s[k] + 3 < |m|;
  }

  lemma PushNeighbours(s: seq<nat>, b: nat, j: nat)
    requires j <= |s|
    ensures var r := [b] + s;
            && r[j] == (if j == 0 then b else s[j - 1])
            && NextFree(r, j) == (if j == 0 then (if s == [] then BLOCK_NULL else s[0]) else NextFree(s, j - 1))
            && PrevFreeOf(r, j) == (if j == 0 then BLOCK_NULL else if j == 1 then b else PrevFreeOf(s, j - 1))
  {
  }

  lemma PushOther(m: Words, head: nat, b: nat, r: seq<nat>)
    requires |m| >= FIRST_BLOCK && Linked(m, r) && ListApart(r, b) && b + 3 < |m| && head + 3 < |m|
    requires head == BLOCK_NULL || ListApart(r, head)
    requires forall j :: 0 <= j < |r| ==> r[j] >= FIRST_BLOCK
    ensures Linked(PushFront(m, head, b), r)
  {
  }

  // ---------------------------------------------------------------- memory as a whole

  // Memory m holds the state h, except for the previous-block flags of s and the back links of u.
  ghost predicate Mirror(m: Words, h: State, s: set<nat>, u: set<nat>) {
    |m| >= FIRST_BLOCK && Headers(m, h.t, s) && PhysLinks(m, h.t, u) && Links(m, h.lists)
  }

  // No word of the payload of a block in use, other than those in s, differs.
  ghost predicate Kept(m: Words, m': Words, t: Tiling, s: set<nat>) {
    && |m'| == |m|
    && forall a: nat, k: nat {:trigger Used(t, a), m'[k]} ::
         Used(t, a) && a !in s && a + 2 <= k <= a + 1 + t[a].words && k < |m| ==> m'[k] == m[k]
  }

  lemma KeptTrans(m: Words, m': Words, m'': Words, t: Tiling, t': Tiling, s: set<nat>)
    requires Kept(m, m', t, s) && SameUsed(t, t', s) && Kept(m', m'', t', s)
    ensures Kept(m, m'', t, s)
  {
    forall a: nat, k: nat {:trigger Used(t, a), m''[k]} | Used(t, a) && a !in s && a + 2 <= k <= a + 1 + t[a].words &&
        k < |m|
      ensures m''[k] == m[k]
    {
      assert Used(t', a);
      assert m'[k] == m[k];
    }
  }

  // A write to a link word of a free block or of the null block.
  predicate IsLinkWord(t: Tiling, y: nat, k: nat) {
    (k == y + 2 || k == y + 3) && (y == BLOCK_NULL || (y in t && t[y].free && t[y].words > 0))
  }

  lemma LinkWriteHeaders(m: Words, t: Tiling, s: set<nat>, u: set<nat>, y: nat, k: nat, v: nat)
    requires Disjoint(t) && IsLinkWord(t, y, k) && k < |m| && Headers(m, t, s)
    ensures Headers(m[k := v], t, s)
  {
    var m' := m[k := v];
    forall a {:trigger HeaderOk(m', t, s, a)} | a in t ensures HeaderOk(m', t, s, a) {
      assert HeaderOk(m, t, s, a);
      assert a + 1 != k;
    }
  }

  lemma LinkWritePhys(m: Words, t: Tiling, u: set<nat>, y: nat, k: nat, v: nat)
    requires NextLinks(t) && Disjoint(t) && IsLinkWord(t, y, k) && k < |m| && PhysLinks(m, t, u)
    requires forall a :: a in t && t[a].free ==> t[a].words > 0
    ensures PhysLinks(m[k := v], t, u)
  {
    var m' := m[k := v];
    forall a {:trigger Next(t, a)} | a in t && t[a].free && a !in u
      ensures Next(t, a) < |m'| && m'[Next(t, a)] == a
    {
      assert Next(t, a) in t;
      assert Next(t, a) != k;
    }
  }

  lemma LinkWriteKept(m: Words, t: Tiling, y: nat, k: nat, v: nat)
    requires Disjoint(t) && IsLinkWord(t, y, k) && k < |m|
    ensures Kept(m, m[k := v], t, {})
  {
    var m' := m[k := v];
    forall a: nat, j: nat {:trigger Used(t, a), m'[j]} | Used(t, a) && a + 2 <= j <= a + 1 + t[a].words && j < |m|
      ensures m'[j] == m[j]
    {
      assert FIRST_BLOCK <= a && a != y;
    }
  }

  // A write to a size field or to the word behind a block misses every link word.
  lemma LinksFrame(m: Words, m': Words, lists: map<Class, seq<nat>>)
    requires Links(m, lists) && |m'| == |m|
    requires forall c, i :: c in lists && 0 <= i < |lists[c]| && lists[c][i] + 3 < |m| ==>
               m'[lists[c][i] + 2] == m[lists[c][i] + 2] && m'[lists[c][i] + 3] == m[lists[c][i] + 3]
    ensures Links(m', lists)
  {
    forall c {:trigger lists[c]} | c in lists ensures Linked(m', lists[c]) {
      assert Linked(m, lists[c]);
      forall i {:trigger LinkOk(m', lists[c], i)} | 0 <= i < |lists[c]| ensures LinkOk(m', lists[c], i) {
        assert LinkOk(m, lists[c], i);
      }
    }
  }

  lemma LinkWrite(m: Words, t: Tiling, pools: map<nat, nat>, s: set<nat>, u: set<nat>, y: nat, k: nat, v: nat)
    requires Geometry(t) && Pools(t, pools) && IsLinkWord(t, y, k) && k < |m| && Headers(m, t, s) && PhysLinks(m, t, u)
    ensures Headers(m[k := v], t, s) && PhysLinks(m[k := v], t, u) && Kept(m, m[k := v], t, {})
  {
    PayloadOfFree(t, pools);
    hide NextLinks, PrevLinks, Disjoint, PoolEnds, PoolInner, PoolCover, Headers, PhysLinks, Kept;
    LinkWriteHeaders(m, t, s, u, y, k, v);
    LinkWritePhys(m, t, u, y, k, v);
    LinkWriteKept(m, t, y, k, v);
  }

  // ---------------------------------------------------------------- taking a block off a list

  // The lists as Linked wants them.
  lemma ListSpacing(h: State, x: set<nat>, c: Class)
    requires Inv(h, x) && c in h.lists
    ensures WellSpaced(h.lists[c])
  {
    hide ClassOf, NextLinks, PrevLinks, PoolEnds, PoolCover, Coalesced;
    var s := h.lists[c];
    assert forall i :: 0 <= i < |s| ==> s[i] in h.t && h.t[s[i]].words >= 3;
  }

  lemma ListsDisjoint(h: State, x: set<nat>, c: Class, d: Class, j: nat)
    requires Inv(h, x) && c in h.lists && d in h.lists && c != d && j < |h.lists[c]|
    ensures ListApart(h.lists[d], h.lists[c][j])
  {
    hide NextLinks, PrevLinks, PoolEnds, PoolCover, Coalesced, MappingInsert;
    var y, s := h.lists[c][j], h.lists[d];
    assert y in h.t && h.t[y].words >= 3 && ClassOf(h.t, y) == c;
    forall i | 0 <= i < |s| ensures s[i] != y && NodesApart(s[i], y) {
      assert s[i] in h.t && h.t[s[i]].words >= 3 && ClassOf(h.t, s[i]) == d;
    }
  }

  lemma RemoveLinks(m: Words, h: State, x: set<nat>, c: Class, i: nat)
    requires |m| >= FIRST_BLOCK && Inv(h, x) && Links(m, h.lists) && c in h.lists && i < |h.lists[c]|
    ensures NextFree(h.lists[c], i) + 3 < |m| && PrevFreeOf(h.lists[c], i) + 2 < |m|
    ensures Links(Unlink(m, h.lists[c], i), h.lists[c := Cut(h.lists[c], i)])
  {
    var s := h.lists[c];
    ListSpacing(h, x, c);
    assert Linked(m, s);
    UnlinkSame(m, s, i);
    var m', lists' := Unlink(m, s, i), h.lists[c := Cut(s, i)];
    hide Inv, Unlink, Cut, NextFree, PrevFreeOf, WellSpaced;
    forall d {:trigger lists'[d]} | d in lists' ensures Linked(m', lists'[d]) {
      if d != c {
        assert Linked(m, h.lists[d]);
        ListSpacing(h, x, d);
        RemoveOther(m, h, x, c, i, d);
      }
    }
  }

  lemma RemoveOther(m: Words, h: State, x: set<nat>, c: Class, i: nat, d: Class)
    requires |m| >= FIRST_BLOCK && Inv(h, x) && c in h.lists && d in h.lists && c != d && i < |h.lists[c]|
    requires Linked(m, h.lists[c]) && Linked(m, h.lists[d])
    ensures NextFree(h.lists[c], i) + 3 < |m| && PrevFreeOf(h.lists[c], i) + 2 < |m|
    ensures Linked(Unlink(m, h.lists[c], i), h.lists[d])
  {
    hide Inv, Linked, ListApart;
    forall j | 0 <= j < |h.lists[c]| ensures ListApart(h.lists[d], h.lists[c][j]) {
      ListsDisjoint(h, x, c, d, j);
    }
    ListSpacing(h, x, d);
    hide NextLinks, PrevLinks, Disjoint, Pools, Coalesced, Listed, Unlink;
    UnlinkOther(m, h.lists[c], i, h.lists[d]);
  }

  // remove_free_block in memory: the state with b off its list is mirrored, and no payload changes.
  lemma RemoveMirror(m: Words, h: State, x: set<nat>, b: nat, s: set<nat>, u: set<nat>)
    requires Inv(h, x) && Mirror(m, h, s, u) && b in h.t && h.t[b].free && b !in x
    ensures var c := ClassOf(h.t, b);
            && c in h.lists && b in h.lists[c]
            && var l, i := h.lists[c], IndexOf(h.lists[c], b);
            && b + 3 < |m| && m[b + 2] == NextFree(l, i) && m[b + 3] == PrevFreeOf(l, i)
            && NextFree(l, i) + 3 < |m| && PrevFreeOf(l, i) + 2 < |m|
            && Mirror(Unlink(m, l, i), Remove(h, b), s, u) && Kept(m, Unlink(m, l, i), h.t, {})
  {
    hide Inv, ClassOf, Headers, PhysLinks, Kept, Links, Linked, NextFree, PrevFreeOf, Unlink, Cut;
    BlockOnList(h, x, b);
    var c := ClassOf(h.t, b);
    var l, i := h.lists[c], IndexOf(h.lists[c], b);
    NodeLinks(m, h.lists, c, i);
    RemoveLinks(m, h, x, c, i);
    RemoveWrites(m, h, x, c, i, s, u);
    assert Remove(h, b).lists == h.lists[c := Cut(l, i)];
  }

  lemma NodeLinks(m: Words, lists: map<Class, seq<nat>>, c: Class, i: nat)
    requires Links(m, lists) && c in lists && i < |lists[c]|
    ensures LinkOk(m, lists[c], i)
  {
    assert Linked(m, lists[c]);
  }

  lemma BlockOnList(h: State, x: set<nat>, b: nat)
    requires Inv(h, x) && b in h.t && h.t[b].free && b !in x
    ensures ClassOf(h.t, b) in h.lists && b in h.lists[ClassOf(h.t, b)]
  {
    hide MappingInsert, NextLinks, PrevLinks, Disjoint, PoolEnds, PoolInner, PoolCover, Coalesced;
  }

  lemma RemoveWrites(m: Words, h: State, x: set<nat>, c: Class, i: nat, s: set<nat>, u: set<nat>)
    requires Inv(h, x) && Mirror(m, h, s, u) && c in h.lists && i < |h.lists[c]|
    requires NextFree(h.lists[c], i) + 3 < |m| && PrevFreeOf(h.lists[c], i) + 2 < |m|
    ensures var m' := Unlink(m, h.lists[c], i);
            Headers(m', h.t, s) && PhysLinks(m', h.t, u) && Kept(m, m', h.t, {})
  {
    hide *;
    var n, p := NextFree(h.lists[c], i), PrevFreeOf(h.lists[c], i);
    NeighbourNodes(h, x, c, i);
    TwoLinkWrites(m, m[n + 3 := p][p + 2 := n], h, x, n, p, s, u);
    UnlinkIs(m, h.lists[c], i, n, p);
  }

  lemma UnlinkIs(m: Words, s: seq<nat>, i: nat, n: nat, p: nat)
    requires i < |s| && n == NextFree(s, i) && p == PrevFreeOf(s, i) && n + 3 < |m| && p + 2 < |m|
    ensures Unlink(m, s, i) == m[n + 3 := p][p + 2 := n]
  {
  }

  lemma TwoLinkWrites(m: Words, m': Words, h: State, x: set<nat>, n: nat, p: nat, s: set<nat>, u: set<nat>)
    requires n + 3 < |m| && p + 2 < |m| && m' == m[n + 3 := p][p + 2 := n]
    requires IsLinkWord(h.t, n, n + 3) && IsLinkWord(h.t, p, p + 2)
    requires Inv(h, x) && Mirror(m, h, s, u)
    ensures Headers(m', h.t, s) && PhysLinks(m', h.t, u) && Kept(m, m', h.t, {})
  {
    hide NextLinks, PrevLinks, Disjoint, PoolEnds, PoolInner, PoolCover, Coalesced, Listed, Headers, PhysLinks, Links,
         Kept;
    LinkWrite(m, h.t, h.pools, s, u, n, n + 3, p);
    var m1 := m[n + 3 := p];
    LinkWrite(m1, h.t, h.pools, s, u, p, p + 2, n);
    SameUsedSelf(h.t);
    KeptTrans(m, m1, m1[p + 2 := n], h.t, h.t, {});
  }

  lemma SameUsedSelf(t: Tiling)
    ensures SameUsed(t, t, {})
  {
  }

  lemma NeighbourNodes(h: State, x: set<nat>, c: Class, i: nat)
    requires Inv(h, x) && c in h.lists && i < |h.lists[c]|
    ensures IsLinkWord(h.t, NextFree(h.lists[c], i), NextFree(h.lists[c], i) + 3)
    ensures IsLinkWord(h.t, PrevFreeOf(h.lists[c], i), PrevFreeOf(h.lists[c], i) + 2)
  {
    hide ClassOf, NextLinks, PrevLinks, Disjoint, PoolEnds, PoolCover, Coalesced;
  }

  // ---------------------------------------------------------------- putting a block on a list

  function HeadOf(lists: map<Class, seq<nat>>, c: Class): nat {
    var s := ListAt(lists, c);
    if s == [] then BLOCK_NULL else s[0]
  }

  lemma UnlistedApart(h: State, x: set<nat>, b: nat, d: Class)
    requires Inv(h, x) && b in x && b in h.t && h.t[b].free && d in h.lists
    ensures ListApart(h.lists[d], b)
  {
    hide NextLinks, PrevLinks, PoolEnds, PoolCover, Coalesced, ClassOf;
    var s := h.lists[d];
    assert h.t[b].words >= 3;
    forall i | 0 <= i < |s| ensures s[i] != b && NodesApart(s[i], b) {
      assert s[i] in h.t && h.t[s[i]].words >= 3 && s[i] !in x;
    }
  }

  lemma InsertLinks(m: Words, h: State, x: set<nat>, b: nat)
    requires |m| >= FIRST_BLOCK && Inv(h, x) && Links(m, h.lists) && b in x && b in h.t && h.t[b].free && b + 3 < |m|
    requires ClassOf(h.t, b) in h.lists
    ensures HeadOf(h.lists, ClassOf(h.t, b)) + 3 < |m|
    ensures Links(PushFront(m, HeadOf(h.lists, ClassOf(h.t, b)), b), Insert(h, b).lists)
  {
    var c := ClassOf(h.t, b);
    var s := h.lists[c];
    assert Linked(m, s);
    ListSpacing(h, x, c);
    UnlistedApart(h, x, b, c);
    PushSame(m, s, b);
    var m', lists' := PushFront(m, HeadOf(h.lists, c), b), Insert(h, b).lists;
    hide Inv, PushFront, WellSpaced, ListApart, ClassOf;
    forall d {:trigger lists'[d]} | d in lists' ensures Linked(m', lists'[d]) {
      if d != c {
        assert Linked(m, h.lists[d]);
        InsertOther(m, h, x, b, c, d);
      }
    }
  }

  lemma InsertOther(m: Words, h: State, x: set<nat>, b: nat, c: Class, d: Class)
    requires |m| >= FIRST_BLOCK && Inv(h, x) && c in h.lists && d in h.lists && c != d && Linked(m, h.lists[d])
    requires b in x && b in h.t && h.t[b].free && b + 3 < |m| && HeadOf(h.lists, c) + 3 < |m|
    ensures Linked(PushFront(m, HeadOf(h.lists, c), b), h.lists[d])
  {
    hide Inv, Linked, ListApart;
    UnlistedApart(h, x, b, d);
    ListSpacing(h, x, d);
    if h.lists[c] != [] {
      ListsDisjoint(h, x, c, d, 0);
    }
    hide NextLinks, PrevLinks, Disjoint, Pools, Coalesced, Listed, PushFront;
    PushOther(m, HeadOf(h.lists, c), b, h.lists[d]);
  }

  lemma HeadNode(h: State, x: set<nat>, c: Class)
    requires Inv(h, x) && c in h.lists
    ensures IsLinkWord(h.t, HeadOf(h.lists, c), HeadOf(h.lists, c) + 3)
  {
    hide ClassOf, NextLinks, PrevLinks, Disjoint, PoolEnds, PoolCover, Coalesced;
  }

  // insert_free_block in memory.
  lemma InsertMirror(m: Words, h: State, x: set<nat>, b: nat, s: set<nat>, u: set<nat>)
    requires Inv(h, x) && Mirror(m, h, s, u) && b in x && b in h.t && h.t[b].free
    ensures var c := ClassOf(h.t, b);
            && c in h.lists && b + 3 < |m| && HeadOf(h.lists, c) + 3 < |m|
            && var m' := PushFront(m, HeadOf(h.lists, c), b);
            && Mirror(m', Insert(h, b), s, u) && Kept(m, m', h.t, {})
  {
    WordsBound(h, x, b);
    ClassListed(h, x, ClassOf(h.t, b));
    RoomForLinks(m, h, x, b, s);
    var c := ClassOf(h.t, b);
    InsertLinks(m, h, x, b);
    HeadNode(h, x, c);
    hide Inv, ClassOf;
    InsertWrites(m, h, x, b, HeadOf(h.lists, c), s, u);
    hide Headers, PhysLinks, Links, Kept, PushFront, HeadOf;
  }

  lemma RoomForLinks(m: Words, h: State, x: set<nat>, b: nat, s: set<nat>)
    requires Inv(h, x) && Headers(m, h.t, s) && b in h.t && h.t[b].free
    ensures b + 3 < |m| && h.t[b].words > 0
  {
    hide PrevLinks, PoolEnds, PoolCover, Coalesced, Listed;
    assert h.t[b].words >= 3;
    var e := Next(h.t, b);
    assert e in h.t;
    assert HeaderOk(m, h.t, s, e);
  }

  lemma InsertWrites(m: Words, h: State, x: set<nat>, b: nat, head: nat, s: set<nat>, u: set<nat>)
    requires Inv(h, x) && Mirror(m, h, s, u) && b in h.t && h.t[b].free && h.t[b].words > 0 && b + 3 < |m|
    requires IsLinkWord(h.t, head, head + 3) && head + 3 < |m|
    ensures var m' := PushFront(m, head, b);
            Headers(m', h.t, s) && PhysLinks(m', h.t, u) && Kept(m, m', h.t, {})
  {
    hide NextLinks, PrevLinks, Disjoint, PoolEnds, PoolInner, PoolCover, Coalesced, Listed, Headers, PhysLinks, Links,
         Kept;
    LinkWrite(m, h.t, h.pools, s, u, b, b + 2, head);
    var m1 := m[b + 2 := head];
    LinkWrite(m1, h.t, h.pools, s, u, b, b + 3, BLOCK_NULL);
    var m2 := m1[b + 3 := BLOCK_NULL];
    LinkWrite(m2, h.t, h.pools, s, u, head, head + 3, b);
    SameUsedSelf(h.t);
    KeptTrans(m, m1, m2, h.t, h.t, {});
    KeptTrans(m, m2, m2[head + 3 := b], h.t, h.t, {});
  }

  // ---------------------------------------------------------------- size fields

  lemma HeaderWriteLinks(m: Words, t: Tiling, lists: map<Class, seq<nat>>, y: nat, v: nat)
    requires Disjoint(t) && Nodes(lists, t) && y in t && y + 1 < |m| && Links(m, lists)
    ensures Links(m[y + 1 := v], lists)
  {
    var m' := m[y + 1 := v];
    forall c, i | c in lists && 0 <= i < |lists[c]| && lists[c][i] + 3 < |m|
      ensures m'[lists[c][i] + 2] == m[lists[c][i] + 2] && m'[lists[c][i] + 3] == m[lists[c][i] + 3]
    {
      var a := lists[c][i];
      assert a in t && t[a].words > 0;
    }
    LinksFrame(m, m', lists);
  }

  lemma HeaderWritePhys(m: Words, t: Tiling, u: set<nat>, y: nat, v: nat)
    requires NextLinks(t) && Disjoint(t) && y in t && y + 1 < |m| && PhysLinks(m, t, u)
    requires forall a :: a in t && t[a].free ==> t[a].words > 0
    ensures PhysLinks(m[y + 1 := v], t, u)
  {
    var m' := m[y + 1 := v];
    forall a {:trigger Next(t, a)} | a in t && t[a].free && a !in u
      ensures Next(t, a) < |m'| && m'[Next(t, a)] == a
    {
      var e := Next(t, a);
      assert e in t && t[e].prev == a;
      assert e != y + 1;
    }
  }

  lemma HeaderWriteKept(m: Words, t: Tiling, y: nat, v: nat)
    requires Disjoint(t) && y in t && y + 1 < |m|
    ensures Kept(m, m[y + 1 := v], t, {})
  {
    var m' := m[y + 1 := v];
    forall a: nat, j: nat {:trigger Used(t, a), m'[j]} | Used(t, a) && a + 2 <= j <= a + 1 + t[a].words && j < |m|
      ensures m'[j] == m[j]
    {
      assert a in t;
    }
  }

  // A write to a size field touches no link, no back link and no payload.
  lemma HeaderWrite(m: Words, h: State, x: set<nat>, u: set<nat>, y: nat, v: nat)
    requires Inv(h, x) && y in h.t && y + 1 < |m| && Links(m, h.lists) && PhysLinks(m, h.t, u)
    ensures Links(m[y + 1 := v], h.lists) && PhysLinks(m[y + 1 := v], h.t, u) && Kept(m, m[y + 1 := v], h.t, {})
  {
    ListedNodes(h, x);
    PayloadOfFree(h.t, h.pools);
    hide NextLinks, PrevLinks, Disjoint, PoolEnds, PoolInner, PoolCover, Coalesced, Listed, PhysLinks, Links, Kept;
    HeaderWriteLinks(m, h.t, h.lists, y, v);
    HeaderWritePhys(m, h.t, u, y, v);
    HeaderWriteKept(m, h.t, y, v);
  }

  lemma TwoHeaderWrites(m: Words, h: State, x: set<nat>, u: set<nat>, y: nat, v: nat, z: nat, w: nat)
    requires Inv(h, x) && y in h.t && z in h.t && y + 1 < |m| && z + 1 < |m| && Links(m, h.lists) &&
             PhysLinks(m, h.t, u)
    ensures var m' := m[y + 1 := v][z + 1 := w];
            Links(m', h.lists) && PhysLinks(m', h.t, u) && Kept(m, m', h.t, {})
  {
    hide Inv, Links, PhysLinks, Kept;
    HeaderWrite(m, h, x, u, y, v);
    var m1 := m[y + 1 := v];
    HeaderWrite(m1, h, x, u, z, w);
    SameUsedSelf(h.t);
    KeptTrans(m, m1, m1[z + 1 := w], h.t, h.t, {});
  }

  // A changed free flag moves no word that the links depend on.
  lemma FewerBackLinks(m: Words, t: Tiling, b: nat, u: set<nat>)
    requires PhysLinks(m, t, u) && b in t
    ensures PhysLinks(m, SetFree(t, b, false), u)
  {
    var t' := SetFree(t, b, false);
    forall a {:trigger Next(t', a)} | a in t' && t'[a].free && a !in u
      ensures Next(t', a) < |m| && m[Next(t', a)] == a
    {
      assert Next(t', a) == Next(t, a);
    }
  }

  // block_mark_as_used: the flag of the next block, then the block's own.
  function MarkUsedWrites(m: Words, b: nat, e: nat): (w: Words)
    requires b + 1 < |m| && e + 1 < |m|
    ensures |w| == |m|
  {
    var m1 := m[e + 1 := WithPrevUsed(m[e + 1])];
    m1[b + 1 := WithUsed(m1[b + 1])]
  }

  lemma MarkUsedHeader(m: Words, t: Tiling, b: nat, e: nat, a: nat)
    requires Geometry(t) && b in t && t[b].words > 0 && e == Next(t, b) && a in t
    requires HeaderOk(m, t, {}, b) && HeaderOk(m, t, {e}, e) && (a != e ==> HeaderOk(m, t, {}, a))
    ensures b + 1 < |m| && e + 1 < |m|
    ensures HeaderOk(MarkUsedWrites(m, b, e), SetFree(t, b, false), {}, a)
  {
    hide Header, WithUsed, WithPrevUsed, Geometry;
    NotBehind(t, b, a);
    NotBehind(t, b, b);
    HeaderFields(t[e].words, t[e].free, true);
    HeaderFields(t[e].words, t[e].free, false);
    HeaderFields(t[b].words, t[b].free, PrevFree(t, b));
  }

  // Only the block behind b has b for its predecessor.
  lemma NotBehind(t: Tiling, b: nat, a: nat)
    requires Geometry(t) && b in t && t[b].words > 0 && a in t
    ensures Next(t, b) in t && t[Next(t, b)].prev == b && Next(t, b) != b && a + 1 != Next(t, b)
    ensures a != Next(t, b) ==> t[a].prev != b
  {
  }

  lemma MarkUsedHeaders(m: Words, t: Tiling, b: nat, e: nat, s: set<nat>)
    requires Geometry(t) && b in t && t[b].words > 0 && e == Next(t, b) && s <= {e} && Headers(m, t, s)
    ensures b + 1 < |m| && e + 1 < |m|
    ensures Headers(MarkUsedWrites(m, b, e), SetFree(t, b, false), {})
  {
    assert e in t && HeaderOk(m, t, s, e) && HeaderOk(m, t, s, b);
    var m', t' := MarkUsedWrites(m, b, e), SetFree(t, b, false);
    hide MarkUsedWrites, Geometry;
    forall a {:trigger HeaderOk(m', t', {}, a)} | a in t' ensures HeaderOk(m', t', {}, a) {
      assert HeaderOk(m, t, s, a);
      MarkUsedHeader(m, t, b, e, a);
    }
  }

  lemma MarkUsedMirror(m: Words, h: State, x: set<nat>, b: nat, s: set<nat>)
    requires Inv(h, x) && b in h.t && h.t[b].words > 0 && s <= {Next(h.t, b)} && Mirror(m, h, s, {})
    ensures var e := Next(h.t, b);
            && b + 1 < |m| && e + 1 < |m|
            && var m' := MarkUsedWrites(m, b, e);
            && Mirror(m', h.(t := SetFree(h.t, b, false)), {}, {}) && Kept(m, m', h.t, {})
  {
    hide NextLinks, PrevLinks, Disjoint, Pools, Coalesced, Listed, Headers, PhysLinks, Links, Kept;
    Neighbours(h, x, b);
    var e := Next(h.t, b);
    MarkUsedHeaders(m, h.t, b, e, s);
    TwoHeaderWrites(m, h, x, {}, e, WithPrevUsed(m[e + 1]), b, WithUsed(m[b + 1]));
    FewerBackLinks(MarkUsedWrites(m, b, e), h.t, b, {});
  }

  // ---------------------------------------------------------------- marking free

  // block_mark_as_free: the back link, the flag of the next block, the block's own.
  function MarkFreeWrites(m: Words, b: nat, e: nat): (w: Words)
    requires b + 1 < |m| && e + 1 < |m|
    ensures |w| == |m|
  {
    var m1 := m[e := b];
    var m2 := m1[e + 1 := WithPrevFree(m1[e + 1])];
    m2[b + 1 := WithFree(m2[b + 1])]
  }

  lemma MarkFreeHeader(m: Words, t: Tiling, b: nat, e: nat, a: nat)
    requires Geometry(t) && b in t && t[b].words > 0 && e == Next(t, b) && a in t
    requires HeaderOk(m, t, {}, b) && HeaderOk(m, t, {}, e) && HeaderOk(m, t, {}, a)
    ensures b + 1 < |m| && e + 1 < |m|
    ensures HeaderOk(MarkFreeWrites(m, b, e), SetFree(t, b, true), {}, a)
  {
    hide Header, WithFree, WithPrevFree, Geometry;
    NotBehind(t, b, a);
    NotBehind(t, b, b);
    HeaderFields(t[e].words, t[e].free, PrevFree(t, e));
    HeaderFields(t[b].words, t[b].free, PrevFree(t, b));
    NotBehind(t, b, e);
  }

  lemma MarkFreeHeaders(m: Words, t: Tiling, b: nat, e: nat)
    requires Geometry(t) && b in t && t[b].words > 0 && e == Next(t, b) && Headers(m, t, {})
    ensures b + 1 < |m| && e + 1 < |m|
    ensures Headers(MarkFreeWrites(m, b, e), SetFree(t, b, true), {})
  {
    assert e in t && HeaderOk(m, t, {}, e) && HeaderOk(m, t, {}, b);
    var m', t' := MarkFreeWrites(m, b, e), SetFree(t, b, true);
    hide MarkFreeWrites, Geometry;
    forall a {:trigger HeaderOk(m', t', {}, a)} | a in t' ensures HeaderOk(m', t', {}, a) {
      assert HeaderOk(m, t, {}, a);
      MarkFreeHeader(m, t, b, e, a);
    }
  }

  // The word behind a block is no link word, no size field, and in no other block's payload.
  lemma BackLinkWrite(m: Words, t: Tiling, lists: map<Class, seq<nat>>, u: set<nat>, b: nat)
    requires forall a :: a in t && t[a].free ==> t[a].words > 0
    requires Disjoint(t) && NextLinks(t) && Nodes(lists, t) && b in t && t[b].words > 0 && Next(t, b) < |m|
    requires Links(m, lists) && PhysLinks(m, t, u + {b})
    ensures var m' := m[Next(t, b) := b]; Links(m', lists) && PhysLinks(m', t, u) && Kept(m, m', t, {b})
  {
    var e := Next(t, b);
    var m' := m[e := b];
    forall c, i | c in lists && 0 <= i < |lists[c]| && lists[c][i] + 3 < |m|
      ensures m'[lists[c][i] + 2] == m[lists[c][i] + 2] && m'[lists[c][i] + 3] == m[lists[c][i] + 3]
    {
      var a := lists[c][i];
      assert a in t && t[a].words > 0 && e in t;
    }
    LinksFrame(m, m', lists);
    BackLinkPhys(m, t, u, b);
    forall a: nat, j: nat {:trigger Used(t, a), m'[j]} | Used(t, a) && a !in {b} && a + 2 <= j <= a + 1 + t[a].words &&
        j < |m|
      ensures m'[j] == m[j]
    {
      assert a in t && e in t;
    }
  }

  lemma BackLinkPhys(m: Words, t: Tiling, u: set<nat>, b: nat)
    requires NextLinks(t) && b in t && t[b].words > 0 && Next(t, b) < |m| && PhysLinks(m, t, u + {b})
    requires forall a :: a in t && t[a].free ==> t[a].words > 0
    ensures PhysLinks(m[Next(t, b) := b], t, u)
  {
    var m' := m[Next(t, b) := b];
    forall a {:trigger Next(t, a)} | a in t && t[a].free && a !in u
      ensures Next(t, a) < |m'| && m'[Next(t, a)] == a
    {
      if a != b {
        assert Next(t, a) < |m| && m[Next(t, a)] == a;
        assert t[Next(t, a)].prev == a && t[Next(t, b)].prev == b;
      }
    }
  }

  lemma MoreBackLinks(m: Words, t: Tiling, b: nat)
    requires PhysLinks(m, t, {}) && b in t && Next(t, b) < |m| && m[Next(t, b)] == b
    ensures PhysLinks(m, SetFree(t, b, true), {})
  {
    var t' := SetFree(t, b, true);
    forall a {:trigger Next(t', a)} | a in t' && t'[a].free
      ensures Next(t', a) < |m| && m[Next(t', a)] == a
    {
      assert Next(t', a) == Next(t, a);
    }
  }

  // A back link is written and stays: block_link_next.
  lemma BackLink(m: Words, h: State, x: set<nat>, u: set<nat>, b: nat)
    requires Inv(h, x) && b in h.t && h.t[b].words > 0 && Next(h.t, b) < |m|
    requires Links(m, h.lists) && PhysLinks(m, h.t, u + {b})
    ensures var m' := m[Next(h.t, b) := b]; Links(m', h.lists) && PhysLinks(m', h.t, u) && Kept(m, m', h.t, {b})
  {
    ListedNodes(h, x);
    PayloadOfFree(h.t, h.pools);
    hide NextLinks, PrevLinks, Disjoint, PoolEnds, PoolInner, PoolCover, Coalesced, Listed, PhysLinks, Links, Kept;
    BackLinkWrite(m, h.t, h.lists, u, b);
  }

  lemma MarkFreeMirror(m: Words, h: State, x: set<nat>, b: nat)
    requires Inv(h, x) && b in h.t && h.t[b].words > 0 && Mirror(m, h, {}, {})
    ensures var e := Next(h.t, b);
            && b + 1 < |m| && e + 1 < |m|
            && var m' := MarkFreeWrites(m, b, e);
            && Mirror(m', h.(t := SetFree(h.t, b, true)), {}, {}) && Kept(m, m', h.t, {b})
  {
    var e := Next(h.t, b);
    Neighbours(h, x, b);
    MarkFreeHeaders(m, h.t, b, e);
    MarkFreeLinks(m, h, x, b, e);
    hide *;
    MirrorFrom(MarkFreeWrites(m, b, e), h.(t := SetFree(h.t, b, true)), {}, {});
  }

  lemma MirrorFrom(m: Words, h: State, s: set<nat>, u: set<nat>)
    requires |m| >= FIRST_BLOCK && Headers(m, h.t, s) && PhysLinks(m, h.t, u) && Links(m, h.lists)
    ensures Mirror(m, h, s, u)
  {
  }

  lemma MarkFreeLinks(m: Words, h: State, x: set<nat>, b: nat, e: nat)
    requires Inv(h, x) && b in h.t && h.t[b].words > 0 && e == Next(h.t, b) && e in h.t && b + 1 < |m| && e + 1 < |m|
    requires Links(m, h.lists) && PhysLinks(m, h.t, {})
    ensures var m' := MarkFreeWrites(m, b, e);
            Links(m', h.lists) && PhysLinks(m', SetFree(h.t, b, true), {}) && Kept(m, m', h.t, {b})
  {
    hide Inv, Links, Kept;
    var m1 := m[e := b];
    FewerLinked(m, h.t, {}, {} + {b});
    BackLink(m, h, x, {}, b);
    hide PhysLinks;
    var m' := MarkFreeWrites(m, b, e);
    assert m' == m1[e + 1 := WithPrevFree(m1[e + 1])][b + 1 := m'[b + 1]];
    TwoHeaderWrites(m1, h, x, {}, e, WithPrevFree(m1[e + 1]), b, m'[b + 1]);
    SameUsedRefl(h.t, b);
    KeptMore(m1, m', h.t, {}, {b});
    KeptTrans(m, m1, m', h.t, h.t, {b});
    assert m'[e] == b;
    MoreBackLinks(m', h.t, b);
  }

  lemma FewerLinked(m: Words, t: Tiling, u: set<nat>, u': set<nat>)
    requires PhysLinks(m, t, u) && u <= u'
    ensures PhysLinks(m, t, u')
  {
  }

  lemma KeptMore(m: Words, m': Words, t: Tiling, s: set<nat>, s': set<nat>)
    requires Kept(m, m', t, s) && s <= s'
    ensures Kept(m, m', t, s')
  {
  }

  // ---------------------------------------------------------------- flags and back links on their own

  lemma FlagHeader(m: Words, t: Tiling, s: set<nat>, r: nat, a: nat)
    requires r in t && a in t && s <= {r} && HeaderOk(m, t, s, r) && HeaderOk(m, t, s, a)
    ensures r + 1 < |m|
    ensures HeaderOk(m[r + 1 := if PrevFree(t, r) then WithPrevFree(m[r + 1]) else WithPrevUsed(m[r + 1])], t, {}, a)
  {
    HeaderFields(t[r].words, t[r].free, true);
    HeaderFields(t[r].words, t[r].free, false);
    hide Header, WithPrevFree, WithPrevUsed;
  }

  // block_set_prev_free or block_set_prev_used, whichever is right for r.
  lemma FlagMirror(m: Words, h: State, x: set<nat>, r: nat, s: set<nat>, u: set<nat>)
    requires Inv(h, x) && r in h.t && s <= {r} && Mirror(m, h, s, u)
    ensures r + 1 < |m|
    ensures var m' := m[r + 1 := if PrevFree(h.t, r) then WithPrevFree(m[r + 1]) else WithPrevUsed(m[r + 1])];
            Mirror(m', h, {}, u) && Kept(m, m', h.t, {})
  {
    hide Inv, PhysLinks, Links, Kept;
    assert HeaderOk(m, h.t, s, r);
    var v := if PrevFree(h.t, r) then WithPrevFree(m[r + 1]) else WithPrevUsed(m[r + 1]);
    HeaderWrite(m, h, x, u, r, v);
    var m' := m[r + 1 := v];
    forall a {:trigger HeaderOk(m', h.t, {}, a)} | a in h.t ensures HeaderOk(m', h.t, {}, a) {
      assert HeaderOk(m, h.t, s, a);
      FlagHeader(m, h.t, s, r, a);
    }
  }

  lemma BackLinkHeaders(m: Words, t: Tiling, s: set<nat>, b: nat, v: nat)
    requires Disjoint(t) && b in t && t[b].words > 0 && Next(t, b) in t && Next(t, b) < |m| && Headers(m, t, s)
    ensures Headers(m[Next(t, b) := v], t, s)
  {
    var e := Next(t, b);
    var m' := m[e := v];
    forall a {:trigger HeaderOk(m', t, s, a)} | a in t ensures HeaderOk(m', t, s, a) {
      assert HeaderOk(m, t, s, a);
      assert a + 1 != e;
    }
  }

  // block_link_next on a free block.
  lemma LinkNextMirror(m: Words, h: State, x: set<nat>, b: nat, s: set<nat>)
    requires Inv(h, x) && b in h.t && h.t[b].free && Mirror(m, h, s, {b})
    ensures Next(h.t, b) < |m|
    ensures var m' := m[Next(h.t, b) := b]; Mirror(m', h, s, {}) && Kept(m, m', h.t, {})
  {
    FreePayload(h, x, b);
    hide Inv, PhysLinks, Links, Kept;
    var e := Next(h.t, b);
    assert HeaderOk(m, h.t, s, e);
    hide HeaderOk;
    assert {} + {b} == {b};
    BackLink(m, h, x, {}, b);
    DisjointOf(h, x);
    BackLinkHeaders(m, h.t, s, b, b);
    KeptUnused(m, m[e := b], h.t, b);
    hide Headers;
  }

  lemma DisjointOf(h: State, x: set<nat>)
    requires Inv(h, x)
    ensures Disjoint(h.t)
  {
  }

  lemma FreePayload(h: State, x: set<nat>, b: nat)
    requires Inv(h, x) && b in h.t && h.t[b].free
    ensures h.t[b].words > 0 && Next(h.t, b) in h.t
  {
    hide PrevLinks, Disjoint, PoolEnds, PoolCover, Coalesced, Listed;
  }

  // A block that is not in use has no payload to keep.
  lemma KeptUnused(m: Words, m': Words, t: Tiling, b: nat)
    requires Kept(m, m', t, {b}) && !Used(t, b)
    ensures Kept(m, m', t, {})
  {
  }

  // ---------------------------------------------------------------- splitting

  // block_split: both sizes, then block_mark_as_free on the rest.
  function SplitWrites(m: Words, b: nat, n: nat, r: nat, rest: nat, e: nat): (w: Words)
    requires b + 1 < |m| && r + 1 < |m| && e + 1 < |m|
    ensures |w| == |m|
  {
    var m1 := m[r + 1 := WithSize(m[r + 1], 8 * rest)];
    var m2 := m1[b + 1 := WithSize(m1[b + 1], 8 * n)];
    MarkFreeWrites(m2, r, e)
  }

  lemma SplitWords(m: Words, b: nat, n: nat, r: nat, rest: nat, e: nat)
    requires b + 1 < r && r + 1 < e && e + 1 < |m|
    ensures var m' := SplitWrites(m, b, n, r, rest, e);
            && |m'| == |m|
            && m'[b + 1] == WithSize(m[b + 1], 8 * n) && m'[e + 1] == WithPrevFree(m[e + 1])
            && m'[r + 1] == WithFree(WithSize(m[r + 1], 8 * rest)) && m'[e] == r
            && forall k :: 0 <= k < |m| && k != b + 1 && k != e + 1 && k != r + 1 && k != e ==> m'[k] == m[k]
  {
    hide WithSize, WithFree, WithPrevFree;
  }

  lemma SplitFlags(t: Tiling, t': Tiling, b: nat, n: nat, r: nat, e: nat, a: nat)
    requires Geometry(t) && IsSplit(t, t', b, n, r, e) && a in t
    ensures a == e ==> PrevFree(t', a)
    ensures a != e ==> PrevFree(t', a) == PrevFree(t, a)
    ensures a + 1 != e && a + 1 != r + 1 && b + 1 < r && r + 1 < e
  {
    if a != e {
      assert t[a].prev != b;
      assert t[a].prev != r;
    }
  }

  // The size field of the rest is a carved word: its previous-block flag is whatever was there.
  lemma SplitHeaderRest(m: Words, m': Words, t: Tiling, t': Tiling, b: nat, n: nat, r: nat, e: nat)
    requires IsSplit(t, t', b, n, r, e) && r + 1 < |m| == |m'|
    requires m'[r + 1] == WithFree(WithSize(m[r + 1], 8 * t'[r].words))
    ensures HeaderOk(m', t', {r}, r)
  {
    StaleFlags(m[r + 1], t'[r].words);
    HeaderFields(t'[r].words, FreeFlag(m[r + 1]), PrevFlag(m[r + 1]));
    hide Header, WithFree, WithSize, FreeFlag, PrevFlag;
  }

  lemma SplitHeaderCut(m: Words, m': Words, t: Tiling, t': Tiling, b: nat, n: nat, r: nat, e: nat)
    requires IsSplit(t, t', b, n, r, e) && HeaderOk(m, t, {}, b) && |m'| == |m|
    requires PrevFree(t', b) == PrevFree(t, b) && m'[b + 1] == WithSize(m[b + 1], 8 * n)
    ensures HeaderOk(m', t', {r}, b)
  {
    HeaderSize(t[b].words, n, t[b].free, PrevFree(t, b));
    hide Header, WithSize, PrevFree;
  }

  lemma SplitHeaderEnd(m: Words, m': Words, t: Tiling, t': Tiling, b: nat, n: nat, r: nat, e: nat)
    requires IsSplit(t, t', b, n, r, e) && HeaderOk(m, t, {}, e) && |m'| == |m|
    requires PrevFree(t', e) && m'[e + 1] == WithPrevFree(m[e + 1])
    ensures HeaderOk(m', t', {r}, e)
  {
    HeaderFields(t[e].words, t[e].free, PrevFree(t, e));
    hide Header, WithPrevFree, PrevFree;
  }

  lemma SplitHeaders(m: Words, t: Tiling, t': Tiling, b: nat, n: nat, r: nat, e: nat)
    requires Geometry(t) && IsSplit(t, t', b, n, r, e) && Headers(m, t, {})
    ensures b + 1 < |m| && e + 1 < |m| && r + 1 < |m|
    ensures Headers(SplitWrites(m, b, n, r, t'[r].words, e), t', {r})
  {
    assert HeaderOk(m, t, {}, b) && HeaderOk(m, t, {}, e);
    SplitFlags(t, t', b, n, r, e, b);
    SplitFlags(t, t', b, n, r, e, e);
    hide NextLinks, PrevLinks, Disjoint, PrevFree, SplitWrites;
    SplitWords(m, b, n, r, t'[r].words, e);
    var m' := SplitWrites(m, b, n, r, t'[r].words, e);
    hide Header, WithFree, WithSize, WithPrevFree;
    forall a {:trigger HeaderOk(m', t', {r}, a)} | a in t' ensures HeaderOk(m', t', {r}, a) {
      if a == b {
        SplitHeaderCut(m, m', t, t', b, n, r, e);
      } else if a == r {
        SplitHeaderRest(m, m', t, t', b, n, r, e);
      } else if a == e {
        SplitHeaderEnd(m, m', t, t', b, n, r, e);
      } else {
        assert HeaderOk(m, t, {}, a);
        SplitFlags(t, t', b, n, r, e, a);
      }
    }
  }

  lemma HeaderSize(words: nat, n: nat, free: bool, prevFree: bool)
    ensures WithSize(Header(words, free, prevFree), 8 * n) == Header(n, free, prevFree)
  {
    HeaderFields(words, free, prevFree);
  }

  lemma SplitPhys(m: Words, t: Tiling, t': Tiling, b: nat, n: nat, r: nat, e: nat)
    requires IsSplit(t, t', b, n, r, e) && PhysLinks(m, t, {})
    ensures PhysLinks(m, t', {b, r})
  {
    forall a {:trigger Next(t', a)} | a in t' && t'[a].free && a !in {b, r}
      ensures Next(t', a) < |m| && m[Next(t', a)] == a
    {
      assert Next(t', a) == Next(t, a);
    }
  }

  // The same writes seen from the tiling after the cut: links and payloads stay.
  lemma SplitLinks(m: Words, h: State, x: set<nat>, b: nat, r: nat, n: nat)
    requires Inv(h, x) && b in h.t && r in h.t && h.t[r].free && h.t[r].words > 0
    requires Links(m, h.lists) && PhysLinks(m, h.t, {b, r})
    requires b + 1 < |m| && r + 1 < |m| && Next(h.t, r) in h.t && Next(h.t, r) + 1 < |m|
    ensures var m' := SplitWrites(m, b, n, r, h.t[r].words, Next(h.t, r));
            Links(m', h.lists) && PhysLinks(m', h.t, {b}) && Kept(m, m', h.t, {})
  {
    hide Inv, Links, PhysLinks, Kept;
    var e := Next(h.t, r);
    var m1 := m[r + 1 := WithSize(m[r + 1], 8 * h.t[r].words)];
    var m2 := m1[b + 1 := WithSize(m1[b + 1], 8 * n)];
    TwoHeaderWrites(m, h, x, {b, r}, r, m1[r + 1], b, m2[b + 1]);
    assert {b} + {r} == {b, r};
    BackLink(m2, h, x, {b}, r);
    var m3 := m2[e := r];
    KeptUnused(m2, m3, h.t, r);
    var m4 := m3[e + 1 := WithPrevFree(m3[e + 1])];
    var m5 := m4[r + 1 := WithFree(m4[r + 1])];
    TwoHeaderWrites(m3, h, x, {b}, e, m4[e + 1], r, m5[r + 1]);
    SameUsedSelf(h.t);
    KeptTrans(m, m2, m3, h.t, h.t, {});
    KeptTrans(m, m3, m5, h.t, h.t, {});
  }

  lemma SplitMirrorOf(m: Words, h: State, t': Tiling, x: set<nat>, b: nat, n: nat, r: nat, e: nat)
    requires Geometry(h.t) && IsSplit(h.t, t', b, n, r, e) && Mirror(m, h, {}, {})
    requires Inv(h.(t := t'), x)
    ensures b + 1 < |m| && r + 1 < |m| && e + 1 < |m|
    ensures var m' := SplitWrites(m, b, n, r, t'[r].words, e);
            Mirror(m', h.(t := t'), {r}, {b}) && Kept(m, m', t', {})
  {
    SplitHeaders(m, h.t, t', b, n, r, e);
    SplitPhys(m, h.t, t', b, n, r, e);
    hide Inv, Geometry, Headers, PhysLinks, Links, Kept, SplitWrites;
    SplitLinks(m, h.(t := t'), x, b, r, n);
  }

  lemma GeometryOf(h: State, x: set<nat>)
    requires Inv(h, x)
    ensures Geometry(h.t)
  {
    hide NextLinks, PrevLinks, Disjoint, Pools, Coalesced, Listed;
  }

  lemma RestWords(t: Tiling, b: nat, n: nat)
    requires b in t && n >= 3 && t[b].words >= n + 4 && IsSplit(t, Split(t, b, n), b, n, b + 1 + n, Next(t, b))
    ensures b + 1 + n in Split(t, b, n) && Split(t, b, n)[b + 1 + n].words == t[b].words - n - 1
  {
  }

  // block_split in memory: all is right but the carved flag and, if b is free, its back link.
  lemma SplitMirror(m: Words, h: State, x: set<nat>, b: nat, n: nat)
    requires Inv(h, x) && b in h.t && (h.t[b].free ==> b in x) && n >= 3 && h.t[b].words >= n + 4 &&
             Mirror(m, h, {}, {})
    ensures var t', r, e := Split(h.t, b, n), b + 1 + n, Next(h.t, b);
            && b + 1 < |m| && r + 1 < |m| && e + 1 < |m|
            && var m' := SplitWrites(m, b, n, r, h.t[b].words - n - 1, e);
            && Mirror(m', h.(t := t'), {r}, {b}) && Kept(m, m', t', {})
  {
    hide Inv, Geometry, IsSplit, Mirror, Kept, Split, SplitWrites;
    GeometryOf(h, x);
    hide NextLinks, PrevLinks, Disjoint, Pools, Coalesced, Listed, Headers, PhysLinks, Links;
    SplitIsSplit(h.t, b, n);
    SplitInv(h, b, n, x);
    RestWords(h.t, b, n);
    SplitMirrorOf(m, h, Split(h.t, b, n), x + {b + 1 + n}, b, n, b + 1 + n, Next(h.t, b));
  }

  // ---------------------------------------------------------------- absorbing

  // block_absorb: the size grows over the next block, flags untouched, and the block behind links back.
  function AbsorbWrites(m: Words, b: nat, q: nat, e: nat): (w: Words)
    requires b + 1 < |m| && q + 1 < |m| && e < |m|
    ensures |w| == |m|
  {
    m[b + 1 := m[b + 1] + (SizeField(m[q + 1]) + BLOCK_OVERHEAD)][e := b]
  }

  lemma AbsorbFlags(t: Tiling, t': Tiling, b: nat, q: nat, e: nat, a: nat)
    requires Geometry(t) && IsAbsorb(t, t', b, q, e) && a in t'
    ensures a == e ==> PrevFree(t', a) == t[b].free
    ensures a != e ==> PrevFree(t', a) == PrevFree(t, a)
    ensures a + 1 != e && (a != b ==> a + 1 != b + 1)
  {
    if a != e {
      assert t[a].prev != q && t[a].prev != b;
    }
  }

  lemma AbsorbHeaders(m: Words, t: Tiling, t': Tiling, b: nat, q: nat, e: nat)
    requires Geometry(t) && IsAbsorb(t, t', b, q, e) && Headers(m, t, {}) && t[q].free
    ensures b + 1 < |m| && q + 1 < |m| && e + 1 < |m|
    ensures Headers(AbsorbWrites(m, b, q, e), t', if t[b].free then {} else {e})
  {
    assert HeaderOk(m, t, {}, b) && HeaderOk(m, t, {}, q) && HeaderOk(m, t, {}, e);
    var s := if t[b].free then {} else {e};
    assert PrevFree(t, e) by {
      assert t[e].prev == q;
    }
    HeaderFields(t[q].words, t[q].free, PrevFree(t, q));
    assert b + 1 < e;
    var m' := AbsorbWrites(m, b, q, e);
    forall a {:trigger HeaderOk(m', t', s, a)} | a in t' ensures HeaderOk(m', t', s, a) {
      AbsorbFlags(t, t', b, q, e, a);
      assert HeaderOk(m, t, {}, a);
      AbsorbHeader(m, m', t, t', b, q, e, a, s);
    }
    hide HeaderOk;
  }

  lemma AbsorbHeader(m: Words, m': Words, t: Tiling, t': Tiling, b: nat, q: nat, e: nat, a: nat, s: set<nat>)
    requires IsAbsorb(t, t', b, q, e) && a in t' && HeaderOk(m, t, {}, a)
    requires |m'| == |m| && (a == b ==> m'[b + 1] == m[b + 1] + 8 * t[q].words + 8) &&
             (a != b ==> m'[a + 1] == m[a + 1])
    requires if a == e then PrevFree(t, e) && (PrevFree(t', e) || e in s) else PrevFree(t', a) == PrevFree(t, a)
    ensures HeaderOk(m', t', s, a)
  {
    hide PrevFree;
  }

  lemma AbsorbPhys(m: Words, t: Tiling, t': Tiling, b: nat, q: nat, e: nat)
    requires IsAbsorb(t, t', b, q, e) && PhysLinks(m, t, {})
    ensures PhysLinks(m, t', {} + {b})
  {
    forall a {:trigger Next(t', a)} | a in t' && t'[a].free && a !in {} + {b}
      ensures Next(t', a) < |m| && m[Next(t', a)] == a
    {
      assert Next(t', a) == Next(t, a);
    }
  }

  lemma AbsorbMirrorOf(m: Words, h: State, x: set<nat>, t': Tiling, x': set<nat>, b: nat, q: nat, e: nat)
    requires Inv(h, x) && IsAbsorb(h.t, t', b, q, e) && Mirror(m, h, {}, {}) && h.t[q].free && Inv(h.(t := t'), x')
    ensures b + 1 < |m| && q + 1 < |m| && e + 1 < |m|
    ensures var m' := AbsorbWrites(m, b, q, e);
            Mirror(m', h.(t := t'), if h.t[b].free then {} else {e}, {}) && Kept(m, m', h.t, {})
  {
    hide Inv, IsAbsorb, Kept, PhysLinks, Links;
    GeometryOf(h, x);
    hide NextLinks, PrevLinks, Disjoint, Pools, Coalesced, Listed, AbsorbWrites;
    AbsorbHeaders(m, h.t, t', b, q, e);
    AbsorbLinks(m, h, x, t', x', b, q, e);
    hide Headers;
  }

  lemma AbsorbLinks(m: Words, h: State, x: set<nat>, t': Tiling, x': set<nat>, b: nat, q: nat, e: nat)
    requires Inv(h, x) && IsAbsorb(h.t, t', b, q, e) && h.t[q].free && Inv(h.(t := t'), x')
    requires Links(m, h.lists) && PhysLinks(m, h.t, {}) && b + 1 < |m| && q + 1 < |m| && e < |m|
    ensures var m' := AbsorbWrites(m, b, q, e);
            Links(m', h.lists) && PhysLinks(m', t', {}) && Kept(m, m', h.t, {})
  {
    hide Inv, Kept, PhysLinks, Links;
    var m1 := m[b + 1 := m[b + 1] + (SizeField(m[q + 1]) + BLOCK_OVERHEAD)];
    var h' := h.(t := t');
    HeaderWrite(m, h, x, {}, b, m1[b + 1]);
    AbsorbPhys(m1, h.t, t', b, q, e);
    assert Next(t', b) == e;
    hide IsAbsorb;
    BackLink(m1, h', x', {}, b);
    BehindFree(m1, h, x, q, e, b);
    SameUsedSelf(h.t);
    KeptTrans(m, m1, m1[e := b], h.t, h.t, {});
  }

  // The word behind a free block is in no payload.
  lemma BehindFree(m: Words, h: State, x: set<nat>, q: nat, e: nat, v: nat)
    requires Inv(h, x) && q in h.t && h.t[q].free && e == Next(h.t, q) && e < |m|
    ensures Kept(m, m[e := v], h.t, {})
  {
    hide PrevLinks, PoolEnds, PoolCover, Coalesced, Listed;
    var m' := m[e := v];
    assert h.t[q].words > 0;
    forall a: nat, j: nat {:trigger Used(h.t, a), m'[j]} | Used(h.t, a) && a !in {} &&
        a + 2 <= j <= a + 1 + h.t[a].words && j < |m|
      ensures m'[j] == m[j]
    {
      assert a in h.t && e in h.t && a != q;
    }
  }

  // block_absorb in memory, when b swallows the free block behind it that is in no list.
  lemma AbsorbMirror(m: Words, h: State, x: set<nat>, b: nat)
    requires Inv(h, x) && b in h.t && h.t[b].words > 0 && (h.t[b].free ==> b in x) && Mirror(m, h, {}, {})
    requires var q := Next(h.t, b); q in x && h.t[q].free
    ensures var q := Next(h.t, b);
            var e := Next(h.t, q);
            && b + 1 < |m| && q + 1 < |m| && e + 1 < |m|
            && var m' := AbsorbWrites(m, b, q, e);
            && Mirror(m', h.(t := Absorb(h.t, b)), if h.t[b].free then {} else {e}, {}) && Kept(m, m', h.t, {})
  {
    hide Inv, IsAbsorb, Kept, Mirror, Absorb, AbsorbWrites;
    GeometryOf(h, x);
    FreePayload(h, x, Next(h.t, b));
    hide NextLinks, PrevLinks, Disjoint, Pools, Coalesced, Listed, Headers, PhysLinks, Links;
    AbsorbIsAbsorb(h.t, b);
    AbsorbInv(h, b, x);
    AbsorbMirrorOf(m, h, x, Absorb(h.t, b), x - {Next(h.t, b)}, b, Next(h.t, b), Next(h.t, Next(h.t, b)));
  }

  // ---------------------------------------------------------------- reading

  // What the size field of a block says.
  lemma HeaderRead(m: Words, h: State, s: set<nat>, u: set<nat>, b: nat)
    requires Mirror(m, h, s, u) && b in h.t
    ensures b + 1 < |m|
    ensures SizeField(m[b + 1]) == 8 * h.t[b].words && b + 1 + SizeField(m[b + 1]) / 8 == Next(h.t, b)
    ensures FreeFlag(m[b + 1]) <==> h.t[b].free
    ensures b !in s ==> (PrevFlag(m[b + 1]) <==> PrevFree(h.t, b))
  {
    assert HeaderOk(m, h.t, s, b);
    HeaderFields(h.t[b].words, h.t[b].free, true);
    HeaderFields(h.t[b].words, h.t[b].free, false);
    hide Headers, PhysLinks, Links, Header, PrevFree, SizeField, FreeFlag, PrevFlag;
  }

  // A block that is free is found through its successor's first word.
  lemma BackLinkRead(m: Words, h: State, s: set<nat>, u: set<nat>, b: nat)
    requires Mirror(m, h, s, u) && b in h.t && h.t[b].free && b !in u
    ensures Next(h.t, b) < |m| && m[Next(h.t, b)] == b
  {
    hide Headers, Links;
  }

  lemma KeptBack(m: Words, m': Words, t: Tiling, t': Tiling, s: set<nat>)
    requires Kept(m, m', t', s) && SameUsed(t, t', s)
    ensures Kept(m, m', t, s)
  {
    assert forall a :: a !in s && Used(t, a) ==> Used(t', a);
  }

  // What a step that merges b with the block behind it needs and gives.
  lemma AbsorbReady(m: Words, h: State, x: set<nat>, b: nat)
    requires Inv(h, x) && Mirror(m, h, {}, {}) && b in h.t && h.t[b].words > 0 && (h.t[b].free ==> b in x)
    requires var q := Next(h.t, b); q in x && h.t[q].free
    ensures var q := Next(h.t, b);
            var e := Next(h.t, q);
            && q in h.t && e in h.t && b + 1 < |m| && q + 1 < |m| && e + 1 < |m|
            && SizeField(m[b + 1]) == 8 * h.t[b].words && SizeField(m[q + 1]) == 8 * h.t[q].words
            && var m', h' := AbsorbWrites(m, b, q, e), h.(t := Absorb(h.t, b));
            && Mirror(m', h', if h.t[b].free then {} else {e}, {}) && Kept(m, m', h.t, {})
            && Inv(h', x - {q})
  {
    hide Inv, Mirror, Kept, Absorb, AbsorbWrites, SizeField;
    Neighbours(h, x, b);
    FreePayload(h, x, Next(h.t, b));
    AbsorbMirror(m, h, x, b);
    AbsorbInv(h, b, x);
    HeaderRead(m, h, {}, {}, b);
    HeaderRead(m, h, {}, {}, Next(h.t, b));
  }

  // The tiling after b was split.
  lemma SplitTiling(h: State, x: set<nat>, b: nat, n: nat)
    requires Inv(h, x) && b in h.t && (h.t[b].free ==> b in x) && n >= 3 && CanSplit(h.t, b, n)
    ensures var r, t' := b + 1 + n, Split(h.t, b, n);
            && b in t' && t'[b] == h.t[b].(words := n)
            && r in t' && t'[r] == Block(h.t[b].words - n - 1, true, b)
            && Next(t', b) == r && Next(t', r) == Next(h.t, b) &&
               At(t', Next(h.t, b)).free == At(h.t, Next(h.t, b)).free
            && PrevFree(t', b) == PrevFree(h.t, b) && PrevFree(t', r) == h.t[b].free
            && Inv(h.(t := t'), x + {r})
  {
    hide Inv, Split;
    PrevBelow(h, x, b);
    SplitShape(h.t, b, n);
    SplitInv(h, b, n, x);
  }

  // Memory before and after block_split.
  ghost predicate SplitDone(m: Words, h: State, b: nat, n: nat) {
    var r, e := b + 1 + n, Next(h.t, b);
    && b in h.t && CanSplit(h.t, b, n)
    && b + 1 < |m| && r + 1 < |m| && e + 1 < |m|
    && SizeField(m[b + 1]) == 8 * h.t[b].words && b + 1 + SizeField(m[b + 1]) / 8 == e
    && var m', h' := SplitWrites(m, b, n, r, h.t[b].words - n - 1, e), h.(t := Split(h.t, b, n));
    && Mirror(m', h', {r}, {b}) && Kept(m, m', h'.t, {}) && b + 1 + SizeField(m'[b + 1]) / 8 == r
  }

  lemma SplitReady(m: Words, h: State, x: set<nat>, b: nat, n: nat)
    requires Inv(h, x) && b in h.t && (h.t[b].free ==> b in x) && n >= 3 && CanSplit(h.t, b, n) && Mirror(m, h, {}, {})
    ensures SplitDone(m, h, b, n)
  {
    hide Inv, Mirror, Kept, Split, SplitWrites, SizeField;
    HeaderRead(m, h, {}, {}, b);
    SplitTiling(h, x, b, n);
    SplitMirror(m, h, x, b, n);
    HeaderRead(SplitWrites(m, b, n, b + 1 + n, h.t[b].words - n - 1, Next(h.t, b)), h.(t := Split(h.t, b, n)),
        {b + 1 + n}, {b}, b);
  }

  // The writes of block_trim_free up to the insertion: split, link back, flag.
  function TrimWrites(m: Words, b: nat, n: nat, r: nat, rest: nat, e: nat): (w: Words)
    requires b + 1 < |m| && r + 1 < |m| && e + 1 < |m|
    ensures |w| == |m|
  {
    var m2 := SplitWrites(m, b, n, r, rest, e)[r := b];
    m2[r + 1 := WithPrevFree(m2[r + 1])]
  }

  ghost predicate TrimDone(m: Words, h: State, b: nat, n: nat) {
    var r, e := b + 1 + n, Next(h.t, b);
    && b in h.t && CanSplit(h.t, b, n)
    && b + 1 < |m| && r + 1 < |m| && e + 1 < |m|
    && var m', h' := TrimWrites(m, b, n, r, h.t[b].words - n - 1, e), h.(t := Split(h.t, b, n));
    && Mirror(m', h', {}, {}) && Kept(m, m', h'.t, {})
  }

  lemma TrimFreeReady(m: Words, h: State, x: set<nat>, b: nat, n: nat)
    requires Inv(h, x) && b in h.t && h.t[b].free && b in x && n >= 3 && CanSplit(h.t, b, n) && Mirror(m, h, {}, {})
    ensures TrimDone(m, h, b, n)
  {
    hide Inv, Mirror, Kept, Split, SplitWrites, SizeField;
    SplitReady(m, h, x, b, n);
    SplitTiling(h, x, b, n);
    var r, e, h' := b + 1 + n, Next(h.t, b), h.(t := Split(h.t, b, n));
    var m1 := SplitWrites(m, b, n, r, h.t[b].words - n - 1, e);
    LinkNextMirror(m1, h', x + {r}, b, {r});
    var m2 := m1[r := b];
    FlagMirror(m2, h', x + {r}, r, {r}, {});
    SameUsedSelf(h'.t);
    var m3 := m2[r + 1 := WithPrevFree(m2[r + 1])];
    KeptTrans(m, m1, m2, h'.t, h'.t, {});
    KeptTrans(m, m2, m3, h'.t, h'.t, {});
  }
}
