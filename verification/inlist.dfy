// The intrusive doubly linked list of inlist/inlist.h: nodes on the heap that
// refine a sequence.
module Inlist {

  class Node {
    var next: Node?
    var prev: Node?
    var last: Node?

    constructor ()
      ensures next == null && prev == null && last == null
    {
      next, prev, last := null, null, null;
    }
  }

  function Get(s: seq<Node>, i: int): Node? {
    if 0 <= i < |s| then s[i] else null
  }

  ghost predicate Distinct(s: seq<Node>) {
    forall i, j :: 0 <= i < j < |s| ==> s[i] != s[j]
  }

  ghost predicate LinksAt(s: seq<Node>, i: nat)
    requires i < |s|
    reads s
  {
    s[i].next == Get(s, i + 1) && s[i].prev == Get(s, i - 1)
  }

  // The links of every node say what its neighbours in s are; so the prev chain
  // from the last node is the reverse of the next chain from the first.
  ghost predicate Chain(list: Node?, s: seq<Node>)
    reads s
  {
    && list == Get(s, 0)
    && Distinct(s)
    && forall i {:trigger LinksAt(s, i)} :: 0 <= i < |s| ==> LinksAt(s, i)
  }

  // A chain whose head knows the tail.
  ghost predicate Linked(list: Node?, s: seq<Node>)
    reads s
  {
    Chain(list, s) && (list != null ==> list.last == s[|s| - 1])
  }

  function Without(s: seq<Node>, k: nat): (r: seq<Node>)
    requires k < |s|
    ensures |r| == |s| - 1
  {
    s[..k] + s[k + 1..]
  }

  // inlist_append.  A head that lost its tail, which the operations here never
  // leave behind, is mended by a walk.
  method Append(list: Node?, item: Node?, ghost s: seq<Node>) returns (r: Node?)
    requires Chain(list, s) && (list != null && list.last != null ==> list.last == s[|s| - 1])
    requires item !in s
    modifies if item == null then {} else {item}, s
    ensures item == null ==> r == list && Chain(r, s) && (old(Linked(list, s)) ==> Linked(r, s))
    ensures item != null ==> Linked(r, s + [item])
  {
    if item == null {
      return list;
    }
    item.next := null;
    if list == null {
      item.prev := null;
      item.last := item;
      return item;
    }
    var l: Node? := list;
    if list.last != null {
      l := list.last;
    } else {
      ghost var k := 0;
      while l.next != null
        invariant k < |s| && l == s[k]
        decreases |s| - k
      {
        assert LinksAt(s, k);
        l := l.next;
        k := k + 1;
      }
      assert LinksAt(s, k);
    }
    assert LinksAt(s, |s| - 1);
    l.next := item;
    item.prev := l;
    list.last := item;
    forall i | 0 <= i <= |s| ensures LinksAt(s + [item], i) {
      if i < |s| {
        assert old(LinksAt(s, i));
        assert i < |s| - 1 ==> s[i] != s[|s| - 1];
      }
    }
    return list;
  }

  // inlist_prepend
  method Prepend(list: Node?, item: Node?, ghost s: seq<Node>) returns (r: Node?)
    requires Linked(list, s) && item !in s
    modifies if item == null then {} else {item}, s
    ensures item == null ==> r == list && Linked(r, s)
    ensures item != null ==> Linked(r, [item] + s)
  {
    if item == null {
      return list;
    }
    item.prev := null;
    if list == null {
      item.next := null;
      item.last := item;
      return item;
    }
    item.next := list;
    list.prev := item;
    item.last := list.last;
    list.last := null;
    forall i | 0 <= i <= |s| ensures LinksAt([item] + s, i) {
      if i > 0 {
        assert old(LinksAt(s, i - 1));
      }
    }
    return item;
  }

  lemma WithoutDistinct(s: seq<Node>, k: nat)
    requires Distinct(s) && k < |s|
    ensures Distinct(Without(s, k)) && forall j :: 0 <= j < |s| && j != k ==> s[j] != s[k]
    ensures forall j :: 0 <= j < |s| ==>
            (j != k + 1 && k + 1 < |s| ==> s[j] != s[k + 1]) && (j != k - 1 && k > 0 ==> s[j] != s[k - 1])
    ensures |Without(s, k)| == |s| - 1
    ensures forall i :: 0 <= i < |s| - 1 ==> Without(s, k)[i] == if i < k then s[i] else s[i + 1]
  {
  }

  // inlist_remove; item stands at position k of the list, or is null, or is
  // linked to nothing.
  method Remove(list: Node?, item: Node?, ghost s: seq<Node>, ghost k: nat) returns (r: Node?)
    requires Linked(list, s)
    requires item != null ==> (k < |s| && item == s[k]) || (item !in s && item.prev == null && item.next == null)
    modifies s
    ensures item == null || item !in s ==> r == list && Linked(r, s)
    ensures item in s ==> k < |s| && Linked(r, Without(s, k)) && item.next == null && item.prev == null
  {
    hide Distinct;
    if list == null || item == null {
      return list;
    }
    assert LinksAt(s, 0);
    assert item in s ==> LinksAt(s, k);
    if item != list && item.prev == null && item.next == null {
      return list;
    }
    ghost var t := Without(s, k);
    WithoutDistinct(s, k);
    if item.next != null {
      item.next.prev := item.prev;
    }
    if item.prev != null {
      item.prev.next := item.next;
      r := list;
    } else {
      r := item.next;
      if r != null {
        r.last := list.last;
      }
    }
    if item == list.last {
      list.last := item.prev;
    }
    item.next := null;
    item.prev := null;
    forall i | 0 <= i < |t| ensures LinksAt(t, i) {
      var j := if i < k then i else i + 1;
      assert old(LinksAt(s, j));
      assert s[j] != item;
    }
  }

  // inlist_count: an unsigned int, which a list of 2^32 nodes would wrap.
  method Count(list: Node?, ghost s: seq<Node>) returns (count: nat)
    requires Chain(list, s)
    ensures count == |s| % 0x1_0000_0000
  {
    var l := list;
    count := 0;
    ghost var k := 0;
    while l != null
      invariant k <= |s| && l == Get(s, k) && count == k % 0x1_0000_0000
      decreases |s| - k
    {
      assert LinksAt(s, k);
      count := (count + 1) % 0x1_0000_0000;
      l := l.next;
      k := k + 1;
    }
  }

  // The nodes that a predicate lets stay.
  function Kept(s: seq<Node>, drop: Node -> bool): (r: seq<Node>)
    ensures |r| <= |s|
  {
    if s == [] then [] else Kept(s[..|s| - 1], drop) + if drop(s[|s| - 1]) then [] else [s[|s| - 1]]
  }

  lemma {:induction false} KeptMembers(s: seq<Node>, drop: Node -> bool)
    ensures forall i :: 0 <= i < |Kept(s, drop)| ==> Kept(s, drop)[i] in s && !drop(Kept(s, drop)[i])
    ensures forall i :: 0 <= i < |s| && !drop(s[i]) ==> s[i] in Kept(s, drop)
  {
    if s != [] {
      var n := |s| - 1;
      KeptMembers(s[..n], drop);
      assert s == s[..n] + [s[n]];
    }
  }

  // What is left when the nodes before number k have been visited.
  function Left(s: seq<Node>, k: nat, drop: Node -> bool): seq<Node>
    requires k <= |s|
  {
    Kept(s[..k], drop) + s[k..]
  }

  lemma LeftMembers(s: seq<Node>, k: nat, drop: Node -> bool)
    requires k <= |s|
    ensures forall j :: 0 <= j < |Left(s, k, drop)| ==> Left(s, k, drop)[j] in s
  {
    hide Kept;
    KeptMembers(s[..k], drop);
  }

  lemma KeptNext(s: seq<Node>, k: nat, drop: Node -> bool)
    requires k < |s|
    ensures Kept(s[..k + 1], drop) == Kept(s[..k], drop) + if drop(s[k]) then [] else [s[k]]
  {
    assert s[..k + 1][..k] == s[..k];
  }

  lemma LeftStep(s: seq<Node>, k: nat, drop: Node -> bool)
    requires k < |s|
    ensures var rest, next, i := Left(s, k, drop), Left(s, k + 1, drop), |Kept(s[..k], drop)|;
            && i < |rest| && rest[i] == s[k]
            && Get(rest, i + 1) == Get(s, k + 1)
            && next == (if drop(s[k]) then Without(rest, i) else rest)
            && (k + 1 < |s| ==> var j := if drop(s[k]) then i else i + 1;
               j < |next| && next[j] == s[k + 1] && Get(next, j + 1) == Get(s, k + 2))
  {
    hide Kept, Distinct;
    KeptNext(s, k, drop);
    var kept, tail := Kept(s[..k], drop), s[k + 1..];
    assert s[k..] == [s[k]] + tail;
    MiddleNode(kept, s[k], tail);
    assert tail != [] ==> tail[0] == s[k + 1];
    assert |tail| > 1 ==> tail[1] == s[k + 2];
  }

  lemma MiddleNode(a: seq<Node>, x: Node, tail: seq<Node>)
    ensures Without(a + ([x] + tail), |a|) == a + tail && a + ([x] + tail) == (a + [x]) + tail && a + [] == a
    ensures Get(a + ([x] + tail), |a|) == x && Get(a + ([x] + tail), |a| + 1) == Get(tail, 0)
    ensures Get(a + tail, |a|) == Get(tail, 0) && Get(a + tail, |a| + 1) == Get(tail, 1)
    ensures Get((a + [x]) + tail, |a| + 1) == Get(tail, 0) && Get((a + [x]) + tail, |a| + 2) == Get(tail, 1)
  {
    var s := a + ([x] + tail);
    assert s[..|a|] == a && s[|a| + 1..] == tail;
  }

  lemma HeadOf(list: Node?, s: seq<Node>)
    requires Linked(list, s)
    ensures list == Get(s, 0) && (list != null ==> list.next == Get(s, 1))
  {
    assert s != [] ==> LinksAt(s, 0);
  }

  lemma NextOf(list: Node?, s: seq<Node>, i: nat)
    requires Linked(list, s) && i < |s|
    ensures s[i].next == Get(s, i + 1)
  {
    assert LinksAt(s, i);
  }

  // INLIST_FOREACH_SAFE whose body may remove the node it stands on: every node
  // is visited exactly once, in order, and those not removed stay in order.
  method ForeachSafe(list: Node?, drop: Node -> bool, ghost s: seq<Node>) returns (r: Node?, visited: seq<Node>)
    requires Linked(list, s)
    modifies s
    ensures visited == s
    ensures Linked(r, Kept(s, drop))
  {
    hide Kept, Left, Distinct, Chain, LinksAt, Linked, Without;
    r, visited := list, [];
    HeadOf(list, s);
    LeftStart(s, drop);
    var it := list;
    var list2 := if it == null then null else it.next;
    ghost var k := 0;
    while it != null
      invariant k <= |s| && it == Get(s, k) && list2 == Get(s, k + 1) && visited == s[..k]
      invariant Linked(r, Left(s, k, drop))
      decreases |s| - k
    {
      visited := visited + [it];
      ghost var rest, i := Left(s, k, drop), |Kept(s[..k], drop)|;
      LeftStep(s, k, drop);
      LeftMembers(s, k, drop);
      if drop(it) {
        r := Remove(r, it, rest, i);
      }
      ghost var next := Left(s, k + 1, drop);
      if list2 != null {
        NextOf(r, next, if drop(it) then i else i + 1);
      }
      it := list2;
      list2 := if list2 == null then null else list2.next;
      k := k + 1;
    }
  }

  lemma LeftStart(s: seq<Node>, drop: Node -> bool)
    ensures Left(s, 0, drop) == s && Left(s, |s|, drop) == Kept(s, drop)
  {
    assert s[..|s|] == s;
  }

  function Reversed(s: seq<Node>): (r: seq<Node>)
    ensures |r| == |s| && forall i :: 0 <= i < |s| ==> r[i] == s[|s| - 1 - i]
  {
    if s == [] then [] else [s[|s| - 1]] + Reversed(s[..|s| - 1])
  }

  // INLIST_REVERSE_FOREACH: the cached tail and the prev links give the exact reverse.
  method ReverseForeach(list: Node?, ghost s: seq<Node>) returns (visited: seq<Node>)
    requires Linked(list, s)
    ensures visited == Reversed(s)
  {
    visited := [];
    var it: Node? := if list == null then null else list.last;
    ghost var k := |s|;
    assert s[..k] == s;
    while it != null
      invariant 0 <= k <= |s| && it == Get(s, k - 1)
      invariant visited + Reversed(s[..k]) == Reversed(s)
      decreases k
    {
      assert LinksAt(s, k - 1);
      assert s[..k][..k - 1] == s[..k - 1];
      visited := visited + [it];
      it := it.prev;
      k := k - 1;
    }
  }
}
