// The period scheduler of tjost.c and the feedback of modules/mod_loopback.c:
// event queues ordered by time, drained once in every audio period.
module Scheduler {
  import opened Bits

  datatype Event<T> = Event(time: nat, data: T)

  // ---------------------------------------------------------------- queues

  // A sorted insert with the comparator _tjost_schedule_sort: behind every event
  // that it puts at or before the new one.
  function Insert<T>(q: seq<Event<T>>, e: Event<T>): seq<Event<T>> {
    if q == [] then [e] else if q[0].time <= e.time then [q[0]] + Insert(q[1..], e) else [e] + q
  }

  function InsertAll<T>(q: seq<Event<T>>, es: seq<Event<T>>): seq<Event<T>> {
    if es == [] then q else Insert(InsertAll(q, es[..|es| - 1]), es[|es| - 1])
  }

  ghost predicate Sorted<T>(q: seq<Event<T>>) {
    forall i, j :: 0 <= i < j < |q| ==> q[i].time <= q[j].time
  }

  // The events of time t, in order.
  function AtTime<T>(q: seq<Event<T>>, t: nat): seq<Event<T>> {
    if q == [] then [] else (if q[0].time == t then [q[0]] else []) + AtTime(q[1..], t)
  }

  lemma {:induction false} NoneAt<T>(q: seq<Event<T>>, t: nat)
    requires forall i :: 0 <= i < |q| ==> q[i].time != t
    ensures AtTime(q, t) == []
  {
    if q != [] {
      NoneAt(q[1..], t);
    }
  }

  ghost predicate NotBefore<T>(q: seq<Event<T>>, t: nat) {
    forall i :: 0 <= i < |q| ==> q[i].time >= t
  }

  lemma SortedCons<T>(x: Event<T>, r: seq<Event<T>>)
    requires Sorted(r) && NotBefore(r, x.time)
    ensures Sorted([x] + r) && NotBefore([x] + r, x.time)
  {
  }

  lemma SortedParts<T>(q: seq<Event<T>>)
    requires Sorted(q) && q != []
    ensures Sorted(q[1..]) && NotBefore(q[1..], q[0].time) && NotBefore(q, q[0].time)
  {
  }

  lemma FirstTime<T>(q: seq<Event<T>>, t: nat)
    requires NotBefore(q, t) && q != []
    ensures q[0].time >= t
  {
  }

  lemma SortedOne<T>(e: Event<T>)
    ensures Sorted([e]) && NotBefore([e], e.time)
  {
  }

  lemma StillNotBefore<T>(q: seq<Event<T>>, t: nat, u: nat)
    requires NotBefore(q, t) && u <= t
    ensures NotBefore(q, u)
  {
  }

  // Inserting keeps the order and loses nothing, ...
  lemma {:induction false} InsertSorted<T>(q: seq<Event<T>>, e: Event<T>)
    requires Sorted(q)
    ensures Sorted(Insert(q, e))
    ensures NotBefore(Insert(q, e), if q != [] && q[0].time < e.time then q[0].time else e.time)
  {
    hide Sorted, NotBefore;
    if q == [] {
      SortedOne(e);
    } else if q[0].time <= e.time {
      var x, r := q[0], Insert(q[1..], e);
      SortedParts(q);
      if q[1..] != [] {
        SortedParts(q[1..]);
        FirstTime(q[1..], x.time);
      }
      InsertSorted(q[1..], e);
      StillNotBefore(r, if q[1..] != [] && q[1].time < e.time then q[1].time else e.time, x.time);
      SortedCons(x, r);
    } else {
      SortedParts(q);
      StillNotBefore(q, q[0].time, e.time);
      SortedCons(e, q);
    }
  }

  lemma {:induction false} InsertComplete<T>(q: seq<Event<T>>, e: Event<T>)
    ensures multiset(Insert(q, e)) == multiset(q) + multiset{e}
  {
    if q != [] && q[0].time <= e.time {
      InsertComplete(q[1..], e);
      assert q == [q[0]] + q[1..];
    }
  }

  lemma AtTimeCons<T>(x: Event<T>, r: seq<Event<T>>, t: nat)
    ensures AtTime([x] + r, t) == (if x.time == t then [x] else []) + AtTime(r, t)
  {
    assert ([x] + r)[1..] == r;
  }

  // ... and puts an event behind those of its own time.
  lemma {:induction false} InsertAt<T>(q: seq<Event<T>>, e: Event<T>, t: nat)
    requires Sorted(q)
    ensures AtTime(Insert(q, e), t) == AtTime(q, t) + if e.time == t then [e] else []
  {
    hide AtTime, Sorted;
    if q == [] {
      AtTimeCons(e, q, t);
      NothingAt<T>(t);
      assert [e] + q == [e];
    } else if q[0].time <= e.time {
      SortedParts(q);
      InsertAt(q[1..], e, t);
      AtTimeCons(q[0], Insert(q[1..], e), t);
      AtTimeCons(q[0], q[1..], t);
      assert [q[0]] + q[1..] == q;
    } else {
      AtTimeCons(e, q, t);
      if e.time == t {
        NoneBefore(q, t);
      }
    }
  }

  lemma Inserted<T>(q: seq<Event<T>>, e: Event<T>)
    ensures multiset(Insert(q, e)) == multiset(q) + multiset{e}
    ensures Sorted(q) ==> Sorted(Insert(q, e))
    ensures Sorted(q) ==>
              forall t {:trigger AtTime(Insert(q, e), t)} ::
                AtTime(Insert(q, e), t) == AtTime(q, t) + if e.time == t then [e] else []
  {
    hide Sorted, Insert, AtTime, NotBefore;
    InsertComplete(q, e);
    if Sorted(q) {
      InsertSorted(q, e);
      forall t {:trigger AtTime(Insert(q, e), t)}
        ensures AtTime(Insert(q, e), t) == AtTime(q, t) + if e.time == t then [e] else []
      {
        InsertAt(q, e, t);
      }
    }
  }

  ghost predicate SameTimes<T>(q: seq<Event<T>>, r: seq<Event<T>>) {
    forall t: nat :: AtTime(q, t) == AtTime(r, t)
  }

  // Order and the sequence of events at every time determine a queue.
  lemma {:induction false} SameQueue<T>(q: seq<Event<T>>, r: seq<Event<T>>)
    requires Sorted(q) && Sorted(r) && SameTimes(q, r)
    ensures q == r
  {
    if q != [] {
      SameHead(q, r);
      SameTail(q, r);
      SameQueue(q[1..], r[1..]);
    } else if r != [] {
      SameHead(r, q);
    }
  }

  lemma SameHead<T>(q: seq<Event<T>>, r: seq<Event<T>>)
    requires Sorted(q) && Sorted(r) && SameTimes(q, r) && q != []
    ensures r != [] && q[0] == r[0]
  {
    hide Sorted;
    var t := q[0].time;
    assert AtTime(q, t) == AtTime(r, t) && AtTime(q, t)[0] == q[0];
    if r[0].time != t {
      var u := r[0].time;
      assert AtTime(q, u) == AtTime(r, u) && AtTime(r, u)[0] == r[0];
      if u < t {
        NoneBefore(q, u);
      } else {
        NoneBefore(r, t);
      }
    }
  }

  lemma NoneBefore<T>(q: seq<Event<T>>, t: nat)
    requires Sorted(q) && (q == [] || t < q[0].time)
    ensures AtTime(q, t) == []
  {
    NoneAt(q, t);
  }

  lemma SameTail<T>(q: seq<Event<T>>, r: seq<Event<T>>)
    requires SameTimes(q, r) && q != [] && r != [] && q[0] == r[0]
    ensures SameTimes(q[1..], r[1..])
  {
    forall t: nat ensures AtTime(q[1..], t) == AtTime(r[1..], t) {
      assert AtTime(q, t) == AtTime(r, t);
      var head := if q[0].time == t then [q[0]] else [];
      assert AtTime(q, t) == head + AtTime(q[1..], t) && AtTime(r, t) == head + AtTime(r[1..], t);
      assert (head + AtTime(q[1..], t))[|head|..] == AtTime(q[1..], t);
      assert (head + AtTime(r[1..], t))[|head|..] == AtTime(r[1..], t);
    }
  }

  // The queue after any number of inserts: sorted and complete, ...
  lemma {:induction false} InsertAllSorted<T>(q: seq<Event<T>>, es: seq<Event<T>>)
    requires Sorted(q)
    ensures Sorted(InsertAll(q, es)) && multiset(InsertAll(q, es)) == multiset(q) + multiset(es)
  {
    hide Sorted, NotBefore, Insert, InsertAll;
    InsertAllStep(q, es);
    if es != [] {
      var es', e := es[..|es| - 1], es[|es| - 1];
      InsertAllSorted(q, es');
      InsertSorted(InsertAll(q, es'), e);
      InsertComplete(InsertAll(q, es'), e);
      assert es == es' + [e];
    }
  }

  lemma InsertAllStep<T>(q: seq<Event<T>>, es: seq<Event<T>>)
    ensures InsertAll(q, es) == if es == [] then q else Insert(InsertAll(q, es[..|es| - 1]), es[|es| - 1])
  {
  }

  lemma NothingAt<T>(t: nat)
    ensures AtTime<T>([], t) == []
  {
  }

  // ... and stable: events of one time are in order of arrival.
  lemma {:induction false} InsertAllAt<T>(q: seq<Event<T>>, es: seq<Event<T>>, t: nat)
    requires Sorted(q)
    ensures AtTime(InsertAll(q, es), t) == AtTime(q, t) + AtTime(es, t)
  {
    hide Sorted, AtTime, Insert, InsertAll;
    InsertAllStep(q, es);
    if es == [] {
      NothingAt<T>(t);
    } else {
      var es', e := es[..|es| - 1], es[|es| - 1];
      InsertAllSorted(q, es');
      InsertAllAt(q, es', t);
      InsertAt(InsertAll(q, es'), e, t);
      assert es == es' + [e];
      AtTimeAppend(es', e, t);
    }
  }

  lemma {:induction false} AtTimeAppend<T>(q: seq<Event<T>>, e: Event<T>, t: nat)
    ensures AtTime(q + [e], t) == AtTime(q, t) + if e.time == t then [e] else []
  {
    hide AtTime;
    if q == [] {
      AtTimeCons(e, q, t);
      NothingAt<T>(t);
      assert [e] + q == q + [e];
    } else {
      AtTimeAppend(q[1..], e, t);
      AtTimeCons(q[0], q[1..], t);
      AtTimeCons(q[0], q[1..] + [e], t);
      assert [q[0]] + q[1..] == q && [q[0]] + (q[1..] + [e]) == q + [e];
    }
  }

  // Events that arrive in order stay in arrival order, and only those.
  lemma ArrivalOrder<T>(es: seq<Event<T>>)
    ensures InsertAll([], es) == es <==> Sorted(es)
  {
    InsertAllSorted([], es);
    if Sorted(es) {
      forall t: nat ensures AtTime(InsertAll([], es), t) == AtTime(es, t) {
        InsertAllAt([], es, t);
      }
      SameQueue(InsertAll([], es), es);
    }
  }

  // Inserting one batch after another is inserting both.
  lemma {:induction false} InsertAllAppend<P>(q: seq<Event<P>>, a: seq<Event<P>>, b: seq<Event<P>>)
    ensures InsertAll(q, a + b) == InsertAll(InsertAll(q, a), b)
  {
    if b == [] {
      assert a + b == a;
    } else {
      assert (a + b)[..|a + b| - 1] == a + b[..|b| - 1];
      InsertAllAppend(q, a, b[..|b| - 1]);
    }
  }

  // New events stay behind a queue, in their order of arrival, if and only if that is the order of time.
  lemma ArrivalBehind<T>(q: seq<Event<T>>, es: seq<Event<T>>)
    requires Sorted(q)
    ensures InsertAll(q, es) == q + es <==> Sorted(q + es)
  {
    hide Sorted, InsertAll;
    ArrivalOrder(q);
    ArrivalOrder(q + es);
    InsertAllAppend([], q, es);
  }

  // ---------------------------------------------------------------- one period

  // The first frame after the period, as a 32-bit frame count.
  function End(last: nat, frames: nat): nat {
    (last + frames) % TWO_32
  }

  // How many events the loop takes before it meets one of a later period.
  function Due<T>(q: seq<Event<T>>, end: nat): (k: nat)
    ensures k <= |q| && (forall i :: 0 <= i < k ==> q[i].time < end) && (k < |q| ==> q[k].time >= end)
  {
    if q == [] || q[0].time >= end then 0 else 1 + Due(q[1..], end)
  }

  // Immediate events and late events get the start of the period.
  function Clamp(t: nat, last: nat): nat {
    if t == 0 || t < last then last else t
  }

  function Delivered<T>(q: seq<Event<T>>, last: nat, frames: nat): seq<Event<T>> {
    var k := Due(q, End(last, frames));
    seq(k, i requires 0 <= i < k => q[i].(time := Clamp(q[i].time, last)))
  }

  function Rest<T>(q: seq<Event<T>>, last: nat, frames: nat): seq<Event<T>> {
    q[Due(q, End(last, frames))..]
  }

  // Without wrap-around a drain delivers within the period, in order of time, at
  // the time asked for unless that is past, and leaves only later events.
  lemma OnTime<T>(q: seq<Event<T>>, last: nat, frames: nat)
    requires Sorted(q) && last + frames < TWO_32
    ensures Sorted(Delivered(q, last, frames)) && Sorted(Rest(q, last, frames))
    ensures forall i :: 0 <= i < |Delivered(q, last, frames)| ==>
              var t := Delivered(q, last, frames)[i].time;
              last <= t && (frames > 0 ==> t < last + frames) && (t != q[i].time ==> q[i].time < last && t == last)
    ensures forall i :: 0 <= i < |Rest(q, last, frames)| ==> Rest(q, last, frames)[i].time >= last + frames
  {
  }

  // A drain takes the first events, each with its own payload.
  lemma OwnPayload<T>(q: seq<Event<T>>, last: nat, frames: nat)
    requires Sorted(q) && last + frames < TWO_32
    ensures forall k :: 0 <= k < |q| ==> (k < |Delivered(q, last, frames)| <==> q[k].time < last + frames)
    ensures |Delivered(q, last, frames)| <= |q| && Rest(q, last, frames) == q[|Delivered(q, last, frames)|..]
    ensures forall i :: 0 <= i < |Delivered(q, last, frames)| ==> Delivered(q, last, frames)[i].data == q[i].data
  {
    hide Due, Sorted;
    NoWrap(last, frames);
    forall k | 0 <= k < |q| ensures k < Due(q, last + frames) <==> q[k].time < last + frames {
      DueExactly(q, last + frames, k);
    }
  }

  // With or without wrap-around, deliveries are in order and between the start and the end of the period.
  lemma Clamped<T>(q: seq<Event<T>>, last: nat, frames: nat)
    requires Sorted(q)
    ensures Sorted(Delivered(q, last, frames)) && Sorted(Rest(q, last, frames)) &&
            NotBefore(Delivered(q, last, frames), last)
    ensures forall i :: 0 <= i < |Delivered(q, last, frames)| ==> Delivered(q, last, frames)[i].time <= last + frames
  {
    assert End(last, frames) <= last + frames;
  }

  // Events of the period go through its drain as they are.
  lemma AllDelivered<T>(q: seq<Event<T>>, last: nat, n: nat)
    requires last + n < TWO_32 && Sorted(q) && forall i :: 0 <= i < |q| ==> last <= q[i].time < last + n
    ensures InsertAll([], q) == q && Delivered(q, last, n) == q && Rest(q, last, n) == []
  {
    hide Sorted, InsertAll, Due;
    ArrivalOrder(q);
    AllDue(q, last, n);
    forall i | 0 <= i < |q| ensures q[i].(time := Clamp(q[i].time, last)) == q[i] {
      ClampNothing(q[i], last);
    }
  }

  lemma ClampNothing<T>(e: Event<T>, last: nat)
    requires last <= e.time
    ensures e.(time := Clamp(e.time, last)) == e
  {
  }

  lemma AllDue<T>(q: seq<Event<T>>, last: nat, n: nat)
    requires last + n < TWO_32 && forall i :: 0 <= i < |q| ==> last <= q[i].time < last + n
    ensures Due(q, End(last, n)) == |q|
  {
    hide Due;
    assert forall i :: 0 <= i < |q| ==> q[i].time < End(last, n);
    var k := Due(q, End(last, n));
    assert k <= |q|;
  }

  // ---------------------------------------------------------------- ties

  // The events at or before time b, in order.
  function UpTo<T>(q: seq<Event<T>>, b: nat): seq<Event<T>> {
    if q == [] then [] else (if q[0].time <= b then [q[0]] else []) + UpTo(q[1..], b)
  }

  lemma UpToCons<T>(x: Event<T>, r: seq<Event<T>>, b: nat)
    ensures UpTo([x] + r, b) == (if x.time <= b then [x] else []) + UpTo(r, b)
  {
    assert ([x] + r)[1..] == r;
  }

  lemma NoneUpTo<T>(b: nat)
    ensures UpTo<T>([], b) == []
  {
  }

  lemma {:induction false} UpToLater<T>(q: seq<Event<T>>, t: nat, b: nat)
    requires NotBefore(q, t) && b < t
    ensures UpTo(q, b) == []
  {
    if q != [] {
      UpToLater(q[1..], t, b);
    }
  }

  lemma {:induction false} UpToInsert<T>(q: seq<Event<T>>, e: Event<T>, b: nat)
    requires Sorted(q)
    ensures UpTo(Insert(q, e), b) == if e.time <= b then Insert(UpTo(q, b), e) else UpTo(q, b)
  {
    hide UpTo, Sorted, NotBefore;
    NoneUpTo<T>(b);
    if q == [] {
      UpToCons(e, q, b);
      assert [e] + q == [e];
    } else if q[0].time <= e.time {
      var x, r := q[0], q[1..];
      SortedParts(q);
      UpToInsert(r, e, b);
      UpToCons(x, Insert(r, e), b);
      UpToCons(x, r, b);
      assert [x] + r == q;
      if x.time <= b {
        assert ([x] + UpTo(r, b))[1..] == UpTo(r, b);
      } else {
        SortedParts(q);
        UpToLater(r, x.time, b);
      }
    } else {
      UpToCons(e, q, b);
      UpToCons(q[0], q[1..], b);
      assert [q[0]] + q[1..] == q;
      SortedParts(q);
      if q[0].time <= b {
        assert Insert([q[0]] + UpTo(q[1..], b), e) == [e] + ([q[0]] + UpTo(q[1..], b));
      } else {
        UpToLater(q[1..], q[0].time, b);
      }
    }
  }

  lemma {:induction false} UpToAppend<T>(q: seq<Event<T>>, e: Event<T>, b: nat)
    ensures UpTo(q + [e], b) == UpTo(q, b) + if e.time <= b then [e] else []
  {
    hide UpTo;
    NoneUpTo<T>(b);
    if q == [] {
      UpToCons(e, q, b);
      assert [e] + q == q + [e];
    } else {
      UpToAppend(q[1..], e, b);
      UpToCons(q[0], q[1..], b);
      UpToCons(q[0], q[1..] + [e], b);
      assert [q[0]] + q[1..] == q && [q[0]] + (q[1..] + [e]) == q + [e];
    }
  }

  // The early part of a queue is the queue of the early events.
  lemma {:induction false} UpToInsertAll<T>(q: seq<Event<T>>, es: seq<Event<T>>, b: nat)
    requires Sorted(q)
    ensures UpTo(InsertAll(q, es), b) == InsertAll(UpTo(q, b), UpTo(es, b))
  {
    hide UpTo, Sorted, Insert, InsertAll;
    NoneUpTo<T>(b);
    InsertAllStep(q, es);
    if es == [] {
      assert es == [];
      InsertAllStep(UpTo(q, b), UpTo(es, b));
    } else {
      var es', e := es[..|es| - 1], es[|es| - 1];
      UpToInsertAll(q, es', b);
      InsertAllSorted(q, es');
      UpToInsert(InsertAll(q, es'), e, b);
      UpToAppend(es', e, b);
      assert es == es' + [e];
      var u := UpTo(es', b);
      InsertAllStep(UpTo(q, b), u + [e]);
      assert (u + [e])[..|u|] == u && u + [] == u;
    }
  }

  lemma {:induction false} UpToSorted<T>(q: seq<Event<T>>, b: nat)
    requires Sorted(q)
    ensures Sorted(UpTo(q, b)) && (q != [] ==> NotBefore(UpTo(q, b), q[0].time))
  {
    hide Sorted, NotBefore, UpTo;
    NoneUpTo<T>(b);
    NoneSorted<T>(b);
    if q != [] {
      var x, r := q[0], q[1..];
      NoneSorted<T>(x.time);
      SortedParts(q);
      UpToSorted(r, b);
      UpToCons(x, r, b);
      assert [x] + r == q && [] + UpTo(r, b) == UpTo(r, b);
      if r != [] {
        FirstTime(r, x.time);
        StillNotBefore(UpTo(r, b), r[0].time, x.time);
      }
      SortedCons(x, UpTo(r, b));
    }
  }

  lemma NoneSorted<T>(t: nat)
    ensures Sorted<T>([]) && NotBefore<T>([], t)
  {
  }

  // Ties at the start of a period, where all past and immediate events go: what
  // was left in the queue and what arrives come in that order if and only if it
  // is the order of their own times.
  lemma TiesAtStart<T>(q: seq<Event<T>>, es: seq<Event<T>>, last: nat)
    requires Sorted(q)
    ensures UpTo(InsertAll(q, es), last) == UpTo(q, last) + UpTo(es, last) <==> Sorted(UpTo(q, last) + UpTo(es, last))
  {
    UpToInsertAll(q, es, last);
    UpToSorted(q, last);
    ArrivalBehind(UpTo(q, last), UpTo(es, last));
  }

  // An event left for exactly the start of the period is overtaken by a late one.
  lemma Overtaken<T>(a: T, b: T)
    ensures var q, es := [Event(10, a)], [Event(5, b)];
            && UpTo(InsertAll(q, es), 10) == [Event(5, b), Event(10, a)]
            && UpTo(q, 10) + UpTo(es, 10) == [Event(10, a), Event(5, b)]
            && Delivered(InsertAll(q, es), 10, 64) == [Event(10, b), Event(10, a)]
  {
    var x, y := Event(10, a), Event(5, b);
    assert [y][..0] == [] && InsertAll([x], [y]) == [y] + [x];
    UpToCons(y, [x], 10);
    UpToCons(x, [], 10);
    UpToCons(y, [], 10);
    assert [x] + [] == [x] && [y] + [] == [y] && [y] + [x] == [y, x];
    assert [y, x][1..] == [x] && [x][1..] == [];
    assert Due([y, x], 74) == 2;
  }

  function MovedTo<T>(q: seq<Event<T>>, t: nat): (r: seq<Event<T>>)
    ensures |r| == |q|
  {
    seq(|q|, i requires 0 <= i < |q| => q[i].(time := t))
  }

  lemma MovedStep<T>(q: seq<Event<T>>, t: nat)
    ensures MovedTo(q, t) == if q == [] then [] else [q[0].(time := t)] + MovedTo(q[1..], t)
  {
  }

  lemma DeliveredStep<T>(q: seq<Event<T>>, last: nat, frames: nat)
    requires last + frames < TWO_32
    ensures Delivered(q, last, frames) ==
            if q == [] || q[0].time >= last + frames then []
            else [q[0].(time := Clamp(q[0].time, last))] + Delivered(q[1..], last, frames)
  {
  }

  // What a drain delivers at the start of the period: the events of UpTo, in that order.
  lemma {:induction false} DeliveredAtStart<T>(q: seq<Event<T>>, last: nat, frames: nat)
    requires Sorted(q) && 0 < frames && last + frames < TWO_32
    ensures AtTime(Delivered(q, last, frames), last) == MovedTo(UpTo(q, last), last)
  {
    hide AtTime, Sorted, UpTo, NotBefore, Delivered, MovedTo;
    NothingAt<T>(last);
    NoneUpTo<T>(last);
    DeliveredStep(q, last, frames);
    MovedStep(q, last);
    if q == [] {
      assert UpTo(q, last) == [];
    } else {
      var x, r := q[0], q[1..];
      SortedParts(q);
      assert q == [x] + r;
      UpToCons(x, r, last);
      if x.time < last + frames {
        var c := x.(time := Clamp(x.time, last));
        DeliveredAtStart(r, last, frames);
        AtTimeCons(c, Delivered(r, last, frames), last);
        MovedStep([x] + UpTo(r, last), last);
        assert ([x] + UpTo(r, last))[1..] == UpTo(r, last) && [] + UpTo(r, last) == UpTo(r, last);
      } else {
        UpToLater(q, x.time, last);
        MovedStep<T>([], last);
      }
    }
  }

  // Ties at any later time are in order of arrival.
  lemma TiesOnTime<T>(q: seq<Event<T>>, es: seq<Event<T>>, last: nat, frames: nat, t: nat)
    requires Sorted(q) && last < t < last + frames < TWO_32
    ensures AtTime(Delivered(InsertAll(q, es), last, frames), t) == AtTime(q, t) + AtTime(es, t)
  {
    hide AtTime, InsertAll, Delivered;
    InsertAllSorted(q, es);
    InsertAllAt(q, es, t);
    DeliveredAt(InsertAll(q, es), last, frames, t);
  }

  lemma {:induction false} DeliveredAt<T>(q: seq<Event<T>>, last: nat, frames: nat, t: nat)
    requires Sorted(q) && last < t < last + frames < TWO_32
    ensures AtTime(Delivered(q, last, frames), t) == AtTime(q, t)
  {
    hide AtTime, Sorted, Delivered;
    NothingAt<T>(t);
    DeliveredStep(q, last, frames);
    if q != [] {
      var x, r := q[0], q[1..];
      SortedParts(q);
      assert q == [x] + r;
      if x.time < last + frames {
        var c := x.(time := Clamp(x.time, last));
        DeliveredAt(r, last, frames, t);
        AtTimeCons(c, Delivered(r, last, frames), t);
        AtTimeCons(x, r, t);
      } else {
        NoneBefore(q, t);
      }
    }
  }

  // Frame i of a period has the 32-bit stamp (last + i) % 2^32.  An event with
  // that stamp goes out at its frame if and only if the frame count does not wrap
  // within the period.
  lemma DueUnlessWrapped<T>(q: seq<Event<T>>, last: nat, frames: nat, i: nat, k: nat)
    requires Sorted(q) && last < TWO_32 && frames < TWO_32 && i < frames
    requires k < |q| && q[k].time == (last + i) % TWO_32
    ensures (k < |Delivered(q, last, frames)| && Delivered(q, last, frames)[k].time == last + i) <==>
            last + frames < TWO_32
  {
    hide Due, Sorted;
    var end := End(last, frames);
    if last + frames < TWO_32 {
      DueExactly(q, end, k);
    } else {
      WrappedStamp(q, last, frames, i, k);
    }
  }

  // In a sorted queue exactly the events before the end are due.
  lemma DueExactly<T>(q: seq<Event<T>>, end: nat, k: nat)
    requires Sorted(q) && k < |q|
    ensures k < Due(q, end) <==> q[k].time < end
  {
    hide Due;
    if Due(q, end) <= k {
      assert q[Due(q, end)].time <= q[k].time;
    }
  }

  // In a period that wraps, an event stamped before the wrap stays in the queue,
  // and one stamped behind it goes out at the start of the period.
  lemma WrappedStamp<T>(q: seq<Event<T>>, last: nat, frames: nat, i: nat, k: nat)
    requires Sorted(q) && last < TWO_32 && frames < TWO_32 <= last + frames && i < frames
    requires k < |q| && q[k].time == (last + i) % TWO_32
    ensures last + i < TWO_32 ==> k >= |Delivered(q, last, frames)|
    ensures last + i >= TWO_32 ==>
            i > 0 && k < |Delivered(q, last, frames)| && Delivered(q, last, frames)[k].time == last
  {
    hide Due, Sorted;
    assert End(last, frames) == last + frames - TWO_32;
    if last + i >= TWO_32 {
      assert q[k].time == last + i - TWO_32;
    }
    DueExactly(q, End(last, frames), k);
  }

  // With a period of 3 frames from 2^32 - 1 on, the event of the third frame goes out two frames early.
  lemma TwoFramesEarly<T>(x: T)
    ensures (TWO_32 - 1 + 2) % TWO_32 == 1
    ensures Delivered([Event(1, x)], TWO_32 - 1, 3) == [Event(TWO_32 - 1, x)]
  {
    assert [Event(1, x)][1..] == [];
    assert Due([Event(1, x)], 2) == 1;
  }

  // ---------------------------------------------------------------- contiguous periods

  // A period and the events scheduled before its drain, in order of arrival.
  datatype Period<T> = Period(frames: nat, scheduled: seq<Event<T>>)

  // The events that each period takes from the queue.
  function Taken<T>(q: seq<Event<T>>, last: nat, ps: seq<Period<T>>): (r: seq<seq<Event<T>>>)
    ensures |r| == |ps|
    decreases |ps|
  {
    if ps == [] then [] else
      var q1 := InsertAll(q, ps[0].scheduled);
      var k := Due(q1, End(last, ps[0].frames));
      [q1[..k]] + Taken(q1[k..], End(last, ps[0].frames), ps[1..])
  }

  function StartOf<T>(last: nat, ps: seq<Period<T>>, j: nat): nat
    requires j <= |ps|
    decreases j
  {
    if j == 0 then last else StartOf(last + ps[0].frames, ps[1..], j - 1)
  }

  // How often e is scheduled up to period j.
  ghost function Scheduled<T>(ps: seq<Period<T>>, j: nat, e: Event<T>): nat
    requires j < |ps|
  {
    multiset(ps[0].scheduled)[e] + if j == 0 then 0 else Scheduled(ps[1..], j - 1, e)
  }

  // In a sorted queue an event is taken by a drain, all its copies, if and only if its time is before the end.
  lemma TakenSplit<T>(q: seq<Event<T>>, end: nat, e: Event<T>)
    requires Sorted(q)
    ensures var k := Due(q, end);
            && multiset(q[..k])[e] == (if e.time < end then multiset(q)[e] else 0)
            && multiset(q[k..])[e] == (if e.time < end then 0 else multiset(q)[e])
  {
    var k := Due(q, end);
    assert q == q[..k] + q[k..];
    if e.time < end {
      forall i | k <= i < |q| ensures q[i] != e {
        assert q[k].time <= q[i].time;
      }
      CountNone(q[k..], e);
    } else {
      CountNone(q[..k], e);
    }
  }

  lemma CountNone<T>(q: seq<Event<T>>, e: Event<T>)
    requires forall i :: 0 <= i < |q| ==> q[i] != e
    ensures multiset(q)[e] == 0
  {
    assert e !in q;
  }

  // The copies of e that period j takes are all those scheduled so far if the
  // time of e lies in the period, none if it lies behind it, and those scheduled
  // in this very period if it lies before it.
  ghost predicate TakenWhenDue<T>(q: seq<Event<T>>, last: nat, ps: seq<Period<T>>, j: nat, e: Event<T>)
    requires j < |ps|
  {
    multiset(Taken(q, last, ps)[j])[e] ==
      if e.time >= StartOf(last, ps, j + 1) then 0
      else if e.time < StartOf(last, ps, j) then multiset(ps[j].scheduled)[e]
      else multiset(q)[e] + Scheduled(ps, j, e)
  }

  // Exactly once and on time, over any run of periods without wrap-around.
  lemma {:induction false} ExactlyOnce<T>(q: seq<Event<T>>, last: nat, ps: seq<Period<T>>, j: nat, e: Event<T>)
    requires Sorted(q) && NotBefore(q, last) && j < |ps| && StartOf(last, ps, |ps|) < TWO_32
    ensures TakenWhenDue(q, last, ps, j, e)
    decreases j
  {
    hide Sorted, NotBefore, InsertAll, Due, Taken, StartOf, Scheduled, TakenWhenDue;
    var end, q1 := last + ps[0].frames, InsertAll(q, ps[0].scheduled);
    StartStep(last, ps, |ps|);
    StartsGrow(end, ps[1..], |ps| - 1);
    FirstPeriod(q, ps[0].scheduled, end, last, e);
    if j == 0 {
      DueFirst(q, last, ps, e);
    } else {
      ExactlyOnce(q1[Due(q1, end)..], end, ps[1..], j - 1, e);
      DueLater(q, last, ps, j, e);
    }
  }

  lemma DueFirst<T>(q: seq<Event<T>>, last: nat, ps: seq<Period<T>>, e: Event<T>)
    requires Sorted(q) && NotBefore(q, last) && ps != [] && last + ps[0].frames < TWO_32
    ensures TakenWhenDue(q, last, ps, 0, e)
  {
    hide Sorted, NotBefore, InsertAll, Due, Taken, StartOf, Scheduled;
    TakenStep(q, last, ps);
    StartStep(last, ps, 0);
    StartStep(last, ps, 1);
    StartStep(last + ps[0].frames, ps[1..], 0);
    ScheduledStep(ps, 0, e);
    FirstPeriod(q, ps[0].scheduled, last + ps[0].frames, last, e);
  }

  lemma DueLater<T>(q: seq<Event<T>>, last: nat, ps: seq<Period<T>>, j: nat, e: Event<T>)
    requires Sorted(q) && NotBefore(q, last) && 0 < j < |ps| && last + ps[0].frames < TWO_32
    requires var end, q1 := last + ps[0].frames, InsertAll(q, ps[0].scheduled);
             TakenWhenDue(q1[Due(q1, end)..], end, ps[1..], j - 1, e)
    ensures TakenWhenDue(q, last, ps, j, e)
  {
    hide Sorted, NotBefore, InsertAll, Due, Taken, StartOf, Scheduled;
    var end := last + ps[0].frames;
    TakenStep(q, last, ps);
    StartStep(last, ps, j);
    StartStep(last, ps, j + 1);
    ScheduledStep(ps, j, e);
    FirstPeriod(q, ps[0].scheduled, end, last, e);
    StartsGrow(end, ps[1..], j - 1);
    StartsGrow(end, ps[1..], j);
  }

  lemma StartStep<T>(last: nat, ps: seq<Period<T>>, j: nat)
    requires j <= |ps|
    ensures StartOf(last, ps, j) == if j == 0 then last else StartOf(last + ps[0].frames, ps[1..], j - 1)
  {
  }

  lemma ScheduledStep<T>(ps: seq<Period<T>>, j: nat, e: Event<T>)
    requires j < |ps|
    ensures Scheduled(ps, j, e) == multiset(ps[0].scheduled)[e] + if j == 0 then 0 else Scheduled(ps[1..], j - 1, e)
  {
  }

  lemma TakenStep<T>(q: seq<Event<T>>, last: nat, ps: seq<Period<T>>)
    requires ps != []
    ensures var q1, end := InsertAll(q, ps[0].scheduled), End(last, ps[0].frames);
            Taken(q, last, ps) == [q1[..Due(q1, end)]] + Taken(q1[Due(q1, end)..], end, ps[1..])
  {
  }

  // What the first drain takes and leaves.
  lemma FirstPeriod<T>(q: seq<Event<T>>, es: seq<Event<T>>, end: nat, last: nat, e: Event<T>)
    requires Sorted(q) && last <= end && NotBefore(q, last)
    ensures var q1 := InsertAll(q, es); var k := Due(q1, end);
            && Sorted(q1[k..]) && NotBefore(q1[k..], end)
            && multiset(q1[..k])[e] ==
               (if e.time >= end then 0 else multiset(es)[e] + if e.time < last then 0 else multiset(q)[e])
            && multiset(q1[k..])[e] == (if e.time < end then 0 else multiset(q)[e] + multiset(es)[e])
  {
    var q1 := InsertAll(q, es);
    InsertAllSorted(q, es);
    TakenSplit(q1, end, e);
    if e.time < last {
      CountNone(q, e);
    }
    assert multiset(q1)[e] == multiset(q)[e] + multiset(es)[e];
    var k := Due(q1, end);
    forall i | k <= i < |q1| ensures q1[i].time >= end {
      assert q1[k].time <= q1[i].time;
    }
  }

  lemma {:induction false} StartsGrow<T>(last: nat, ps: seq<Period<T>>, j: nat)
    requires j <= |ps|
    ensures StartOf(last, ps, j) >= last
    decreases j
  {
    if j > 0 {
      StartsGrow(last + ps[0].frames, ps[1..], j - 1);
    }
  }

  // ---------------------------------------------------------------- order over a run

  // Everything scheduled up to period j, in order of arrival.
  function Arrived<T>(ps: seq<Period<T>>, j: nat): seq<Event<T>>
    requires j < |ps|
  {
    ps[0].scheduled + if j == 0 then [] else Arrived(ps[1..], j - 1)
  }

  lemma ArrivedStep<T>(ps: seq<Period<T>>, j: nat)
    requires j < |ps|
    ensures Arrived(ps, j) == ps[0].scheduled + if j == 0 then [] else Arrived(ps[1..], j - 1)
  {
  }

  lemma {:induction false} AtTimeConcat<T>(a: seq<Event<T>>, b: seq<Event<T>>, t: nat)
    ensures AtTime(a + b, t) == AtTime(a, t) + AtTime(b, t)
  {
    hide AtTime;
    NothingAt<T>(t);
    if a == [] {
      assert a + b == b;
    } else {
      AtTimeConcat(a[1..], b, t);
      AtTimeCons(a[0], a[1..], t);
      AtTimeCons(a[0], a[1..] + b, t);
      assert [a[0]] + a[1..] == a && [a[0]] + (a[1..] + b) == a + b;
    }
  }

  // What the first drain takes and leaves, time by time.
  lemma FirstPeriodAt<T>(q: seq<Event<T>>, es: seq<Event<T>>, end: nat, last: nat, t: nat)
    requires Sorted(q) && last <= end && NotBefore(q, last)
    ensures var q1 := InsertAll(q, es); var k := Due(q1, end);
            && Sorted(q1) && Sorted(q1[k..]) && NotBefore(q1[k..], end)
            && AtTime(q1[..k], t) == (if t >= end then [] else (if t < last then [] else AtTime(q, t)) + AtTime(es, t))
            && AtTime(q1[k..], t) == (if t < end then [] else AtTime(q, t) + AtTime(es, t))
  {
    hide InsertAll, AtTime, Sorted, Due;
    InsertAllSorted(q, es);
    InsertAllAt(q, es, t);
    DueOrder(InsertAll(q, es), end);
    DueParts(InsertAll(q, es), end, t);
    if t < last {
      NoneAt(q, t);
    }
  }

  // What a drain leaves is in order and later.
  lemma DueOrder<T>(q: seq<Event<T>>, end: nat)
    requires Sorted(q)
    ensures Sorted(q[Due(q, end)..]) && NotBefore(q[Due(q, end)..], end)
  {
    hide Due;
    var k := Due(q, end);
    forall i | k <= i < |q| ensures q[i].time >= end {
      assert q[k].time <= q[i].time;
    }
  }

  // A drain takes the events before its end and no others.
  lemma DueParts<T>(q: seq<Event<T>>, end: nat, t: nat)
    requires Sorted(q)
    ensures AtTime(q[..Due(q, end)], t) == if t < end then AtTime(q, t) else []
    ensures AtTime(q[Due(q, end)..], t) == if t < end then [] else AtTime(q, t)
  {
    hide AtTime, Due, Sorted;
    var k := Due(q, end);
    DueOrder(q, end);
    AtTimeConcat(q[..k], q[k..], t);
    assert q[..k] + q[k..] == q;
    if t >= end {
      NoneAt(q[..k], t);
    } else {
      NoneAt(q[k..], t);
    }
  }

  // What period j takes at time t: all of that time so far, in order of arrival,
  // if t is in the period; nothing if it lies behind; and what was scheduled in
  // this very period, too late, if it lies before.
  ghost predicate TakenInOrder<T>(q: seq<Event<T>>, last: nat, ps: seq<Period<T>>, j: nat, t: nat)
    requires j < |ps|
  {
    AtTime(Taken(q, last, ps)[j], t) ==
      if t >= StartOf(last, ps, j + 1) then []
      else if t < StartOf(last, ps, j) then AtTime(ps[j].scheduled, t)
      else AtTime(q, t) + AtTime(Arrived(ps, j), t)
  }

  lemma {:induction false} InOrder<T>(q: seq<Event<T>>, last: nat, ps: seq<Period<T>>, j: nat, t: nat)
    requires Sorted(q) && NotBefore(q, last) && j < |ps| && StartOf(last, ps, |ps|) < TWO_32
    ensures TakenInOrder(q, last, ps, j, t)
    decreases j
  {
    hide Sorted, NotBefore, InsertAll, Due, Taken, StartOf, Arrived, TakenInOrder, AtTime;
    var end, q1 := last + ps[0].frames, InsertAll(q, ps[0].scheduled);
    StartStep(last, ps, |ps|);
    StartsGrow(end, ps[1..], |ps| - 1);
    FirstPeriodAt(q, ps[0].scheduled, end, last, t);
    if j == 0 {
      InOrderFirst(q, last, ps, t);
    } else {
      InOrder(q1[Due(q1, end)..], end, ps[1..], j - 1, t);
      InOrderLater(q, last, ps, j, t);
    }
  }

  lemma InOrderFirst<T>(q: seq<Event<T>>, last: nat, ps: seq<Period<T>>, t: nat)
    requires Sorted(q) && NotBefore(q, last) && ps != [] && last + ps[0].frames < TWO_32
    ensures TakenInOrder(q, last, ps, 0, t)
  {
    hide Sorted, NotBefore, InsertAll, Due, Taken, StartOf, Arrived, AtTime;
    TakenStep(q, last, ps);
    StartStep(last, ps, 0);
    StartStep(last, ps, 1);
    StartStep(last + ps[0].frames, ps[1..], 0);
    ArrivedStep(ps, 0);
    FirstPeriodAt(q, ps[0].scheduled, last + ps[0].frames, last, t);
    assert ps[0].scheduled + [] == ps[0].scheduled;
    assert [] + AtTime(ps[0].scheduled, t) == AtTime(ps[0].scheduled, t);
  }

  lemma InOrderLater<T>(q: seq<Event<T>>, last: nat, ps: seq<Period<T>>, j: nat, t: nat)
    requires Sorted(q) && NotBefore(q, last) && 0 < j < |ps| && last + ps[0].frames < TWO_32
    requires var end, q1 := last + ps[0].frames, InsertAll(q, ps[0].scheduled);
             TakenInOrder(q1[Due(q1, end)..], end, ps[1..], j - 1, t)
    ensures TakenInOrder(q, last, ps, j, t)
  {
    hide Sorted, NotBefore, InsertAll, Due, Taken, StartOf, Arrived, AtTime;
    var end := last + ps[0].frames;
    TakenStep(q, last, ps);
    StartStep(last, ps, j);
    StartStep(last, ps, j + 1);
    ArrivedStep(ps, j);
    FirstPeriodAt(q, ps[0].scheduled, end, last, t);
    AtTimeConcat(ps[0].scheduled, Arrived(ps[1..], j - 1), t);
    StartsGrow(end, ps[1..], j - 1);
    StartsGrow(end, ps[1..], j);
  }

  // What each period sends on, at the times it sends them.
  function Dispatched<T>(q: seq<Event<T>>, last: nat, ps: seq<Period<T>>): (r: seq<seq<Event<T>>>)
    ensures |r| == |ps|
    decreases |ps|
  {
    if ps == [] then [] else
      var q1 := InsertAll(q, ps[0].scheduled);
      [Delivered(q1, last, ps[0].frames)] + Dispatched(Rest(q1, last, ps[0].frames), End(last, ps[0].frames), ps[1..])
  }

  // The queue that the drain of period j finds.
  function QueueAt<T>(q: seq<Event<T>>, last: nat, ps: seq<Period<T>>, j: nat): seq<Event<T>>
    requires j < |ps|
    decreases j
  {
    var q1 := InsertAll(q, ps[0].scheduled);
    if j == 0 then q1 else QueueAt(Rest(q1, last, ps[0].frames), End(last, ps[0].frames), ps[1..], j - 1)
  }

  lemma {:induction false} PeriodDrain<T>(q: seq<Event<T>>, last: nat, ps: seq<Period<T>>, j: nat)
    requires Sorted(q) && NotBefore(q, last) && j < |ps| && StartOf(last, ps, |ps|) < TWO_32
    ensures StartOf(last, ps, j) + ps[j].frames == StartOf(last, ps, j + 1) < TWO_32
    ensures var qj, start, end := QueueAt(q, last, ps, j), StartOf(last, ps, j), StartOf(last, ps, j + 1);
            && Sorted(qj) && Taken(q, last, ps)[j] == qj[..Due(qj, end)]
            && Dispatched(q, last, ps)[j] == Delivered(qj, start, ps[j].frames)
    decreases j
  {
    hide Sorted, NotBefore, InsertAll, Due, Taken, StartOf, Dispatched, QueueAt, Delivered;
    var end, q1 := last + ps[0].frames, InsertAll(q, ps[0].scheduled);
    StartStep(last, ps, |ps|);
    StartsGrow(end, ps[1..], |ps| - 1);
    StartStep(last, ps, j);
    StartStep(last, ps, j + 1);
    FirstPeriodAt(q, ps[0].scheduled, end, last, 0);
    TakenStep(q, last, ps);
    DispatchedStep(q, last, ps, j);
    assert End(last, ps[0].frames) == end;
    if j > 0 {
      PeriodDrain(q1[Due(q1, end)..], end, ps[1..], j - 1);
    } else {
      StartStep(end, ps[1..], 0);
    }
  }

  lemma DispatchedStep<T>(q: seq<Event<T>>, last: nat, ps: seq<Period<T>>, j: nat)
    requires j < |ps|
    ensures var q1, end := InsertAll(q, ps[0].scheduled), End(last, ps[0].frames);
            && Dispatched(q, last, ps) ==
               [Delivered(q1, last, ps[0].frames)] + Dispatched(q1[Due(q1, end)..], end, ps[1..])
            && QueueAt(q, last, ps, j) == if j == 0 then q1 else QueueAt(q1[Due(q1, end)..], end, ps[1..], j - 1)
  {
  }

  // What period j sends on at time t: behind its start, all events of that time
  // so far in order of arrival; at its start, the early events of its queue; and
  // nothing at any other time.
  lemma DispatchedAt<T>(q: seq<Event<T>>, last: nat, ps: seq<Period<T>>, j: nat, t: nat)
    requires Sorted(q) && NotBefore(q, last) && j < |ps| && StartOf(last, ps, |ps|) < TWO_32 && ps[j].frames > 0
    ensures var start, end := StartOf(last, ps, j), StartOf(last, ps, j + 1);
            AtTime(Dispatched(q, last, ps)[j], t) ==
              if start < t < end then AtTime(q, t) + AtTime(Arrived(ps, j), t)
              else if t == start then MovedTo(UpTo(QueueAt(q, last, ps, j), start), start)
              else []
  {
    hide InsertAll, Due, Taken, StartOf, Dispatched, QueueAt, Delivered, AtTime, UpTo, Arrived;
    var start, end, qj := StartOf(last, ps, j), StartOf(last, ps, j + 1), QueueAt(q, last, ps, j);
    PeriodDrain(q, last, ps, j);
    OnTime(qj, start, ps[j].frames);
    if start < t < end {
      InOrder(q, last, ps, j, t);
      DeliveredAt(qj, start, ps[j].frames, t);
      DueParts(qj, end, t);
    } else if t == start {
      DeliveredAtStart(qj, start, ps[j].frames);
    } else {
      NoneAt(Delivered(qj, start, ps[j].frames), t);
    }
  }

  // ---------------------------------------------------------------- the host and its modules

  // A module instance: its own queue of events to put out, and the modules its events go to.
  class Module<P> {
    var queue: seq<Event<P>>
    const children: seq<Module<P>>

    constructor (children: seq<Module<P>>)
      ensures queue == [] && this.children == children
    {
      queue := [];
      this.children := children;
    }

    // tjost_module_schedule: a sorted queue stays sorted, the event comes behind
    // those of its own time, and every other event stays where it is.
    method Schedule(time: nat, body: P)
      modifies this
      ensures queue == Insert(old(queue), Event(time, body))
      ensures multiset(queue) == multiset(old(queue)) + multiset{Event(time, body)}
      ensures Sorted(old(queue)) ==> Sorted(queue)
      ensures Sorted(old(queue)) ==>
                forall t {:trigger AtTime(queue, t)} ::
                  AtTime(queue, t) == AtTime(old(queue), t) + if t == time then [Event(time, body)] else []
    {
      Inserted(queue, Event(time, body));
      queue := Insert(queue, Event(time, body));
    }

    // The loop with which an output module takes the due events off its queue.
    method Drain(last: nat, frames: nat) returns (out: seq<Event<P>>)
      modifies this
      ensures out == Delivered(old(queue), last, frames) && queue == Rest(old(queue), last, frames)
    {
      ghost var q0, ds := queue, Delivered(queue, last, frames);
      out := [];
      while queue != []
        invariant |out| <= |ds| && queue == q0[|out|..] && out == ds[..|out|]
        decreases |queue|
      {
        var tev := queue[0];
        if tev.time >= End(last, frames) {
          break;
        }
        var time := if tev.time == 0 then last else if tev.time < last then last else tev.time;
        assert ds[|out|] == tev.(time := time);
        out := out + [tev.(time := time)];
        queue := queue[1..];
      }
    }
  }

  // An event of the host names the module it comes from; null is a broadcast from the uplink.
  datatype Message<P> = Message(source: Module?<P>, body: P)

  // The modules that a broadcast reaches.
  function AllChildren<P>(uplinks: seq<Module<P>>): seq<Module<P>> {
    if uplinks == [] then [] else AllChildren(uplinks[..|uplinks| - 1]) + uplinks[|uplinks| - 1].children
  }

  function Receivers<P>(uplinks: seq<Module<P>>, source: Module?<P>): seq<Module<P>> {
    if source == null then AllChildren(uplinks) else source.children
  }

  // How many times m is a child of an uplink.
  ghost function BroadcastTimes<P>(uplinks: seq<Module<P>>, m: Module<P>): nat {
    if uplinks == [] then 0
    else BroadcastTimes(uplinks[..|uplinks| - 1], m) + multiset(uplinks[|uplinks| - 1].children)[m]
  }

  // How many copies m gets of an event from source.
  ghost function Times<P>(uplinks: seq<Module<P>>, source: Module?<P>, m: Module<P>): nat {
    if source == null then BroadcastTimes(uplinks, m) else multiset(source.children)[m]
  }

  function Copies<P>(n: nat, e: Event<P>): (r: seq<Event<P>>)
    ensures |r| == n
  {
    seq(n, _ => e)
  }

  // What m gets of a sequence of deliveries.
  ghost function Inbox<P>(uplinks: seq<Module<P>>, ds: seq<Event<Message<P>>>, m: Module<P>): seq<Event<P>> {
    if ds == [] then [] else
      var d := ds[|ds| - 1];
      Inbox(uplinks, ds[..|ds| - 1], m) + Copies(Times(uplinks, d.data.source, m), Event(d.time, d.data.body))
  }

  class Host<P> {
    var queue: seq<Event<Message<P>>>
    const uplinks: seq<Module<P>>

    constructor (uplinks: seq<Module<P>>)
      ensures queue == [] && this.uplinks == uplinks
    {
      queue := [];
      this.uplinks := uplinks;
    }

    // tjost_host_schedule, tjost_host_schedule_inline
    method Schedule(source: Module?<P>, time: nat, body: P)
      modifies this
      ensures queue == Insert(old(queue), Event(time, Message(source, body)))
      ensures multiset(queue) == multiset(old(queue)) + multiset{Event(time, Message(source, body))}
      ensures Sorted(old(queue)) ==> Sorted(queue)
      ensures Sorted(old(queue)) ==>
                forall t {:trigger AtTime(queue, t)} ::
                  AtTime(queue, t)
                  == AtTime(old(queue), t) + if t == time then [Event(time, Message(source, body))] else []
    {
      Inserted(queue, Event(time, Message(source, body)));
      queue := Insert(queue, Event(time, Message(source, body)));
    }

    // Every module that an event in the queue can reach is one of all.
    ghost predicate Reaches(all: set<Module<P>>)
      reads this
    {
      ReachesAll(uplinks, queue, all)
    }

    // Send an event to all modules of a list of children: each gets it as often as it is in the list.
    method FanOut(children: seq<Module<P>>, time: nat, body: P, ghost all: set<Module<P>>)
      requires InAll(children, all)
      modifies all
      ensures forall m :: m in all ==>
              m.queue == InsertAll(old(m.queue), Copies(multiset(children)[m], Event(time, body)))
    {
      hide Insert, InsertAll, Copies;
      ghost var e := Event(time, body);
      forall m: Module<P> | m in all ensures InsertAll(m.queue, Copies(multiset(children[..0])[m], e)) == m.queue {
        CopyNone(m.queue, children, m, e);
      }
      for i := 0 to |children|
        invariant forall m :: m in all ==> m.queue == InsertAll(old(m.queue), Copies(multiset(children[..i])[m], e))
      {
        forall m | m in all
          ensures InsertAll(old(m.queue), Copies(multiset(children[..i + 1])[m], e))
                  == if children[i] == m then Insert(m.queue, e) else m.queue
        {
          CopyStep(old(m.queue), children, i, m, e);
        }
        children[i].Schedule(time, body);
      }
      assert children[..|children|] == children;
    }

    // A broadcast goes to the children of every uplink, any other event to those of its source.
    method Deliver(source: Module?<P>, time: nat, body: P, ghost all: set<Module<P>>)
      requires InAll(Receivers(uplinks, source), all)
      modifies all
      ensures forall m :: m in all ==>
              m.queue == InsertAll(old(m.queue), Copies(Times(uplinks, source, m), Event(time, body)))
      ensures source != null ==>
                forall m :: m in all ==>
                  m.queue == InsertAll(old(m.queue), Copies(multiset(source.children)[m], Event(time, body)))
    {
      if source == null {
        hide InsertAll, Copies, AllChildren, BroadcastTimes;
        ghost var e := Event(time, body);
        forall m: Module<P> | m in all
          ensures InsertAll(m.queue, Copies(BroadcastTimes(uplinks[..0], m), e)) == m.queue
        {
          BroadcastNone(m.queue, uplinks, m, e);
        }
        for i := 0 to |uplinks|
          invariant forall m :: m in all ==>
                    m.queue == InsertAll(old(m.queue), Copies(BroadcastTimes(uplinks[..i], m), e))
        {
          ChildrenIn(uplinks, i, all);
          ghost var before := map m | m in all :: m.queue;
          FanOut(uplinks[i].children, time, body, all);
          forall m | m in all
            ensures m.queue == InsertAll(old(m.queue), Copies(BroadcastTimes(uplinks[..i + 1], m), e))
          {
            assert m.queue == InsertAll(before[m], Copies(multiset(uplinks[i].children)[m], e));
            BroadcastStep(old(m.queue), uplinks, i, m, e);
          }
        }
        assert uplinks[..|uplinks|] == uplinks;
      } else {
        FanOut(source.children, time, body, all);
      }
    }

    // The main loop of _process: the due events leave the queue and go out in order.
    method Dispatch(last: nat, frames: nat, ghost all: set<Module<P>>)
      requires Reaches(all)
      modifies this, all
      ensures queue == Rest(old(queue), last, frames)
      ensures forall m :: m in all ==>
              m.queue == InsertAll(old(m.queue), Inbox(uplinks, Delivered(old(queue), last, frames), m))
    {
      hide InsertAll, Inbox, Receivers, Copies, InAll, Times;
      ghost var q0, ds, k := queue, Delivered(queue, last, frames), 0;
      forall m: Module<P> | m in all ensures InsertAll(m.queue, Inbox(uplinks, ds[..0], m)) == m.queue {
        InboxNone(m.queue, uplinks, ds, m);
      }
      while queue != []
        invariant 0 <= k <= |ds| && queue == q0[k..]
        invariant forall m :: m in all ==> m.queue == InsertAll(old(m.queue), Inbox(uplinks, ds[..k], m))
        decreases |queue|
      {
        var tev := queue[0];
        if tev.time >= End(last, frames) {
          break;
        }
        var time := if tev.time == 0 then last else if tev.time < last then last else tev.time;
        assert ds[k] == Event(time, tev.data);
        ghost var before := map m | m in all :: m.queue;
        Deliver(tev.data.source, time, tev.data.body, all);
        forall m | m in all ensures m.queue == InsertAll(old(m.queue), Inbox(uplinks, ds[..k + 1], m)) {
          assert m.queue ==
                 InsertAll(before[m], Copies(Times(uplinks, tev.data.source, m), Event(time, tev.data.body)));
          InboxStep(old(m.queue), uplinks, ds, k, m);
        }
        queue := queue[1..];
        k := k + 1;
      }
      assert ds[..k] == ds;
    }
  }

  lemma CopyNone<P>(q: seq<Event<P>>, rs: seq<Module<P>>, m: Module<P>, e: Event<P>)
    ensures InsertAll(q, Copies(multiset(rs[..0])[m], e)) == q
  {
    assert rs[..0] == [];
  }

  lemma CopyStep<P>(q: seq<Event<P>>, rs: seq<Module<P>>, i: nat, m: Module<P>, e: Event<P>)
    requires i < |rs|
    ensures var r := InsertAll(q, Copies(multiset(rs[..i])[m], e));
            InsertAll(q, Copies(multiset(rs[..i + 1])[m], e)) == if rs[i] == m then Insert(r, e) else r
  {
    hide Insert, InsertAll;
    assert rs[..i + 1] == rs[..i] + [rs[i]];
    var n := multiset(rs[..i])[m];
    var c := Copies(n + 1, e);
    assert c[..n] == Copies(n, e);
    InsertAllStep(q, c);
  }

  lemma BroadcastNone<P>(q: seq<Event<P>>, uplinks: seq<Module<P>>, m: Module<P>, e: Event<P>)
    ensures InsertAll(q, Copies(BroadcastTimes(uplinks[..0], m), e)) == q
  {
  }

  lemma BroadcastStep<P>(q: seq<Event<P>>, uplinks: seq<Module<P>>, i: nat, m: Module<P>, e: Event<P>)
    requires i < |uplinks|
    ensures InsertAll(q, Copies(BroadcastTimes(uplinks[..i + 1], m), e))
         == InsertAll(InsertAll(q, Copies(BroadcastTimes(uplinks[..i], m), e)),
                      Copies(multiset(uplinks[i].children)[m], e))
  {
    hide InsertAll;
    assert uplinks[..i + 1][..i] == uplinks[..i];
    var a, b := BroadcastTimes(uplinks[..i], m), multiset(uplinks[i].children)[m];
    assert Copies(a + b, e) == Copies(a, e) + Copies(b, e);
    InsertAllAppend(q, Copies(a, e), Copies(b, e));
  }

  lemma {:induction false} ChildrenIn<P>(uplinks: seq<Module<P>>, i: nat, all: set<Module<P>>)
    requires i < |uplinks| && InAll(AllChildren(uplinks), all)
    ensures InAll(uplinks[i].children, all)
    decreases |uplinks|
  {
    var n := |uplinks| - 1;
    var a, b := AllChildren(uplinks[..n]), uplinks[n].children;
    assert forall k :: 0 <= k < |a| ==> a[k] == (a + b)[k];
    assert forall k :: 0 <= k < |b| ==> b[k] == (a + b)[|a| + k];
    if i < n {
      ChildrenIn(uplinks[..n], i, all);
    }
  }

  lemma InboxNone<P>(q: seq<Event<P>>, uplinks: seq<Module<P>>, ds: seq<Event<Message<P>>>, m: Module<P>)
    ensures InsertAll(q, Inbox(uplinks, ds[..0], m)) == q
  {
  }

  lemma InboxStep<P>(q: seq<Event<P>>, uplinks: seq<Module<P>>, ds: seq<Event<Message<P>>>, k: nat, m: Module<P>)
    requires k < |ds|
    ensures InsertAll(q, Inbox(uplinks, ds[..k + 1], m))
         == InsertAll(InsertAll(q, Inbox(uplinks, ds[..k], m)),
                      Copies(Times(uplinks, ds[k].data.source, m), Event(ds[k].time, ds[k].data.body)))
  {
    assert ds[..k + 1][..k] == ds[..k];
    var d := ds[k];
    InsertAllAppend(q, Inbox(uplinks, ds[..k], m),
        Copies(Times(uplinks, d.data.source, m), Event(d.time, d.data.body)));
  }

  ghost predicate InAll<P>(rs: seq<Module<P>>, all: set<Module<P>>) {
    forall i :: 0 <= i < |rs| ==> rs[i] in all
  }

  // An event from source is for m: m is a child of the source, or of some uplink if it is a broadcast.
  ghost predicate IsFor<P>(uplinks: seq<Module<P>>, source: Module?<P>, m: Module<P>) {
    if source == null then exists i :: 0 <= i < |uplinks| && m in uplinks[i].children else m in source.children
  }

  // A broadcast reaches the children of every uplink, each as often as it is one there.
  lemma {:induction false} BroadcastSum<P>(a: seq<Module<P>>, b: seq<Module<P>>, u: Module<P>, m: Module<P>)
    ensures Times(a + b, null, m) == Times(a, null, m) + Times(b, null, m)
    ensures Times([u], null, m) == multiset(u.children)[m]
  {
    assert [u][..0] == [];
    if b == [] {
      assert a + b == a;
    } else {
      var n := |b| - 1;
      BroadcastSum(a, b[..n], u, m);
      assert (a + b)[..|a| + n] == a + b[..n];
    }
  }

  lemma {:induction false} BroadcastReaches<P>(uplinks: seq<Module<P>>, m: Module<P>)
    ensures BroadcastTimes(uplinks, m) > 0 <==> IsFor(uplinks, null, m)
  {
    if uplinks != [] {
      var n := |uplinks| - 1;
      BroadcastReaches(uplinks[..n], m);
      if IsFor(uplinks[..n], null, m) {
        var i :| 0 <= i < n && m in uplinks[..n][i].children;
        assert m in uplinks[i].children;
      }
      if IsFor(uplinks, null, m) {
        var i :| 0 <= i <= n && m in uplinks[i].children;
        if i < n {
          assert m in uplinks[..n][i].children;
        }
      }
    }
  }

  // The deliveries that are for m, as m gets them.
  ghost function DeliveriesFor<P>(uplinks: seq<Module<P>>, ds: seq<Event<Message<P>>>, m: Module<P>): seq<Event<P>> {
    if ds == [] then [] else
      var d := ds[|ds| - 1];
      DeliveriesFor(uplinks, ds[..|ds| - 1], m)
      + if IsFor(uplinks, d.data.source, m) then [Event(d.time, d.data.body)] else []
  }

  // No event of ds goes to m more than once.
  ghost predicate ChildOnce<P>(uplinks: seq<Module<P>>, ds: seq<Event<Message<P>>>, m: Module<P>) {
    forall i :: 0 <= i < |ds| ==> Times(uplinks, ds[i].data.source, m) <= 1
  }

  // A module that is a child only once gets every event for it once, and no other.
  lemma {:induction false} OncePerChild<P>(uplinks: seq<Module<P>>, ds: seq<Event<Message<P>>>, m: Module<P>)
    requires ChildOnce(uplinks, ds, m)
    ensures Inbox(uplinks, ds, m) == DeliveriesFor(uplinks, ds, m)
  {
    if ds != [] {
      var d := ds[|ds| - 1];
      OncePerChild(uplinks, ds[..|ds| - 1], m);
      BroadcastReaches(uplinks, m);
    }
  }

  // What is for m at one time is what is for m of that time.
  lemma {:induction false} DeliveriesAt<P>(uplinks: seq<Module<P>>, ds: seq<Event<Message<P>>>, m: Module<P>, t: nat)
    ensures AtTime(DeliveriesFor(uplinks, ds, m), t) == DeliveriesFor(uplinks, AtTime(ds, t), m)
  {
    hide AtTime;
    NothingAt<P>(t);
    NothingAt<Message<P>>(t);
    if ds != [] {
      var n := |ds| - 1;
      var d := ds[n];
      var e := Event(d.time, d.data.body);
      DeliveriesAt(uplinks, ds[..n], m, t);
      assert ds == ds[..n] + [d];
      AtTimeAppend(ds[..n], d, t);
      AtTimeAppend(DeliveriesFor(uplinks, ds[..n], m), e, t);
      var a := AtTime(ds[..n], t);
      assert (a + [d])[..|a|] == a && a + [] == a;
      var b := DeliveriesFor(uplinks, ds[..n], m);
      assert b + [] == b && AtTime(b, t) + [] == AtTime(b, t);
    }
  }

  // The deliveries of a period that are for m are in order and in the period.
  lemma {:induction false} InboxInPeriod<P>(uplinks: seq<Module<P>>, ds: seq<Event<Message<P>>>, m: Module<P>,
                                            last: nat, hi: nat)
    requires Sorted(ds) && NotBefore(ds, last) && forall i :: 0 <= i < |ds| ==> ds[i].time <= hi
    ensures Sorted(Inbox(uplinks, ds, m)) && NotBefore(Inbox(uplinks, ds, m), last)
    ensures forall i :: 0 <= i < |Inbox(uplinks, ds, m)| ==> Inbox(uplinks, ds, m)[i].time <= hi
  {
    if ds != [] {
      var n := |ds| - 1;
      var d := ds[n];
      var c := Copies(Times(uplinks, d.data.source, m), Event(d.time, d.data.body));
      assert forall i :: 0 <= i < n ==> ds[..n][i].time <= d.time;
      InboxInPeriod(uplinks, ds[..n], m, last, d.time);
      var a := Inbox(uplinks, ds[..n], m);
      SortedConcat(a, c, d.time);
      var r: seq<Event<P>> := a + c;
      assert forall i :: 0 <= i < |r| ==> last <= r[i].time <= d.time;
    }
  }

  lemma SortedConcat<T>(a: seq<Event<T>>, c: seq<Event<T>>, t: nat)
    requires Sorted(a) && (forall i :: 0 <= i < |a| ==> a[i].time <= t) && (forall i :: 0 <= i < |c| ==> c[i].time == t)
    ensures Sorted(a + c)
  {
  }

  // Once per child, in its period, in order.  Over any run of periods without
  // wrap-around, a module that is a child only once is handed in period j, at a
  // time t behind the start of the period, exactly the events for it with that
  // time, whenever they were scheduled, each once and in order of arrival; at
  // the start, the immediate, late and first-frame events in queue order; and at
  // no time outside the period anything at all.
  lemma OnceInPeriodInOrder<P>(uplinks: seq<Module<P>>, q: seq<Event<Message<P>>>, last: nat,
                               ps: seq<Period<Message<P>>>, j: nat, m: Module<P>, t: nat)
    requires Sorted(q) && NotBefore(q, last) && j < |ps| && StartOf(last, ps, |ps|) < TWO_32 && ps[j].frames > 0
    requires ChildOnce(uplinks, Dispatched(q, last, ps)[j], m)
    ensures var start, end := StartOf(last, ps, j), StartOf(last, ps, j + 1);
            AtTime(Inbox(uplinks, Dispatched(q, last, ps)[j], m), t) ==
              if start < t < end then DeliveriesFor(uplinks, AtTime(q, t) + AtTime(Arrived(ps, j), t), m)
              else if t == start then DeliveriesFor(uplinks, MovedTo(UpTo(QueueAt(q, last, ps, j), start), start), m)
              else []
  {
    hide AtTime, StartOf, Dispatched, QueueAt, UpTo, Arrived, Inbox, Sorted, NotBefore, ChildOnce;
    var ds := Dispatched(q, last, ps)[j];
    OncePerChild(uplinks, ds, m);
    DeliveriesAt(uplinks, ds, m, t);
    DispatchedAt(q, last, ps, j, t);
  }

  // The receivers of a run stay within all.
  ghost predicate ReachesAll<P>(uplinks: seq<Module<P>>, es: seq<Event<Message<P>>>, all: set<Module<P>>) {
    forall i :: 0 <= i < |es| ==> InAll(Receivers(uplinks, es[i].data.source), all)
  }

  lemma {:induction false} InsertReaches<P>(uplinks: seq<Module<P>>, q: seq<Event<Message<P>>>, e: Event<Message<P>>,
                                            all: set<Module<P>>)
    requires ReachesAll(uplinks, q, all) && InAll(Receivers(uplinks, e.data.source), all)
    ensures ReachesAll(uplinks, Insert(q, e), all)
  {
    hide InAll, Receivers;
    if q != [] && q[0].time <= e.time {
      InsertReaches(uplinks, q[1..], e, all);
    }
  }

  lemma {:induction false} InsertAllReaches<P>(uplinks: seq<Module<P>>, q: seq<Event<Message<P>>>,
                                               es: seq<Event<Message<P>>>, all: set<Module<P>>)
    requires ReachesAll(uplinks, q, all) && ReachesAll(uplinks, es, all)
    ensures ReachesAll(uplinks, InsertAll(q, es), all)
  {
    hide InAll, Receivers, Insert;
    if es != [] {
      var n := |es| - 1;
      InsertAllReaches(uplinks, q, es[..n], all);
      InsertReaches(uplinks, InsertAll(q, es[..n]), es[n], all);
    }
  }

  ghost predicate DistinctModules<P>(ms: seq<Module<P>>) {
    forall i, j :: 0 <= i < j < |ms| ==> ms[i] != ms[j]
  }

  // All modules of a list, with nothing to put out.
  ghost predicate Idle<P>(ms: seq<Module<P>>)
    reads ms
  {
    forall i :: 0 <= i < |ms| ==> ms[i].queue == []
  }

  // The output stage of _process: one module after another drains its queue.
  method DrainAll<P>(ms: seq<Module<P>>, last: nat, frames: nat) returns (outs: seq<seq<Event<P>>>)
    requires DistinctModules(ms)
    modifies ms
    ensures |outs| == |ms|
    ensures forall i :: 0 <= i < |ms| ==>
              outs[i] == Delivered(old(ms[i].queue), last, frames) &&
                  ms[i].queue == Rest(old(ms[i].queue), last, frames)
  {
    hide Delivered, Rest;
    outs := [];
    for k := 0 to |ms|
      invariant |outs| == k
      invariant forall i :: 0 <= i < k ==>
                  outs[i] == Delivered(old(ms[i].queue), last, frames) &&
                      ms[i].queue == Rest(old(ms[i].queue), last, frames)
      invariant forall i :: k <= i < |ms| ==> ms[i].queue == old(ms[i].queue)
    {
      var out := ms[k].Drain(last, frames);
      outs := outs + [out];
    }
  }

  // What the modules of a list put out in a period are their inboxes of the deliveries ds.
  ghost predicate OutsAre<P>(uplinks: seq<Module<P>>, ds: seq<Event<Message<P>>>, ms: seq<Module<P>>,
                             outs: seq<seq<Event<P>>>) {
    |outs| == |ms| && forall i :: 0 <= i < |ms| ==> outs[i] == Inbox(uplinks, ds, ms[i])
  }

  // One period of _process: events are scheduled, the queue is drained, and all
  // output modules ms put out what they were handed.
  method RunPeriod<P>(host: Host<P>, ms: seq<Module<P>>, p: Period<Message<P>>, start: nat, ghost all: set<Module<P>>)
    returns (outs: seq<seq<Event<P>>>)
    requires Sorted(host.queue) && NotBefore(host.queue, start) && start + p.frames < TWO_32 && p.frames > 0
    requires DistinctModules(ms) && InAll(ms, all) && Idle(ms) && host.Reaches(all) &&
             ReachesAll(host.uplinks, p.scheduled, all)
    modifies host, all
    ensures var q1 := InsertAll(old(host.queue), p.scheduled);
            && host.queue == Rest(q1, start, p.frames)
            && OutsAre(host.uplinks, Delivered(q1, start, p.frames), ms, outs)
    ensures Idle(ms) && host.Reaches(all)
    ensures Sorted(host.queue) && NotBefore(host.queue, start + p.frames)
  {
    hide Sorted, NotBefore, InsertAll, Insert, Inbox, Delivered, Rest, ReachesAll, Receivers;
    ghost var q := host.queue;
    ScheduleAll(host, p.scheduled, all);
    ghost var q1 := host.queue;
    RestLater(q, p.scheduled, start, p.frames);
    host.Dispatch(start, p.frames, all);
    ghost var ds := Delivered(q1, start, p.frames);
    forall i | 0 <= i < |ms|
      ensures Delivered(ms[i].queue, start, p.frames) == Inbox(host.uplinks, ds, ms[i]) &&
              Rest(ms[i].queue, start, p.frames) == []
    {
      PeriodOut(host.uplinks, q1, start, p.frames, ms[i]);
    }
    RestReaches(host.uplinks, q1, start, p.frames, all);
    outs := DrainAll(ms, start, p.frames);
  }

  lemma RestLater<T>(q: seq<Event<T>>, es: seq<Event<T>>, last: nat, frames: nat)
    requires Sorted(q) && NotBefore(q, last) && last + frames < TWO_32
    ensures var q1 := InsertAll(q, es);
            Sorted(q1) && Sorted(Rest(q1, last, frames)) && NotBefore(Rest(q1, last, frames), last + frames)
  {
    hide Sorted, NotBefore, InsertAll, Due, End;
    InsertAllSorted(q, es);
    NoWrap(last, frames);
    DueOrder(InsertAll(q, es), last + frames);
  }

  lemma NoWrap(last: nat, frames: nat)
    ensures last + frames < TWO_32 ==> End(last, frames) == last + frames
  {
  }

  // Periods one after another: what every output module puts out in each is its
  // inbox of that period.
  method RunPeriods<P>(host: Host<P>, ms: seq<Module<P>>, ps: seq<Period<Message<P>>>, last: nat,
                       ghost all: set<Module<P>>)
    returns (outs: seq<seq<seq<Event<P>>>>)
    requires Sorted(host.queue) && NotBefore(host.queue, last) && StartOf(last, ps, |ps|) < TWO_32
    requires DistinctModules(ms) && InAll(ms, all) && Idle(ms) && host.Reaches(all)
    requires forall j :: 0 <= j < |ps| ==> ps[j].frames > 0 && ReachesAll(host.uplinks, ps[j].scheduled, all)
    modifies host, all
    ensures |outs| == |ps| && Idle(ms)
    ensures forall j :: 0 <= j < |ps| ==> OutsAre(host.uplinks, Dispatched(old(host.queue), last, ps)[j], ms, outs[j])
  {
    hide Sorted, NotBefore, InsertAll, StartOf, Dispatched, OutsAre, Delivered, Rest, ReachesAll, InAll, Idle;
    ghost var ds := Dispatched(host.queue, last, ps);
    outs := [];
    var start: nat := last;
    assert ps[0..] == ps;
    for j := 0 to |ps|
      invariant |outs| == j && Idle(ms) && host.Reaches(all)
      invariant Sorted(host.queue) && NotBefore(host.queue, start)
      invariant StartOf(start, ps[j..], |ps| - j) < TWO_32
      invariant ds[j..] == Dispatched(host.queue, start, ps[j..])
      invariant forall i :: 0 <= i < j ==> OutsAre(host.uplinks, ds[i], ms, outs[i])
    {
      NextPeriod(host.queue, start, ps[j..], ds[j..]);
      assert ps[j..][0] == ps[j] && ps[j..][1..] == ps[j + 1..] && ds[j..][0] == ds[j] && ds[j..][1..] == ds[j + 1..];
      var out := RunPeriod(host, ms, ps[j], start, all);
      outs := outs + [out];
      start := start + ps[j].frames;
    }
  }

  // The rest of a run behind its first period.
  lemma NextPeriod<T>(q: seq<Event<T>>, start: nat, ps: seq<Period<T>>, ds: seq<seq<Event<T>>>)
    requires ps != [] && StartOf(start, ps, |ps|) < TWO_32 && ds == Dispatched(q, start, ps)
    ensures start + ps[0].frames < TWO_32 && StartOf(start + ps[0].frames, ps[1..], |ps| - 1) < TWO_32
    ensures var q1 := InsertAll(q, ps[0].scheduled);
            && ds[0] == Delivered(q1, start, ps[0].frames)
            && ds[1..] == Dispatched(Rest(q1, start, ps[0].frames), start + ps[0].frames, ps[1..])
  {
    hide InsertAll, Delivered, Due;
    StartsGrow(start + ps[0].frames, ps[1..], |ps| - 1);
  }

  // The events of one batch, in order of arrival.
  method ScheduleAll<P>(host: Host<P>, es: seq<Event<Message<P>>>, ghost all: set<Module<P>>)
    requires ReachesAll(host.uplinks, host.queue, all) && ReachesAll(host.uplinks, es, all)
    modifies host
    ensures host.queue == InsertAll(old(host.queue), es) && ReachesAll(host.uplinks, host.queue, all)
  {
    hide Insert, InsertAll, InAll, Receivers;
    LoopedNone(host.queue, es);
    for i := 0 to |es|
      invariant host.queue == InsertAll(old(host.queue), es[..i]) && ReachesAll(host.uplinks, host.queue, all)
    {
      LoopedStep(old(host.queue), es, i);
      InsertReaches(host.uplinks, host.queue, es[i], all);
      host.Schedule(es[i].data.source, es[i].time, es[i].data.body);
    }
    assert es[..|es|] == es;
  }

  // A module that is handed the deliveries of a period puts them all out in it.
  lemma PeriodOut<P>(uplinks: seq<Module<P>>, q: seq<Event<Message<P>>>, last: nat, frames: nat, m: Module<P>)
    requires Sorted(q) && last + frames < TWO_32 && frames > 0
    ensures var inbox := Inbox(uplinks, Delivered(q, last, frames), m);
            Delivered(InsertAll([], inbox), last, frames) == inbox && Rest(InsertAll([], inbox), last, frames) == []
  {
    hide Sorted, NotBefore, InsertAll, Inbox, Delivered, Rest;
    DeliveriesInside(q, last, frames);
    InboxInPeriod(uplinks, Delivered(q, last, frames), m, last, last + frames - 1);
    var inbox := Inbox(uplinks, Delivered(q, last, frames), m);
    InsideBoth(inbox, last, last + frames - 1);
    AllDelivered(inbox, last, frames);
  }

  lemma DeliveriesInside<T>(q: seq<Event<T>>, last: nat, frames: nat)
    requires Sorted(q) && last + frames < TWO_32 && frames > 0
    ensures Sorted(Delivered(q, last, frames)) && NotBefore(Delivered(q, last, frames), last)
    ensures forall i :: 0 <= i < |Delivered(q, last, frames)| ==>
            Delivered(q, last, frames)[i].time <= last + frames - 1
  {
    hide Due, Sorted;
    OnTime(q, last, frames);
  }

  lemma InsideBoth<T>(q: seq<Event<T>>, lo: nat, hi: nat)
    requires NotBefore(q, lo) && forall i :: 0 <= i < |q| ==> q[i].time <= hi
    ensures forall i :: 0 <= i < |q| ==> lo <= q[i].time < hi + 1
  {
  }

  lemma RestReaches<P>(uplinks: seq<Module<P>>, q: seq<Event<Message<P>>>, last: nat, frames: nat, all: set<Module<P>>)
    requires ReachesAll(uplinks, q, all)
    ensures ReachesAll(uplinks, Rest(q, last, frames), all)
  {
    hide InAll, Receivers;
  }

  // ---------------------------------------------------------------- loopback

  // When mod_loopback schedules an event of time t again.  A late event is
  // pushed back twice.
  function LoopTime(t: nat, last: nat, frames: nat): nat {
    ((if t == 0 then last else if t < last then (last + frames) % TWO_32 else t) + frames) % TWO_32
  }

  function Looped<P>(m: Module<P>, q: seq<Event<P>>, last: nat, frames: nat): seq<Event<Message<P>>> {
    var k := Due(q, End(last, frames));
    seq(k, i requires 0 <= i < k => Event(LoopTime(q[i].time, last, frames), Message(m, q[i].data)))
  }

  // es are the events of a sorted queue q of m before the end of the period, each
  // from m with its own payload, at the time at which it is to come back.
  ghost predicate GoesBack<P>(m: Module<P>, q: seq<Event<P>>, last: nat, frames: nat, es: seq<Event<Message<P>>>) {
    && |es| <= |q| && (forall i :: 0 <= i < |q| ==> (i < |es| <==> q[i].time < last + frames))
    && forall i :: 0 <= i < |es| ==>
         && es[i].data == Message(m, q[i].data)
         && es[i].time == if 0 < q[i].time < last then last + 2 * frames
                          else if q[i].time == 0 then last + frames else q[i].time + frames
  }

  // Such events es leave q, and come at every time behind what the host has for it, in queue order.
  ghost predicate WentBack<P>(m: Module<P>, q: seq<Event<P>>, host: seq<Event<Message<P>>>, last: nat, frames: nat,
                              es: seq<Event<Message<P>>>, q': seq<Event<P>>, host': seq<Event<Message<P>>>) {
    && GoesBack(m, q, last, frames, es) && q' == q[|es|..] && Sorted(host')
    && forall t :: AtTime(host', t) == AtTime(host, t) + AtTime(es, t)
  }

  // process_out of mod_loopback: the due events of the module go back to the host.
  method LoopbackOut<P>(m: Module<P>, host: Host<P>, last: nat, frames: nat)
    modifies m, host
    ensures m.queue == Rest(old(m.queue), last, frames)
    ensures host.queue == InsertAll(old(host.queue), Looped(m, old(m.queue), last, frames))
    ensures Sorted(old(m.queue)) && Sorted(old(host.queue)) && last + 2 * frames < TWO_32 ==>
              WentBack(m, old(m.queue), old(host.queue), last, frames, Looped(m, old(m.queue), last, frames),
                       m.queue, host.queue)
  {
    hide Insert, InsertAll, WentBack, Sorted;
    LoopedBack(m, m.queue, host.queue, last, frames);
    ghost var q0, es, k := m.queue, Looped(m, m.queue, last, frames), 0;
    LoopedNone(host.queue, es);
    while m.queue != []
      invariant 0 <= k <= |es| && m.queue == q0[k..]
      invariant host.queue == InsertAll(old(host.queue), es[..k])
      decreases |m.queue|
    {
      var tev := m.queue[0];
      var time := tev.time;
      if time >= End(last, frames) {
        break;
      } else if time == 0 {
        time := last;
      } else if time < last {
        time := End(last, frames);
      }
      assert es[k] == Event((time + frames) % TWO_32, Message(m, tev.data));
      LoopedStep(old(host.queue), es, k);
      host.Schedule(m, (time + frames) % TWO_32, tev.data);
      m.queue := m.queue[1..];
      k := k + 1;
    }
    assert es[..k] == es;
  }

  // Which events go back, when, and with what payload.
  lemma LoopedExact<P>(m: Module<P>, q: seq<Event<P>>, last: nat, frames: nat)
    requires Sorted(q) && last + 2 * frames < TWO_32
    ensures GoesBack(m, q, last, frames, Looped(m, q, last, frames))
  {
    hide Due, Sorted, LoopTime;
    NoWrap(last, frames);
    var es := Looped(m, q, last, frames);
    forall i | 0 <= i < |q| ensures i < |es| <==> q[i].time < last + frames {
      DueExactly(q, last + frames, i);
    }
    forall i | 0 <= i < |es|
      ensures es[i].time == (if 0 < q[i].time < last then last + 2 * frames else Clamp(q[i].time, last) + frames)
    {
      LoopTimes(q[i].time, last, frames);
    }
  }

  // The same, for the queue of the host.
  lemma LoopedBack<P>(m: Module<P>, q: seq<Event<P>>, host: seq<Event<Message<P>>>, last: nat, frames: nat)
    ensures Sorted(q) && Sorted(host) && last + 2 * frames < TWO_32 ==>
              var es := Looped(m, q, last, frames);
              WentBack(m, q, host, last, frames, es, Rest(q, last, frames), InsertAll(host, es))
  {
    if Sorted(q) && Sorted(host) && last + 2 * frames < TWO_32 {
      hide Sorted, AtTime, InsertAll, Due, GoesBack;
      var es := Looped(m, q, last, frames);
      LoopedExact(m, q, last, frames);
      InsertAllSorted(host, es);
      forall t ensures AtTime(InsertAll(host, es), t) == AtTime(host, t) + AtTime(es, t) {
        InsertAllAt(host, es, t);
      }
    }
  }

  lemma LoopedNone<T>(q: seq<Event<T>>, es: seq<Event<T>>)
    ensures InsertAll(q, es[..0]) == q
  {
  }

  lemma LoopedStep<T>(q: seq<Event<T>>, es: seq<Event<T>>, k: nat)
    requires k < |es|
    ensures InsertAll(q, es[..k + 1]) == Insert(InsertAll(q, es[..k]), es[k])
  {
    assert es[..k + 1][..k] == es[..k];
  }

  // Nothing is looped back into the current period: what the host has not yet
  // sent stays later than the period, and a looped event comes up in the next
  // period of the same length unless it was late, and then in the one behind that.
  lemma LoopedLater<P>(m: Module<P>, q: seq<Event<P>>, host: seq<Event<Message<P>>>, last: nat, frames: nat)
    requires last + 2 * frames < TWO_32 && frames > 0 && Sorted(host) && NotBefore(host, last + frames)
    ensures var es := Looped(m, q, last, frames);
            && Sorted(InsertAll(host, es)) && NotBefore(InsertAll(host, es), last + frames)
            && forall i :: 0 <= i < |es| ==>
                 es[i].data == Message(m, q[i].data) &&
                 if 0 < q[i].time < last then es[i].time == last + 2 * frames
                 else
                   && last + frames <= es[i].time < last + 2 * frames
                   && (q[i].time != 0 ==> es[i].time == q[i].time + frames)
  {
    hide InsertAll, Sorted, Due, LoopTime;
    var es := Looped(m, q, last, frames);
    forall i | 0 <= i < |es|
      ensures es[i].time == (if 0 < q[i].time < last then last + 2 * frames else Clamp(q[i].time, last) + frames)
      ensures q[i].time < last + frames
    {
      DueTime(q, last + frames, i);
      LoopTimes(q[i].time, last, frames);
    }
    InsertAllSorted(host, es);
    AllNotBefore(host, es, last + frames);
  }

  // With frames of 64, an event that is two frames late at 100 comes back at 228, in the period after the next.
  lemma LoopedTwice<P>(m: Module<P>, x: P)
    ensures Looped(m, [Event(98, x)], 100, 64) == [Event(228, Message(m, x))]
  {
    assert [Event(98, x)][1..] == [];
    assert Due([Event(98, x)], 164) == 1;
  }

  lemma DueTime<T>(q: seq<Event<T>>, end: nat, i: nat)
    requires i < Due(q, end)
    ensures q[i].time < end
  {
  }

  lemma LoopTimes(t: nat, last: nat, frames: nat)
    requires t < last + frames && last + 2 * frames < TWO_32
    ensures LoopTime(t, last, frames) == if 0 < t < last then last + 2 * frames else Clamp(t, last) + frames
  {
  }

  lemma {:induction false} AllNotBefore<T>(q: seq<Event<T>>, es: seq<Event<T>>, t: nat)
    requires Sorted(q) && NotBefore(q, t) && NotBefore(es, t)
    ensures NotBefore(InsertAll(q, es), t)
  {
    if es != [] {
      var es', e := es[..|es| - 1], es[|es| - 1];
      AllNotBefore(q, es', t);
      InsertAllSorted(q, es');
      var r := InsertAll(q, es');
      InsertSorted(r, e);
      StillNotBefore(Insert(r, e), if r != [] && r[0].time < e.time then r[0].time else e.time, t);
    }
  }
}
