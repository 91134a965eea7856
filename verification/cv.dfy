// Control voltage through the scheduler: modules/mod_cv_in.c turns a signal into
// events where it changes, modules/mod_cv_out.c holds the value between events.
module Cv {
  import opened Bits
  import opened Scheduler

  // A float as far as the modules look at it: they only compare samples with != and copy them.
  datatype Sample = NotANumber(bits: nat) | Zero(negative: bool) | Number(value: int)

  // The C operator != on floats: not a number differs from everything, the two zeros do not differ.
  predicate Differs(a: Sample, b: Sample) {
    if a.NotANumber? || b.NotANumber? then true else if a.Zero? && b.Zero? then false else a != b
  }

  // The value that cv_in holds after the samples s.
  function Held(s: seq<Sample>, value: Sample): Sample {
    if s == [] then value else
      var h := Held(s[..|s| - 1], value);
      if Differs(s[|s| - 1], h) then s[|s| - 1] else h
  }

  // The events of a buffer: one at every sample that differs from the held value.
  function Changes(s: seq<Sample>, value: Sample, last: nat): seq<Event<Sample>> {
    if s == [] then [] else
      var n := |s| - 1;
      Changes(s[..n], value, last)
      + if Differs(s[n], Held(s[..n], value)) then [Event((last + n) % TWO_32, s[n])] else []
  }

  function Messages(m: Module<Sample>, es: seq<Event<Sample>>): (r: seq<Event<Message<Sample>>>)
    ensures |r| == |es|
  {
    seq(|es|, i requires 0 <= i < |es| => Event(es[i].time, Message(m, es[i].data)))
  }

  class CvIn {
    var value: Sample
    const instance: Module<Sample>

    constructor (instance: Module<Sample>)
      ensures value == Zero(false) && this.instance == instance
    {
      value := Zero(false);
      this.instance := instance;
    }

    // process_in
    method ProcessIn(host: Host<Sample>, portBuf: array<Sample>, last: nat)
      modifies this, host
      ensures value == Held(portBuf[..], old(value))
      ensures host.queue == InsertAll(old(host.queue), Messages(instance, Changes(portBuf[..], old(value), last)))
    {
      hide Insert, InsertAll, Differs;
      ghost var v0, q0 := value, host.queue;
      ChangesNone(q0, instance, portBuf[..], v0, last);
      for i := 0 to portBuf.Length
        invariant value == Held(portBuf[..i], v0)
        invariant host.queue == InsertAll(q0, Messages(instance, Changes(portBuf[..i], v0, last)))
      {
        ChangesStep(q0, instance, portBuf[..], i, v0, last);
        assert portBuf[..][..i] == portBuf[..i] && portBuf[..][..i + 1] == portBuf[..i + 1];
        if Differs(portBuf[i], value) {
          value := portBuf[i];
          host.Schedule(instance, (last + i) % TWO_32, value);
        }
      }
      assert portBuf[..portBuf.Length] == portBuf[..];
    }
  }

  lemma ChangesNone(q: seq<Event<Message<Sample>>>, m: Module<Sample>, s: seq<Sample>, value: Sample, last: nat)
    ensures InsertAll(q, Messages(m, Changes(s[..0], value, last))) == q
  {
  }

  lemma ChangesStep(q: seq<Event<Message<Sample>>>, m: Module<Sample>, s: seq<Sample>, i: nat, value: Sample, last: nat)
    requires i < |s|
    ensures var h, r := Held(s[..i], value), InsertAll(q, Messages(m, Changes(s[..i], value, last)));
            && Held(s[..i + 1], value) == (if Differs(s[i], h) then s[i] else h)
            && InsertAll(q, Messages(m, Changes(s[..i + 1], value, last)))
               == if Differs(s[i], h) then Insert(r, Event((last + i) % TWO_32, Message(m, s[i]))) else r
  {
    assert s[..i + 1][..i] == s[..i];
    var c := Changes(s[..i], value, last);
    if Differs(s[i], Held(s[..i], value)) {
      var e := Event((last + i) % TWO_32, s[i]);
      assert Changes(s[..i + 1], value, last) == c + [e];
      var ms := Messages(m, c + [e]);
      assert ms[..|c|] == Messages(m, c) && ms[|c|] == Event(e.time, Message(m, e.data));
      InsertAllStep(q, ms);
    } else {
      assert Changes(s[..i + 1], value, last) == c;
    }
  }

  // ---------------------------------------------------------------- cv_out

  // The value in force at offset i: that of the last event at or before it.
  function ValueAt(es: seq<Event<Sample>>, value: Sample, i: nat): Sample {
    if es == [] then value
    else if es[|es| - 1].time <= i then es[|es| - 1].data
    else ValueAt(es[..|es| - 1], value, i)
  }

  function LastValue(es: seq<Event<Sample>>, value: Sample): Sample {
    if es == [] then value else es[|es| - 1].data
  }

  // The same events, timed from the start of the period.
  function Offsets(es: seq<Event<Sample>>, last: nat): (r: seq<Event<Sample>>)
    ensures |r| == |es|
  {
    seq(|es|, i requires 0 <= i < |es| => Event(if es[i].time >= last then es[i].time - last else 0, es[i].data))
  }

  // The buffer of n samples that a queue q and a held value make: at every
  // sample the value of the last event delivered at or before it.
  function Rendered(q: seq<Event<Sample>>, last: nat, n: nat, value: Sample): (out: seq<Sample>)
    ensures |out| == n
  {
    seq(n, i requires 0 <= i < n => ValueAt(Offsets(Delivered(q, last, n), last), value, i))
  }

  // The state of cv_out when it has handled the first k events of q.
  ghost predicate Handled(q: seq<Event<Sample>>, last: nat, n: nat, k: nat, v0: Sample, time: nat, value: Sample) {
    var es := Delivered(q, last, n);
    k <= |es| && time == (if k == 0 then 0 else es[k - 1].time as int - last) && value == LastValue(es[..k], v0)
  }

  lemma NoneHandled(q: seq<Event<Sample>>, last: nat, n: nat, v0: Sample)
    ensures Handled(q, last, n, 0, v0, 0, v0)
  {
  }

  // One more event is due: up to it the buffer holds the value so far.
  lemma HandleNext(q: seq<Event<Sample>>, last: nat, n: nat, k: nat, v0: Sample, time: nat, value: Sample)
    requires Sorted(q) && Handled(q, last, n, k, v0, time, value)
    requires k < |q| && q[k].time < End(last, n)
    ensures var at := Clamp(q[k].time, last);
            && last <= at && time <= at - last <= n
            && Handled(q, last, n, k + 1, v0, at - last, q[k].data)
            && forall i :: time <= i < at - last ==> Rendered(q, last, n, v0)[i] == value
  {
    hide ValueAt, Rendered, Sorted;
    var es := Delivered(q, last, n);
    DueIndex(q, End(last, n), k);
    Clamped(q, last, n);
    assert es[..k + 1][k] == es[k];
    SortedPair(es, k);
    forall i | time <= i < es[k].time - last ensures Rendered(q, last, n, v0)[i] == value {
      RenderedValue(q, last, n, k, v0, i);
    }
  }

  lemma DueIndex(q: seq<Event<Sample>>, end: nat, k: nat)
    requires Sorted(q) && k < |q| && q[k].time < end
    ensures k < Due(q, end)
  {
  }

  lemma SortedPair(es: seq<Event<Sample>>, k: nat)
    requires Sorted(es) && k < |es|
    ensures k > 0 ==> es[k - 1].time <= es[k].time
  {
  }

  lemma RenderedValue(q: seq<Event<Sample>>, last: nat, n: nat, k: nat, v0: Sample, i: nat)
    requires Sorted(q) && k <= |Delivered(q, last, n)| && i < n
    requires var es := Delivered(q, last, n);
             (k == 0 || es[k - 1].time - last <= i) && (k == |es| || i < es[k].time - last)
    ensures Rendered(q, last, n, v0)[i] == LastValue(Delivered(q, last, n)[..k], v0)
  {
    Clamped(q, last, n);
    Between(Delivered(q, last, n), last, v0, k, i);
  }

  // No more event is due: the rest of the buffer holds the last value.
  lemma HandledAll(q: seq<Event<Sample>>, last: nat, n: nat, k: nat, v0: Sample, time: nat, value: Sample)
    requires Sorted(q) && Handled(q, last, n, k, v0, time, value)
    requires k <= |q| && (k < |q| ==> q[k].time >= End(last, n))
    ensures q[k..] == Rest(q, last, n) && value == LastValue(Delivered(q, last, n), v0)
    ensures forall i :: time <= i < n ==> Rendered(q, last, n, v0)[i] == value
  {
    var es := Delivered(q, last, n);
    Clamped(q, last, n);
    assert k == |es| && es[..k] == es;
    forall i | time <= i < n ensures Rendered(q, last, n, v0)[i] == value {
      RenderedValue(q, last, n, k, v0, i);
    }
  }

  class CvOut {
    var time: nat
    var value: Sample
    const instance: Module<Sample>

    constructor (instance: Module<Sample>)
      ensures value == Zero(false) && this.instance == instance
    {
      time := 0;
      value := Zero(false);
      this.instance := instance;
    }

    // _cv: fill the buffer up to the event, and change the value from there.
    method Event(time: nat, value: Sample, portBuf: array<Sample>)
      requires time <= portBuf.Length
      modifies this, portBuf
      ensures this.time == time && this.value == value
      ensures forall k :: 0 <= k < portBuf.Length ==>
                portBuf[k] == if old(this.time) <= k < time then old(this.value) else old(portBuf[k])
    {
      var i := this.time;
      while i < time
        invariant old(this.time) <= i && (i <= time || i == old(this.time))
        invariant this.time == old(this.time) && this.value == old(this.value)
        invariant forall k :: 0 <= k < portBuf.Length ==>
                    portBuf[k] == if old(this.time) <= k < i then old(this.value) else old(portBuf[k])
      {
        portBuf[i] := this.value;
        i := i + 1;
      }
      this.time := time;
      this.value := value;
    }

    // process_out: every sample gets the value in force, the module keeps the
    // last one, and no write leaves the buffer.
    method ProcessOut(portBuf: array<Sample>, last: nat)
      requires Sorted(instance.queue)
      modifies this, instance, portBuf
      ensures instance.queue == Rest(old(instance.queue), last, portBuf.Length)
      ensures portBuf[..] == Rendered(old(instance.queue), last, portBuf.Length, old(value))
      ensures value == LastValue(Delivered(old(instance.queue), last, portBuf.Length), old(value))
    {
      hide Sorted, Delivered, Rest, Rendered, LastValue, Handled;
      ghost var q0, n, k, v0 := instance.queue, portBuf.Length, 0, value;
      ghost var out := Rendered(q0, last, n, v0);
      time := 0;
      NoneHandled(q0, last, n, v0);
      while instance.queue != []
        invariant 0 <= k <= |q0| && instance.queue == q0[k..]
        invariant Handled(q0, last, n, k, v0, time, value)
        invariant time <= n && forall i :: 0 <= i < time ==> portBuf[i] == out[i]
        decreases |instance.queue|
      {
        var tev := instance.queue[0];
        if tev.time >= End(last, portBuf.Length) {
          break;
        }
        HandleNext(q0, last, n, k, v0, time, value);
        var at := if tev.time == 0 then last else if tev.time < last then last else tev.time;
        Event(at - last, tev.data, portBuf);
        instance.queue := instance.queue[1..];
        k := k + 1;
      }
      HandledAll(q0, last, n, k, v0, time, value);
      ghost var v, rest := value, instance.queue;
      for i := time to portBuf.Length
        invariant value == v && instance.queue == rest
        invariant forall j :: 0 <= j < i ==> portBuf[j] == out[j]
      {
        portBuf[i] := value;
      }
    }
  }

  // Between event k - 1 and event k the value of the former is in force.
  lemma Between(es: seq<Event<Sample>>, last: nat, value: Sample, k: nat, i: nat)
    requires Sorted(es) && NotBefore(es, last) && k <= |es|
    requires (k == 0 || es[k - 1].time - last <= i) && (k == |es| || i < es[k].time - last)
    ensures ValueAt(Offsets(es, last), value, i) == LastValue(es[..k], value)
  {
    ValueSkips(Offsets(es, last), value, k, i);
  }

  lemma {:induction false} ValueSkips(os: seq<Event<Sample>>, value: Sample, k: nat, i: nat)
    requires k <= |os| && (k == 0 || os[k - 1].time <= i) && forall j :: k <= j < |os| ==> i < os[j].time
    ensures ValueAt(os, value, i) == LastValue(os[..k], value)
  {
    if k < |os| {
      ValueSkips(os[..|os| - 1], value, k, i);
      assert os[..|os| - 1][..k] == os[..k];
    }
  }

  // ---------------------------------------------------------------- the round trip

  // Equal for a listener: the same float, or zeros of either sign.
  predicate Same(a: Sample, b: Sample) {
    a == b || (a.Zero? && b.Zero?)
  }

  // What comes out for the samples s when both modules hold value before.
  function Output(s: seq<Sample>, value: Sample): (out: seq<Sample>)
    ensures |out| == |s|
  {
    seq(|s|, i requires 0 <= i < |s| => Held(s[..i + 1], value))
  }

  // The output is the input, except that a zero that follows a zero of the other sign keeps the older sign.
  lemma OutputIsInput(s: seq<Sample>, value: Sample, i: nat)
    requires i < |s|
    ensures var h := Held(s[..i], value);
            && Same(Output(s, value)[i], s[i])
            && (Output(s, value)[i] == s[i] <==> !(s[i].Zero? && h.Zero? && s[i] != h))
  {
    assert s[..i + 1][..i] == s[..i];
  }

  // All events of a buffer lie in its period, in order.
  ghost predicate InPeriod(es: seq<Event<Sample>>, last: nat, end: nat) {
    Sorted(es) && forall i :: 0 <= i < |es| ==> last <= es[i].time < end
  }

  lemma OneMore(es: seq<Event<Sample>>, last: nat, t: nat, x: Sample)
    requires InPeriod(es, last, t) && last <= t
    ensures InPeriod(es, last, t + 1) && InPeriod(es + [Event(t, x)], last, t + 1)
  {
  }

  lemma NoChange(value: Sample, last: nat)
    ensures Changes([], value, last) == [] && InPeriod([], last, last)
  {
  }

  lemma LastChange(s: seq<Sample>, value: Sample, last: nat)
    requires s != [] && last + |s| < TWO_32
    ensures var n := |s| - 1; var c := Changes(s[..n], value, last);
            Changes(s, value, last) == if Differs(s[n], Held(s[..n], value)) then c + [Event(last + n, s[n])] else c
  {
    hide Held, Differs;
    assert (last + |s| - 1) % TWO_32 == last + |s| - 1;
  }

  lemma {:induction false} ChangesInPeriod(s: seq<Sample>, value: Sample, last: nat)
    requires last + |s| < TWO_32
    ensures InPeriod(Changes(s, value, last), last, last + |s|)
    decreases |s|
  {
    hide Changes, InPeriod, Held, Differs;
    NoChange(value, last);
    if s != [] {
      var n := |s| - 1;
      ChangesInPeriod(s[..n], value, last);
      LastChange(s, value, last);
      OneMore(Changes(s[..n], value, last), last, last + n, s[n]);
    }
  }

  // The sample before, or the value held before the buffer.
  function Before(s: seq<Sample>, value: Sample, i: nat): Sample
    requires i <= |s|
  {
    if i == 0 then value else s[i - 1]
  }

  // What is held is the sample before, up to the sign of a zero.
  lemma HeldBefore(s: seq<Sample>, value: Sample, i: nat)
    requires i <= |s|
    ensures Same(Held(s[..i], value), Before(s, value, i))
  {
    if i > 0 {
      assert s[..i][..i - 1] == s[..i - 1];
    }
  }

  // In terms of neighbouring samples: there is one event at every sample that is
  // not the same as the sample before it, or if either is not a number, and no other.
  lemma {:induction false} ChangesExactly(s: seq<Sample>, value: Sample, last: nat, i: nat)
    requires last + |s| < TWO_32 && i < |s|
    ensures AtTime(Changes(s, value, last), last + i) ==
              if s[i].NotANumber? || Before(s, value, i).NotANumber? || !Same(Before(s, value, i), s[i])
              then [Event(last + i, s[i])] else []
  {
    hide Changes, Held, AtTime, InPeriod;
    var n := |s| - 1;
    var c := Changes(s[..n], value, last);
    LastChange(s, value, last);
    AtTimeAppend(c, Event(last + n, s[n]), last + i);
    if i < n {
      ChangesExactly(s[..n], value, last, i);
    } else {
      HeldBefore(s, value, n);
      ChangesInPeriod(s[..n], value, last);
      NoneYet(c, last, last + n);
    }
  }

  lemma NoneYet(es: seq<Event<Sample>>, last: nat, end: nat)
    requires InPeriod(es, last, end)
    ensures AtTime(es, end) == []
  {
    NoneAt(es, end);
  }

  // The only child of cv_in gets its events.
  lemma {:induction false} InboxOfChild(uplinks: seq<Module<Sample>>, m: Module<Sample>, child: Module<Sample>,
                                        es: seq<Event<Sample>>)
    requires m.children == [child]
    ensures Inbox(uplinks, Messages(m, es), child) == es
  {
    if es != [] {
      var n := |es| - 1;
      var ms := Messages(m, es);
      InboxOfChild(uplinks, m, child, es[..n]);
      assert ms[..n] == Messages(m, es[..n]);
      assert Times(uplinks, m, child) == 1 && Copies(1, es[n]) == [es[n]];
    }
  }

  // From an event on, its value is in force.
  lemma EventInForce(c: seq<Event<Sample>>, e: Event<Sample>, value: Sample, last: nat, i: nat)
    requires last <= e.time
    ensures ValueAt(Offsets(c + [e], last), value, i) ==
            if e.time <= last + i then e.data else ValueAt(Offsets(c, last), value, i)
  {
    var os := Offsets(c + [e], last);
    assert os[|c|].time == e.time - last;
    assert os[..|c|] == Offsets(c, last);
  }

  lemma NoEvents(value: Sample, last: nat, i: nat)
    ensures Changes([], value, last) == [] && Held([], value) == value
    ensures ValueAt(Offsets([], last), value, i) == value && LastValue([], value) == value
  {
  }

  // Behind the last sample, the value in force is the one held there.
  lemma {:induction false} ChangesValue(s: seq<Sample>, value: Sample, last: nat, i: nat)
    requires last + |s| < TWO_32 && |s| <= i
    ensures LastValue(Changes(s, value, last), value) == Held(s, value)
    ensures ValueAt(Offsets(Changes(s, value, last), last), value, i) == Held(s, value)
  {
    hide Changes, Differs, ValueAt, Offsets;
    if s == [] {
      NoEvents(value, last, i);
    } else {
      var n := |s| - 1;
      LastChange(s, value, last);
      ChangesValue(s[..n], value, last, i);
      EventInForce(Changes(s[..n], value, last), Event(last + n, s[n]), value, last, i);
    }
  }

  lemma {:induction false} DecodeEncode(s: seq<Sample>, value: Sample, last: nat, i: nat)
    requires last + |s| < TWO_32 && i < |s|
    ensures ValueAt(Offsets(Changes(s, value, last), last), value, i) == Held(s[..i + 1], value)
  {
    hide Changes, Differs, ValueAt, Offsets, Held;
    var n := |s| - 1;
    if i == n {
      assert s[..i + 1] == s;
      ChangesThere(s, value, last);
    } else {
      DecodeEncode(s[..n], value, last, i);
      assert s[..n][..i + 1] == s[..i + 1];
      LastChange(s, value, last);
      EventInForce(Changes(s[..n], value, last), Event(last + n, s[n]), value, last, i);
    }
  }

  lemma ChangesThere(s: seq<Sample>, value: Sample, last: nat)
    requires s != [] && last + |s| < TWO_32
    ensures ValueAt(Offsets(Changes(s, value, last), last), value, |s| - 1) == Held(s, value)
  {
    hide Changes, Differs, ValueAt, Offsets;
    var n := |s| - 1;
    LastChange(s, value, last);
    ChangesValue(s[..n], value, last, n);
    EventInForce(Changes(s[..n], value, last), Event(last + n, s[n]), value, last, n);
  }

  // Encoding, scheduling twice and rendering give the output.
  lemma RoundTrip(s: seq<Sample>, value: Sample, last: nat, m: Module<Sample>, child: Module<Sample>,
                  uplinks: seq<Module<Sample>>)
    requires last + |s| < TWO_32 && m.children == [child]
    ensures var n, es := |s|, Changes(s, value, last); var q := InsertAll([], Messages(m, es));
            && Rest(q, last, n) == [] && InsertAll([], Inbox(uplinks, Delivered(q, last, n), child)) == es
            && Sorted(es) && Rest(es, last, n) == []
            && Rendered(es, last, n, value) == Output(s, value)
            && LastValue(Delivered(es, last, n), value) == Held(s, value)
  {
    hide Changes, ValueAt, Held, Inbox, Delivered, Rest, InsertAll;
    var n, es := |s|, Changes(s, value, last);
    ChangesInPeriod(s, value, last);
    AllDelivered(es, last, n);
    AllDelivered(Messages(m, es), last, n);
    InboxOfChild(uplinks, m, child, es);
    ChangesValue(s, value, last, n);
    forall i | 0 <= i < n ensures Rendered(es, last, n, value)[i] == Output(s, value)[i] {
      DecodeEncode(s, value, last, i);
    }
  }

  // In a period in which the 32-bit frame count wraps, what the host drains it
  // clamps to the start of the period, which is not before the wrapped end: the
  // decoder drains nothing and puts out the value it held.
  lemma WrappedPeriod(s: seq<Sample>, value: Sample, last: nat, m: Module<Sample>, child: Module<Sample>,
                      uplinks: seq<Module<Sample>>)
    requires last < TWO_32 && |s| < TWO_32 <= last + |s| && m.children == [child]
    ensures var n := |s|; var q := InsertAll([], Messages(m, Changes(s, value, last)));
            var r := InsertAll([], Inbox(uplinks, Delivered(q, last, n), child));
            && Sorted(r) && Delivered(r, last, n) == []
            && Rendered(r, last, n, value) == seq(n, _ => value)
  {
    hide Changes, Messages, Inbox, InsertAll, Sorted, NotBefore;
    var n, ms := |s|, Messages(m, Changes(s, value, last));
    NoneSorted<Message<Sample>>(last);
    InsertAllSorted([], ms);
    var ds := Delivered(InsertAll([], ms), last, n);
    Clamped(InsertAll([], ms), last, n);
    AllAtStart(InsertAll([], ms), last, n);
    InboxInPeriod(uplinks, ds, child, last, last);
    var inbox := Inbox(uplinks, ds, child);
    NoneSorted<Sample>(last);
    InsertAllSorted([], inbox);
    AllNotBefore([], inbox, last);
    NothingDue(InsertAll([], inbox), last, n);
  }

  lemma AllAtStart<T>(q: seq<Event<T>>, last: nat, n: nat)
    requires last < TWO_32 && n < TWO_32 <= last + n
    ensures forall i :: 0 <= i < |Delivered(q, last, n)| ==> Delivered(q, last, n)[i].time <= last
  {
    assert End(last, n) == last + n - TWO_32;
  }

  lemma NothingDue(q: seq<Event<Sample>>, last: nat, n: nat)
    requires last < TWO_32 && n < TWO_32 <= last + n && NotBefore(q, last)
    ensures Delivered(q, last, n) == []
    ensures forall value :: Rendered(q, last, n, value) == seq(n, _ => value)
  {
    assert End(last, n) == last + n - TWO_32;
    assert Due(q, End(last, n)) == 0;
  }

  // What the two drains and the decoder make of the samples s.
  ghost function PeriodOutput(s: seq<Sample>, value: Sample, last: nat, m: Module<Sample>, child: Module<Sample>,
                              uplinks: seq<Module<Sample>>): (out: seq<Sample>)
    ensures |out| == |s|
  {
    var q := InsertAll([], Messages(m, Changes(s, value, last)));
    var r := InsertAll([], Inbox(uplinks, Delivered(q, last, |s|), child));
    Rendered(r, last, |s|, value)
  }

  // A period is reproduced if and only if the frame count does not wrap in it, or
  // every sample is the value held before it.
  lemma PeriodExact(s: seq<Sample>, value: Sample, last: nat, m: Module<Sample>, child: Module<Sample>,
                    uplinks: seq<Module<Sample>>)
    requires last < TWO_32 && |s| < TWO_32 && m.children == [child]
    ensures var out := PeriodOutput(s, value, last, m, child, uplinks);
            && (last + |s| < TWO_32 ==> out == Output(s, value))
            && (last + |s| >= TWO_32 ==> out == seq(|s|, _ => value))
            && (Reproduced(s, out) <==> last + |s| < TWO_32 || forall i :: 0 <= i < |s| ==> Same(value, s[i]))
  {
    hide Changes, Messages, Inbox, InsertAll, Delivered, Rendered, Output, Same;
    var out := PeriodOutput(s, value, last, m, child, uplinks);
    if last + |s| < TWO_32 {
      RoundTrip(s, value, last, m, child, uplinks);
      forall i | 0 <= i < |s| ensures Same(out[i], s[i]) {
        OutputIsInput(s, value, i);
      }
    } else {
      WrappedPeriod(s, value, last, m, child, uplinks);
      assert forall i :: 0 <= i < |s| ==> out[i] == value;
    }
  }

  // Every sample came out as it went in, up to the sign of zeros.
  ghost predicate Reproduced(s: seq<Sample>, out: seq<Sample>) {
    |out| == |s| && forall i :: 0 <= i < |s| ==> Same(out[i], s[i])
  }

  // A period of 2 frames that wraps: the input changes, the output does not.
  lemma WrappedWitness(m: Module<Sample>, child: Module<Sample>)
    requires m.children == [child]
    ensures var s, v, last := [Number(1), Number(1)], Zero(false), TWO_32 - 1;
            var q := InsertAll([], Messages(m, Changes(s, v, last)));
            var r := InsertAll([], Inbox([], Delivered(q, last, 2), child));
            Rendered(r, last, 2, v) == [v, v] && !Same(Rendered(r, last, 2, v)[0], s[0])
  {
    hide InsertAll, Inbox, Delivered, Messages, Changes, Rendered;
    WrappedPeriod([Number(1), Number(1)], Zero(false), TWO_32 - 1, m, child, []);
  }

  // A zero behind a zero of the other sign keeps the older sign.
  lemma SignLost()
    ensures Output([Zero(true)], Zero(false)) == [Zero(false)]
  {
    assert [Zero(true)][..0] == [] && [Zero(true)][..1] == [Zero(true)];
  }

  // A cv_in whose only child is a cv_out, between two periods.
  ghost predicate Wired(host: Host<Sample>, cvIn: CvIn, cvOut: CvOut)
    reads host, cvIn, cvOut, cvOut.instance
  {
    && cvIn.instance.children == [cvOut.instance]
    && host.queue == [] && cvOut.instance.queue == []
    && cvIn.value == cvOut.value
  }

  // One period of _process with these two modules.  If the frame count wraps in
  // it, the decoder keeps its value throughout.
  method ProcessPeriod(host: Host<Sample>, cvIn: CvIn, cvOut: CvOut, inBuf: array<Sample>, outBuf: array<Sample>,
                       last: nat)
    requires Wired(host, cvIn, cvOut) && inBuf.Length == outBuf.Length && inBuf != outBuf
    requires last < TWO_32 && inBuf.Length < TWO_32
    modifies host, cvIn, cvOut, cvOut.instance, outBuf
    ensures cvIn.value == Held(inBuf[..], old(cvIn.value))
    ensures last + inBuf.Length < TWO_32 ==>
            Wired(host, cvIn, cvOut) && outBuf[..] == Output(inBuf[..], old(cvIn.value))
    ensures last + inBuf.Length >= TWO_32 ==>
              cvOut.value == old(cvOut.value) && outBuf[..] == seq(inBuf.Length, _ => old(cvOut.value))
    ensures Reproduced(inBuf[..], outBuf[..]) <==>
              last + inBuf.Length < TWO_32 || forall i :: 0 <= i < inBuf.Length ==> Same(old(cvIn.value), inBuf[i])
  {
    hide Changes, Held, Inbox, Delivered, Rest, InsertAll, Messages, Rendered, Output, LastValue, Sorted, Receivers,
         ReachesAll, Same;
    ghost var v0 := cvIn.value;
    PeriodExact(inBuf[..], v0, last, cvIn.instance, cvOut.instance, host.uplinks);
    if last + inBuf.Length < TWO_32 {
      RoundTrip(inBuf[..], v0, last, cvIn.instance, cvOut.instance, host.uplinks);
    } else {
      WrappedPeriod(inBuf[..], v0, last, cvIn.instance, cvOut.instance, host.uplinks);
    }
    cvIn.ProcessIn(host, inBuf, last);
    ChildReached(host, cvIn.instance, cvOut.instance, Changes(inBuf[..], v0, last));
    host.Dispatch(last, inBuf.Length, {cvOut.instance});
    cvOut.ProcessOut(outBuf, last);
    NoneLast(v0);
  }

  lemma NoneLast(value: Sample)
    ensures LastValue([], value) == value
  {
  }

  lemma ChildReached(host: Host<Sample>, m: Module<Sample>, child: Module<Sample>, es: seq<Event<Sample>>)
    requires m.children == [child] && host.queue == InsertAll([], Messages(m, es))
    ensures host.Reaches({child})
  {
    hide InsertAll;
    InsertAllReaches(host.uplinks, [], Messages(m, es), {child});
  }

  // ---------------------------------------------------------------- any number of periods

  function Flat(ss: seq<seq<Sample>>): seq<Sample> {
    if ss == [] then [] else Flat(ss[..|ss| - 1]) + ss[|ss| - 1]
  }

  // Two buffers in a row are rendered as one long buffer.
  lemma {:induction false} HeldAcross(a: seq<Sample>, b: seq<Sample>, value: Sample)
    ensures Held(a + b, value) == Held(b, Held(a, value))
  {
    if b == [] {
      assert a + b == a;
    } else {
      assert (a + b)[..|a + b| - 1] == a + b[..|b| - 1];
      HeldAcross(a, b[..|b| - 1], value);
    }
  }

  lemma OutputAcross(a: seq<Sample>, b: seq<Sample>, value: Sample)
    ensures Output(a + b, value) == Output(a, value) + Output(b, Held(a, value))
  {
    hide Held;
    forall i | 0 <= i < |a| + |b|
      ensures Output(a + b, value)[i] == (Output(a, value) + Output(b, Held(a, value)))[i]
    {
      if i < |a| {
        assert (a + b)[..i + 1] == a[..i + 1];
      } else {
        var j := i - |a|;
        assert (a + b)[..i + 1] == a + b[..j + 1];
        HeldAcross(a, b[..j + 1], value);
      }
    }
  }

  // Any number of contiguous periods of any lengths: the samples that come out,
  // all periods together, are those that went in, and at every boundary both
  // modules hold the same value.
  method ProcessRun(host: Host<Sample>, cvIn: CvIn, cvOut: CvOut, ins: seq<seq<Sample>>, start: nat)
      returns (outs: seq<seq<Sample>>)
    requires Wired(host, cvIn, cvOut) && start + |Flat(ins)| < TWO_32
    modifies host, cvIn, cvOut, cvOut.instance
    ensures Wired(host, cvIn, cvOut)
    ensures |outs| == |ins| && forall k :: 0 <= k < |ins| ==> |outs[k]| == |ins[k]|
    ensures Flat(outs) == Output(Flat(ins), old(cvIn.value))
    ensures Reproduced(Flat(ins), Flat(outs))
  {
    hide Held, Output;
    ghost var v0 := cvIn.value;
    var last := start;
    outs := [];
    NoOutput(ins, v0);
    for k := 0 to |ins|
      invariant Wired(host, cvIn, cvOut)
      invariant last == start + |Flat(ins[..k])|
      invariant |outs| == k && forall j :: 0 <= j < k ==> |outs[j]| == |ins[j]|
      invariant Flat(outs) == Output(Flat(ins[..k]), v0) && cvIn.value == Held(Flat(ins[..k]), v0)
    {
      FlatStep(ins, k);
      FlatPrefix(ins, k + 1);
      var inBuf := new Sample[|ins[k]|](i requires 0 <= i < |ins[k]| => ins[k][i]);
      var outBuf := new Sample[|ins[k]|];
      assert inBuf[..] == ins[k];
      ProcessPeriod(host, cvIn, cvOut, inBuf, outBuf, last);
      OutputAcross(Flat(ins[..k]), ins[k], v0);
      HeldAcross(Flat(ins[..k]), ins[k], v0);
      FlatStep(outs + [outBuf[..]], k);
      assert (outs + [outBuf[..]])[..k] == outs && (outs + [outBuf[..]])[..k + 1] == outs + [outBuf[..]];
      outs := outs + [outBuf[..]];
      last := last + inBuf.Length;
    }
    assert ins[..|ins|] == ins;
    forall i | 0 <= i < |Flat(ins)| ensures Same(Flat(outs)[i], Flat(ins)[i]) {
      OutputIsInput(Flat(ins), v0, i);
    }
  }

  lemma NoOutput(ins: seq<seq<Sample>>, value: Sample)
    ensures Flat(ins[..0]) == [] && Output([], value) == [] && Held([], value) == value
  {
  }

  lemma FlatStep(ss: seq<seq<Sample>>, k: nat)
    requires k < |ss|
    ensures Flat(ss[..k + 1]) == Flat(ss[..k]) + ss[k]
  {
    assert ss[..k + 1][..k] == ss[..k];
  }

  lemma {:induction false} FlatPrefix(ss: seq<seq<Sample>>, k: nat)
    requires k <= |ss|
    ensures |Flat(ss[..k])| <= |Flat(ss)|
    decreases |ss| - k
  {
    if k < |ss| {
      FlatStep(ss, k);
      FlatPrefix(ss, k + 1);
    } else {
      assert ss[..k] == ss;
    }
  }
}
