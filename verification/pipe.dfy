// The framed pipe of tjost_pipe.c between one producer and one consumer: a
// bounded first-in first-out of bytes that both sides use at the same time.
module Pipe {
  import Bits

  type byte = b: nat | b < 256

  const EVENT_SIZE: nat := 48
  const RINGBUF_SIZE: nat := 0x10000
  // A ring buffer keeps one byte free.
  const CAPACITY: nat := RINGBUF_SIZE - 1
  const SIZE_LIMIT: nat := Bits.TWO_64

  datatype Frame = Frame(source: nat, time: nat, payload: seq<byte>)

  // A frame with the bytes of the event structure that nobody initialises: the
  // list links (24 bytes) and the padding behind the time (4 bytes).
  datatype Item = Item(frame: Frame, junk: seq<byte>) {
    // The fields fit their C types, and header and payload fit in memory.
    predicate Ok() {
      && frame.source < Pow256(8) && frame.time < Pow256(4) && |junk| == 28
      && EVENT_SIZE + |frame.payload| < SIZE_LIMIT
    }
  }

  // ---------------------------------------------------------------- bytes of a frame

  function Pow256(n: nat): nat {
    if n == 0 then 1 else 256 * Pow256(n - 1)
  }

  function Digits(v: nat, n: nat): (s: seq<byte>)
    ensures |s| == n
  {
    if n == 0 then [] else [v % 256] + Digits(v / 256, n - 1)
  }

  function Number(s: seq<byte>): nat {
    if s == [] then 0 else s[0] + 256 * Number(s[1..])
  }

  lemma {:induction false} NumberOfDigits(v: nat, n: nat)
    requires v < Pow256(n)
    ensures Number(Digits(v, n)) == v
  {
    if n != 0 {
      NumberOfDigits(v / 256, n - 1);
      assert Digits(v, n)[1..] == Digits(v / 256, n - 1);
    }
  }

  // The event structure as memory.
  function Header(x: Item): (h: seq<byte>)
    requires x.Ok()
    ensures |h| == EVENT_SIZE
  {
    x.junk[..24] + Digits(x.frame.source, 8) + Digits(x.frame.time, 4) + x.junk[24..] + Digits(|x.frame.payload|, 8)
  }

  function HeaderSize(h: seq<byte>): nat
    requires |h| == EVENT_SIZE
  {
    Number(h[40..48])
  }

  function HeaderFrame(h: seq<byte>, payload: seq<byte>): Frame
    requires |h| == EVENT_SIZE
  {
    Frame(Number(h[24..32]), Number(h[32..36]), payload)
  }

  function Encode(x: Item): seq<byte>
    requires x.Ok()
  {
    Header(x) + x.frame.payload
  }

  lemma Pow256Eight()
    ensures Pow256(8) == SIZE_LIMIT
  {
    assert Pow256(4) == 0x1_0000_0000;
  }

  lemma HeaderRoundTrip(x: Item)
    requires x.Ok()
    ensures HeaderSize(Header(x)) == |x.frame.payload|
    ensures HeaderFrame(Header(x), x.frame.payload) == x.frame
  {
    hide Number, Digits, Pow256;
    Pow256Eight();
    var h := Header(x);
    assert h[24..32] == Digits(x.frame.source, 8);
    assert h[32..36] == Digits(x.frame.time, 4);
    assert h[40..48] == Digits(|x.frame.payload|, 8);
    NumberOfDigits(x.frame.source, 8);
    NumberOfDigits(x.frame.time, 4);
    NumberOfDigits(|x.frame.payload|, 8);
  }

  predicate AllOk(q: seq<Item>) {
    forall i :: 0 <= i < |q| ==> q[i].Ok()
  }

  function Bytes(q: seq<Item>): seq<byte>
    requires AllOk(q)
  {
    if q == [] then [] else Encode(q[0]) + Bytes(q[1..])
  }

  function Frames(q: seq<Item>): (s: seq<Frame>)
    ensures |s| == |q| && forall i :: 0 <= i < |q| ==> s[i] == q[i].frame
  {
    seq(|q|, i requires 0 <= i < |q| => q[i].frame)
  }

  lemma {:induction false} BytesAppend(q: seq<Item>, x: Item)
    requires AllOk(q) && x.Ok()
    ensures Bytes(q + [x]) == Bytes(q) + Encode(x)
  {
    if q == [] {
      assert q + [x] == [x];
    } else {
      assert (q + [x])[1..] == q[1..] + [x];
      BytesAppend(q[1..], x);
    }
  }

  // A stream that starts with a whole header and the payload this announces
  // starts with the first frame.
  lemma FirstFrame(q: seq<Item>, h: seq<byte>, tail: seq<byte>)
    requires AllOk(q) && |h| == EVENT_SIZE && h + tail == Bytes(q)
    ensures q != [] && h == Header(q[0]) && HeaderSize(h) == |q[0].frame.payload|
    ensures tail == q[0].frame.payload + Bytes(q[1..])
  {
    hide HeaderSize, Header;
    var b := Bytes(q);
    assert |b| >= EVENT_SIZE;
    var x := q[0];
    HeaderRoundTrip(x);
    assert b == Header(x) + (x.frame.payload + Bytes(q[1..]));
    assert b[..EVENT_SIZE] == h && b[EVENT_SIZE..] == tail;
  }

  // ---------------------------------------------------------------- the two threads

  // Where the producer stands in tjost_pipe_produce.  A write copies its bytes
  // in pieces, so the consumer may see any part of it.
  datatype Producer =
    | Resting
    | WriteHeader(item: Item)
    | InHeader(item: Item, left: seq<byte>)
    | InPayload(left: seq<byte>)
    | ShortWrite

  // Where the consumer stands in tjost_pipe_consume.
  datatype Consumer =
    | Asleep
    | Look
    | Peek
    | Judge(h: seq<byte>)
    | Advance(h: seq<byte>)
    | Read(h: seq<byte>)
    | InRead(h: seq<byte>, got: seq<byte>)
    | ShortRead

  // accepted and delivered are history.
  datatype State = State(ring: seq<byte>, producer: Producer, consumer: Consumer, accepted: seq<Item>,
      delivered: seq<Frame>)

  datatype Step =
    | Produce(item: Item)
    | StartHeader
    | MoveHeader(k: nat)
    | StartPayload
    | MovePayload(k: nat)
    | Return
    | Wake
    | CheckHeader
    | PeekHeader
    | CheckPayload
    | ReadAdvance
    | StartRead
    | MoveRead(k: nat)
    | Schedule(stop: bool)

  predicate Enabled(s: State, a: Step) {
    match a
    case Produce(x) => s.producer.Resting? && x.Ok()
    case StartHeader => s.producer.WriteHeader? && s.producer.item.Ok()
    case MoveHeader(k) => s.producer.InHeader? && 0 < k <= |s.producer.left|
    case StartPayload => s.producer.InHeader? && s.producer.left == []
    case MovePayload(k) => s.producer.InPayload? && 0 < k <= |s.producer.left|
    case Return => s.producer.InPayload? && s.producer.left == []
    case Wake => s.consumer.Asleep?
    case CheckHeader => s.consumer.Look?
    case PeekHeader => s.consumer.Peek?
    case CheckPayload => s.consumer.Judge? && |s.consumer.h| == EVENT_SIZE
    case ReadAdvance => s.consumer.Advance? && |s.ring| >= EVENT_SIZE
    case StartRead => s.consumer.Read? && |s.consumer.h| == EVENT_SIZE
    case MoveRead(k) =>
      && s.consumer.InRead? && |s.consumer.h| == EVENT_SIZE && 0 < k <= |s.ring|
      && |s.consumer.got| + k <= HeaderSize(s.consumer.h)
    case Schedule(_) =>
      s.consumer.InRead? && |s.consumer.h| == EVENT_SIZE && |s.consumer.got| == HeaderSize(s.consumer.h)
  }

  function Space(ring: seq<byte>): int {
    CAPACITY - |ring|
  }

  // One step of either thread.  The size in the space check is a size_t.
  function Next(s: State, a: Step): State
    requires Enabled(s, a)
  {
    match a
    case Produce(x) =>
      if Space(s.ring) < (EVENT_SIZE + |x.frame.payload|) % SIZE_LIMIT then s
      else s.(producer := WriteHeader(x), accepted := s.accepted + [x])
    case StartHeader =>
      var x := s.producer.item;
      s.(producer := if Space(s.ring) < EVENT_SIZE then ShortWrite else InHeader(x, Header(x)))
    case MoveHeader(k) =>
      var left := s.producer.left;
      s.(ring := s.ring + left[..k], producer := InHeader(s.producer.item, left[k..]))
    case StartPayload =>
      var payload := s.producer.item.frame.payload;
      s.(producer := if Space(s.ring) < |payload| then ShortWrite else InPayload(payload))
    case MovePayload(k) =>
      var left := s.producer.left;
      s.(ring := s.ring + left[..k], producer := InPayload(left[k..]))
    case Return => s.(producer := Resting)
    case Wake => s.(consumer := Look)
    case CheckHeader => s.(consumer := if |s.ring| >= EVENT_SIZE then Peek else Asleep)
    case PeekHeader => s.(consumer := if |s.ring| < EVENT_SIZE then ShortRead else Judge(s.ring[..EVENT_SIZE]))
    case CheckPayload =>
      s.(consumer := if |s.ring| >= EVENT_SIZE + HeaderSize(s.consumer.h) then Advance(s.consumer.h) else Look)
    case ReadAdvance => s.(ring := s.ring[EVENT_SIZE..], consumer := Read(s.consumer.h))
    case StartRead =>
      s.(consumer := if |s.ring| < HeaderSize(s.consumer.h) then ShortRead else InRead(s.consumer.h, []))
    case MoveRead(k) =>
      s.(ring := s.ring[k..], consumer := InRead(s.consumer.h, s.consumer.got + s.ring[..k]))
    case Schedule(stop) =>
      s.(delivered := s.delivered + [HeaderFrame(s.consumer.h, s.consumer.got)],
          consumer := if stop then Asleep else Look)
  }

  const Start: State := State([], Resting, Asleep, [], [])

  // ---------------------------------------------------------------- the invariant

  // What the producer has still to write of the frame it was let in with.
  function Pending(p: Producer): seq<byte> {
    match p
    case WriteHeader(x) => if x.Ok() then Encode(x) else []
    case InHeader(x, left) => left + x.frame.payload
    case InPayload(left) => left
    case _ => []
  }

  // What the consumer has taken of the frame it is reading.
  function Taken(c: Consumer): seq<byte> {
    match c
    case Read(h) => h
    case InRead(h, got) => h + got
    case _ => []
  }

  // What the consumer's tests have established stays true whatever the producer does.
  predicate ConsumerOk(ring: seq<byte>, c: Consumer) {
    match c
    case Peek => |ring| >= EVENT_SIZE
    case Judge(h) => |ring| >= EVENT_SIZE && h == ring[..EVENT_SIZE]
    case Advance(h) => |h| == EVENT_SIZE && |ring| >= EVENT_SIZE + HeaderSize(h) && h == ring[..EVENT_SIZE]
    case Read(h) => |h| == EVENT_SIZE && |ring| >= HeaderSize(h)
    case InRead(h, got) => |h| == EVENT_SIZE && |got| <= HeaderSize(h) <= |got| + |ring|
    case ShortRead => false
    case _ => true
  }

  predicate ProducerOk(ring: seq<byte>, p: Producer) {
    && !p.ShortWrite?
    && (p.WriteHeader? || p.InHeader? ==> p.item.Ok())
    && |ring| + |Pending(p)| <= CAPACITY
  }

  // The bytes on their way are those of the frames not yet delivered.
  predicate Inv(s: State) {
    && AllOk(s.accepted)
    && |s.delivered| <= |s.accepted|
    && s.delivered == Frames(s.accepted[..|s.delivered|])
    && Taken(s.consumer) + s.ring + Pending(s.producer) == Bytes(s.accepted[|s.delivered|..])
    && ProducerOk(s.ring, s.producer)
    && ConsumerOk(s.ring, s.consumer)
  }

  // Whether a frame is let in depends on the free space alone, and a frame that is not leaves no trace.
  lemma Admission(s: State, x: Item)
    requires Inv(s) && Enabled(s, Produce(x))
    ensures var s' := Next(s, Produce(x));
            if EVENT_SIZE + |x.frame.payload| <= Space(s.ring) then s'.accepted == s.accepted + [x] && Inv(s')
            else s' == s
  {
    hide Bytes, Encode, Frames, Taken, ConsumerOk;
    if EVENT_SIZE + |x.frame.payload| <= Space(s.ring) {
      AcceptedMore(s.accepted, |s.delivered|, x);
      Longer(Taken(s.consumer), s.ring, Encode(x), Bytes(s.accepted[|s.delivered|..]));
      EncodeLength(x);
    }
  }

  lemma EncodeLength(x: Item)
    requires x.Ok()
    ensures |Encode(x)| == EVENT_SIZE + |x.frame.payload|
  {
  }

  lemma AcceptedMore(q: seq<Item>, n: nat, x: Item)
    requires AllOk(q) && n <= |q| && x.Ok()
    ensures AllOk(q + [x]) && (q + [x])[..n] == q[..n]
    ensures Bytes((q + [x])[n..]) == Bytes(q[n..]) + Encode(x)
  {
    BytesAppend(q[n..], x);
    assert (q + [x])[n..] == q[n..] + [x];
  }

  lemma Longer(a: seq<byte>, b: seq<byte>, c: seq<byte>, d: seq<byte>)
    requires a + b + [] == d
    ensures a + b + c == d + c
  {
  }

  predicate IsProducerStep(a: Step) {
    a.StartHeader? || a.MoveHeader? || a.StartPayload? || a.MovePayload? || a.Return?
  }

  // The passed space check is never invalidated: both writes are complete.
  lemma ProducerKeeps(s: State, a: Step)
    requires Inv(s) && Enabled(s, a) && IsProducerStep(a)
    ensures Inv(Next(s, a))
  {
    hide Bytes, Frames, AllOk, ConsumerOk, Taken, HeaderSize;
    var s' := Next(s, a);
    ProducerMoves(s, a);
    Regroup(Taken(s.consumer), s.ring, Pending(s.producer), s'.ring, Pending(s'.producer));
    ConsumerStays(s.ring, s'.ring, s.consumer);
  }

  lemma ProducerMoves(s: State, a: Step)
    requires ProducerOk(s.ring, s.producer) && Enabled(s, a) && IsProducerStep(a)
    ensures var s' := Next(s, a);
            && s'.ring + Pending(s'.producer) == s.ring + Pending(s.producer) && s.ring <= s'.ring
            && ProducerOk(s'.ring, s'.producer)
  {
    hide Header, HeaderSize;
    match a
    case StartHeader =>
    case StartPayload =>
    case MoveHeader(k) => Moved(s.ring, s.producer.left, k, s.producer.item.frame.payload);
    case MovePayload(k) => Moved(s.ring, s.producer.left, k, []);
    case _ =>
  }

  lemma Moved(ring: seq<byte>, left: seq<byte>, k: nat, rest: seq<byte>)
    requires k <= |left|
    ensures (ring + left[..k]) + (left[k..] + rest) == ring + (left + rest)
    ensures left + [] == left && left[k..] + [] == left[k..]
    ensures ring <= ring + left[..k]
  {
    assert left[..k] + left[k..] == left;
  }

  lemma Regroup(a: seq<byte>, b: seq<byte>, c: seq<byte>, b': seq<byte>, c': seq<byte>)
    requires b' + c' == b + c
    ensures a + b' + c' == a + b + c
  {
    assert a + b' + c' == a + (b' + c');
    assert a + b + c == a + (b + c);
  }

  // More bytes in the ring invalidate none of the consumer's tests.
  lemma ConsumerStays(ring: seq<byte>, ring': seq<byte>, c: Consumer)
    requires ConsumerOk(ring, c) && ring <= ring'
    ensures ConsumerOk(ring', c)
  {
    hide HeaderSize;
  }

  lemma ConsumerKeeps(s: State, a: Step)
    requires Inv(s) && Enabled(s, a) && !IsProducerStep(a) && !a.Produce? && !a.Schedule?
    ensures Inv(Next(s, a))
  {
    hide Bytes, Frames, HeaderSize, Pending, AllOk;
    var s' := Next(s, a);
    assert Taken(s'.consumer) + s'.ring == Taken(s.consumer) + s.ring;
  }

  // A frame is delivered as it was accepted.
  lemma DeliveryKeeps(s: State, stop: bool)
    requires Inv(s) && Enabled(s, Schedule(stop))
    ensures Inv(Next(s, Schedule(stop)))
  {
    hide Pending, HeaderSize, HeaderFrame, Bytes, Header, Frames;
    var n, rest := |s.delivered|, s.accepted[|s.delivered|..];
    Delivered(s.accepted, n, s.consumer.h, s.consumer.got, s.ring, Pending(s.producer));
    assert [] + s.ring + Pending(s.producer) == s.ring + Pending(s.producer);
  }

  // The frame in hand is the next one, and the rest of the stream is that of the frames behind it.
  lemma Delivered(q: seq<Item>, n: nat, h: seq<byte>, got: seq<byte>, ring: seq<byte>, pending: seq<byte>)
    requires AllOk(q) && n <= |q| && |h| == EVENT_SIZE && |got| == HeaderSize(h)
    requires AllOk(q[n..]) && (h + got) + ring + pending == Bytes(q[n..])
    ensures n < |q| && HeaderFrame(h, got) == q[n].frame
    ensures AllOk(q[n + 1..]) && ring + pending == Bytes(q[n + 1..])
    ensures Frames(q[..n + 1]) == Frames(q[..n]) + [q[n].frame]
  {
    hide HeaderSize, HeaderFrame, Bytes, Header;
    var tail, rest := got + (ring + pending), q[n..];
    assert h + tail == (h + got) + ring + pending;
    FirstFrame(rest, h, tail);
    HeaderRoundTrip(rest[0]);
    assert tail[..|got|] == got && tail[|got|..] == ring + pending;
    assert rest[0] == q[n] && rest[1..] == q[n + 1..];
    assert got == q[n].frame.payload;
  }

  // ---------------------------------------------------------------- every interleaving

  predicate Run(s: State, steps: seq<Step>)
    decreases |steps|
  {
    steps == [] || (Enabled(s, steps[0]) && Run(Next(s, steps[0]), steps[1..]))
  }

  function After(s: State, steps: seq<Step>): State
    requires Run(s, steps)
    decreases |steps|
  {
    if steps == [] then s else After(Next(s, steps[0]), steps[1..])
  }

  lemma {:induction false} RunKeeps(s: State, steps: seq<Step>)
    requires Inv(s) && Run(s, steps)
    ensures Inv(After(s, steps))
    decreases |steps|
  {
    if steps != [] {
      hide Inv, Enabled, Next;
      var a := steps[0];
      if a.Produce? {
        Admission(s, a.item);
      } else if a.Schedule? {
        DeliveryKeeps(s, a.stop);
      } else if IsProducerStep(a) {
        ProducerKeeps(s, a);
      } else {
        ConsumerKeeps(s, a);
      }
      RunKeeps(Next(s, a), steps[1..]);
    }
  }

  lemma StartInv()
    ensures Inv(Start)
  {
  }

  lemma FramesPrefix(q: seq<Item>, n: nat)
    requires n <= |q|
    ensures Frames(q[..n]) <= Frames(q)
  {
  }

  // Safety under every interleaving: what was delivered is a prefix of what was
  // accepted, no write or read is ever short, and the ring never overflows.
  lemma Safety(steps: seq<Step>)
    requires Run(Start, steps)
    ensures var s := After(Start, steps);
            && AllOk(s.accepted) && s.delivered <= Frames(s.accepted)
            && !s.producer.ShortWrite? && !s.consumer.ShortRead? && |s.ring| <= CAPACITY
            && (s.producer.Resting? && Taken(s.consumer) == [] ==> s.ring == Bytes(s.accepted[|s.delivered|..]))
  {
    hide Bytes, Frames;
    StartInv();
    RunKeeps(Start, steps);
    var s := After(Start, steps);
    FramesPrefix(s.accepted, |s.delivered|);
    if s.producer.Resting? && Taken(s.consumer) == [] {
      assert Taken(s.consumer) + s.ring + Pending(s.producer) == s.ring;
    }
  }

  // ---------------------------------------------------------------- the two functions

  // The JACK ring buffer as the pipe uses it.
  class RingBuffer {
    var data: seq<byte>

    constructor ()
      ensures data == []
    {
      data := [];
    }

    method Write(s: seq<byte>) returns (n: nat)
      requires |data| <= CAPACITY
      modifies this
      ensures n == (if |s| <= Space(old(data)) then |s| else Space(old(data)))
      ensures n <= |s| && data == old(data) + s[..n]
    {
      n := if |s| <= Space(data) then |s| else Space(data);
      data := data + s[..n];
    }

    method Read(count: nat) returns (s: seq<byte>)
      modifies this
      ensures |s| == (if count <= |old(data)| then count else |old(data)|) && old(data) == s + data
    {
      var n := if count <= |data| then count else |data|;
      s, data := data[..n], data[n..];
    }
  }

  // tjost_pipe_produce
  method PipeProduce(rb: RingBuffer, x: Item) returns (r: int)
    requires |rb.data| <= CAPACITY && x.Ok()
    modifies rb
    ensures r == (if EVENT_SIZE + |x.frame.payload| <= Space(old(rb.data)) then 0 else -1)
    ensures rb.data == old(rb.data) + if r == 0 then Encode(x) else []
  {
    hide Header;
    if Space(rb.data) < (EVENT_SIZE + |x.frame.payload|) % SIZE_LIMIT {
      return -1;
    }
    var n := rb.Write(Header(x));
    if n != EVENT_SIZE {
      return -1;
    }
    n := rb.Write(x.frame.payload);
    if n != |x.frame.payload| {
      return -1;
    }
    return 0;
  }

  // The frames of q that are wholly in the ring when the bytes of pending are still to come.
  function Whole(q: seq<Item>, pending: seq<byte>): nat {
    if pending == [] || q == [] then |q| else |q| - 1
  }

  // At most the last frame is incomplete, and its header is.
  predicate HeaderCut(q: seq<Item>, pending: seq<byte>)
    requires AllOk(q)
  {
    pending == [] || (q != [] && |pending| <= |Encode(q[|q| - 1])| < |pending| + EVENT_SIZE)
  }

  // tjost_pipe_consume on a ring that holds whole frames and perhaps the
  // beginning of a header; stop(i) is what the scheduling callback returns for
  // the i-th frame.  It delivers every frame up to the first for which that is
  // true, and leaves the rest untouched.
  method PipeConsume(rb: RingBuffer, stop: nat -> bool, ghost q: seq<Item>, ghost pending: seq<byte>)
      returns (r: int, out: seq<Frame>)
    requires AllOk(q) && HeaderCut(q, pending) && rb.data + pending == Bytes(q)
    modifies rb
    ensures r == 0 && |out| <= Whole(q, pending)
    ensures out == Frames(q[..|out|]) && rb.data + pending == Bytes(q[|out|..])
    ensures forall i :: 0 <= i < |out| - 1 ==> !stop(i)
    ensures |out| == Whole(q, pending) || (out != [] && stop(|out| - 1))
    ensures pending == [] && (forall i :: !stop(i)) ==> out == Frames(q) && rb.data == []
  {
    hide Header, HeaderSize, HeaderFrame, Bytes, Frames, AllOk, Encode, HeaderCut;
    out := [];
    NoneTaken(q);
    while |rb.data| >= EVENT_SIZE
      invariant |out| <= Whole(q, pending) && AllOk(q[|out|..]) && out == Frames(q[..|out|]) &&
                rb.data + pending == Bytes(q[|out|..])
      invariant forall i :: 0 <= i < |out| ==> !stop(i)
      decreases |q| - |out|
    {
      ghost var n := |out|;
      var h := rb.data[..EVENT_SIZE];
      NextFrame(q, n, rb.data, pending);
      var size := HeaderSize(h);
      if |rb.data| >= EVENT_SIZE + size {
        var _ := rb.Read(EVENT_SIZE);
        var buffer := rb.Read(size);
        if |buffer| != size {
          return -1, out;
        }
        Delivered(q, n, h, buffer, rb.data, pending);
        out := out + [HeaderFrame(h, buffer)];
        if stop(|out| - 1) {
          break;
        }
      }
    }
    AllTaken(q, |out|, rb.data, pending);
    return 0, out;
  }

  lemma NoneTaken(q: seq<Item>)
    requires AllOk(q)
    ensures q[0..] == q && Frames(q[..0]) == []
  {
  }

  lemma AllTaken(q: seq<Item>, n: nat, data: seq<byte>, pending: seq<byte>)
    requires AllOk(q) && n <= Whole(q, pending) && AllOk(q[n..]) && HeaderCut(q, pending) &&
             data + pending == Bytes(q[n..])
    ensures n < Whole(q, pending) ==> |data| >= EVENT_SIZE
    ensures n == |q| ==> data == [] && q[..n] == q
  {
    hide Header;
    if n < Whole(q, pending) {
      LengthFrom(q, n, pending);
    }
  }

  // While a frame is wholly in the ring, so are its bytes.
  lemma {:induction false} LengthFrom(q: seq<Item>, n: nat, pending: seq<byte>)
    requires AllOk(q) && n < Whole(q, pending) && AllOk(q[n..]) && HeaderCut(q, pending)
    ensures |Bytes(q[n..])| >= EVENT_SIZE + |q[n].frame.payload| + |pending|
    decreases |q| - n
  {
    hide Header;
    assert q[n..][1..] == q[n + 1..] && q[n..][0] == q[n];
    EncodeLength(q[n]);
    if n + 1 < Whole(q, pending) {
      LengthFrom(q, n + 1, pending);
    } else if n + 1 < |q| {
      assert q[n + 1..][0] == q[n + 1];
    }
  }

  // Behind a visible header the whole payload is there.
  lemma NextFrame(q: seq<Item>, n: nat, data: seq<byte>, pending: seq<byte>)
    requires AllOk(q) && n <= Whole(q, pending) && AllOk(q[n..]) && HeaderCut(q, pending) &&
             data + pending == Bytes(q[n..])
    requires |data| >= EVENT_SIZE
    ensures n < Whole(q, pending) && |data| >= EVENT_SIZE + HeaderSize(data[..EVENT_SIZE])
  {
    hide Bytes, Header, HeaderSize;
    var h, tail := data[..EVENT_SIZE], data[EVENT_SIZE..] + pending;
    assert h + tail == data + pending;
    FirstFrame(q[n..], h, tail);
    OnlyCut(q, n, data, pending);
    LengthFrom(q, n, pending);
    assert q[n..][0] == q[n];
  }

  lemma OnlyCut(q: seq<Item>, n: nat, data: seq<byte>, pending: seq<byte>)
    requires AllOk(q) && n < |q| && AllOk(q[n..]) && HeaderCut(q, pending) && data + pending == Bytes(q[n..]) &&
             |data| >= EVENT_SIZE
    ensures n < Whole(q, pending)
  {
    hide Header;
    if n == |q| - 1 {
      assert q[n..] == [q[n]] && [q[n]][1..] == [];
    }
  }

  // With a whole header in the ring and its payload not yet, the loop of
  // tjost_pipe_consume goes round and round and changes nothing: it waits for the producer.
  lemma Waits(s: State)
    requires s.consumer.Look? && EVENT_SIZE <= |s.ring| && |s.ring| < EVENT_SIZE + HeaderSize(s.ring[..EVENT_SIZE])
    ensures Run(s, [CheckHeader, PeekHeader, CheckPayload]) && After(s, [CheckHeader, PeekHeader, CheckPayload]) == s
  {
    hide HeaderSize;
    var s1 := Next(s, CheckHeader);
    var s2 := Next(s1, PeekHeader);
    assert Next(s2, CheckPayload) == s;
    assert [CheckHeader, PeekHeader, CheckPayload][1..] == [PeekHeader, CheckPayload];
    assert [PeekHeader, CheckPayload][1..] == [CheckPayload] && [CheckPayload][1..] == [];
    assert Run(s, []) && After(s, []) == s;
    assert Run(s2, [CheckPayload]) && After(s2, [CheckPayload]) == s;
    assert Run(s1, [PeekHeader, CheckPayload]) && After(s1, [PeekHeader, CheckPayload]) == s;
  }
}
