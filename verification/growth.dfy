// How the host of tjost.c grows its memory: the handshake between the
// real-time thread and the event loop around rtmem_flag, the asynchronous
// request and the ring buffer of new chunks.
module Growth {
  import opened Bits
  import opened SizeClass

  // A memory chunk; pool is what tlsf_add_pool returned for it, 0 for a rejection.
  datatype Chunk = Chunk(area: nat, size: nat, pool: nat)

  // tlsf_add_pool makes a pool of the chunk: it is aligned and of a possible size.
  predicate Accepted(c: Chunk) {
    c.area > 0 && c.area % 8 == 0 && 40 <= c.size < 0x1_0000_0018
  }

  // The size of a chunk that the host maps.
  const AREA_SIZE: nat := 0x100_0000

  // That is what the tests of tlsf_add_pool come to, so an aligned chunk of the
  // size that the host maps becomes a pool.
  lemma AcceptedExactly(c: Chunk)
    requires c.area > 0 && c.size < TWO_64
    ensures PoolAccepted(c.area, c.size) <==> Accepted(c)
    ensures c.size == AREA_SIZE ==> (PoolAccepted(c.area, c.size) <==> c.area % 8 == 0)
  {
    hide PoolAccepted;
    PoolAcceptedExactly(c.area, c.size);
  }

  // The chunk after tlsf_add_pool.
  function Added(c: Chunk): Chunk {
    c.(pool := if Accepted(c) then c.area else 0)
  }

  // mmap reports a failure by this address, which passes the test for null: the
  // chunk is handed over like any other.
  const MAP_FAILED: nat := TWO_64 - 1

  const POINTER_SIZE: nat := 8
  // sizeof(Tjost_Mem_Chunk) * 2 + 1 bytes are asked for, of which one stays free.
  const RING_BYTES: nat := 48 * 2

  // Between which statements the real-time thread is: in tjost_alloc after
  // setting the flag, or in tjost_add_memory after taking a chunk, after
  // listing it and after counting it.
  datatype RealTime = Idle | Flagged | Took(chunk: Chunk) | Listed(chunk: Chunk) | Counted

  // The same for the event loop in tjost_request_memory.
  datatype Loop = Waiting | Mapping | Mapped(chunk: Chunk)

  // overflows is history.
  datatype State = State(
    flag: nat, pending: bool, ring: seq<Chunk>, chunks: seq<Chunk>, sum: nat,
    rt: RealTime, loop: Loop, overflows: nat)

  datatype Step =
    | Request             // used exceeds half of the memory: set the flag
    | Send                // uv_async_send
    | Take                // read a chunk from the ring
    | Enlist              // tlsf_add_pool, and prepend the chunk
    | Count               // add to rtmem_sum
    | Clear               // clear the flag
    | Fire                // the loop runs the callback; requests sent before count as one
    | Map(chunk: Chunk)   // tjost_map_memory_chunk, whatever mmap returned
    | Hand                // write the chunk to the ring, if there is room

  predicate Enabled(s: State, a: Step) {
    match a
    case Request => s.rt.Idle? && s.flag == 0
    case Send => s.rt.Flagged?
    case Take => s.rt.Idle? && POINTER_SIZE * |s.ring| >= POINTER_SIZE
    case Enlist => s.rt.Took?
    case Count => s.rt.Listed?
    case Clear => s.rt.Counted?
    case Fire => s.loop.Waiting? && s.pending
    case Map(_) => s.loop.Mapping?
    case Hand => s.loop.Mapped?
  }

  function Next(s: State, a: Step): State
    requires Enabled(s, a)
  {
    match a
    case Request => s.(flag := 1, rt := Flagged)
    case Send => s.(pending := true, rt := Idle)
    case Take => s.(ring := s.ring[1..], rt := Took(s.ring[0]))
    case Enlist => s.(chunks := [Added(s.rt.chunk)] + s.chunks, rt := Listed(Added(s.rt.chunk)))
    case Count => s.(sum := (s.sum + s.rt.chunk.size) % TWO_64, rt := Counted)
    case Clear => s.(flag := 0, rt := Idle)
    case Fire => s.(pending := false, loop := Mapping)
    case Map(c) => s.(loop := Mapped(c))
    case Hand =>
      if RING_BYTES - POINTER_SIZE * |s.ring| < POINTER_SIZE then s.(overflows := s.overflows + 1, loop := Waiting)
      else s.(ring := s.ring + [s.loop.chunk], loop := Waiting)
  }

  // _tjost_init: one chunk, nothing asked for.
  function Start(first: Chunk): State {
    State(0, false, [], [first], first.size % TWO_64, Idle, Waiting, 0)
  }

  function One(b: bool): nat {
    if b then 1 else 0
  }

  // The requests that are under way: sent, being served, or served and not yet taken in.
  function Requests(s: State): nat {
    One(s.pending) + One(!s.loop.Waiting?) + |s.ring|
  }

  function UnderWay(s: State): nat {
    Requests(s) + One(!s.rt.Idle?)
  }

  function Total(chunks: seq<Chunk>): nat {
    if chunks == [] then 0 else chunks[0].size + Total(chunks[1..])
  }

  // The sizes of the chunks that have a pool.
  function PoolTotal(chunks: seq<Chunk>): nat {
    if chunks == [] then 0 else (if chunks[0].pool != 0 then chunks[0].size else 0) + PoolTotal(chunks[1..])
  }

  // The first chunk is that of _tjost_init, which gives up without a pool.
  predicate PoolsRight(chunks: seq<Chunk>) {
    && (chunks != [] ==> chunks[|chunks| - 1].pool != 0)
    && forall i :: 0 <= i < |chunks| - 1 ==> (chunks[i].pool != 0 <==> Accepted(chunks[i]))
  }

  lemma RightCons(c: Chunk, chunks: seq<Chunk>)
    requires PoolsRight(chunks) && chunks != []
    ensures PoolsRight([Added(c)] + chunks)
  {
    var r := [Added(c)] + chunks;
    assert forall i :: 0 < i < |r| ==> r[i] == chunks[i - 1];
  }

  lemma RightTail(chunks: seq<Chunk>)
    requires PoolsRight(chunks) && chunks != []
    ensures PoolsRight(chunks[1..])
  {
    hide Accepted;
    assert forall i :: 0 <= i < |chunks| - 1 ==> chunks[1..][i] == chunks[i + 1];
  }

  // The flag is set exactly while a request is under way.
  predicate Inv(s: State) {
    && s.flag <= 1 && UnderWay(s) == s.flag
    && s.overflows == 0
    && s.sum < TWO_64
    && s.chunks != [] && PoolsRight(s.chunks) &&
       s.sum == (Total(s.chunks) - if s.rt.Listed? then s.rt.chunk.size else 0) % TWO_64
    && (s.rt.Listed? ==> s.chunks[0] == s.rt.chunk)
  }

  lemma StepKeeps(s: State, a: Step)
    requires Inv(s) && Enabled(s, a)
    ensures Inv(Next(s, a))
  {
    var s' := Next(s, a);
    match a
    case Enlist =>
      assert s'.chunks[1..] == s.chunks;
    case Count =>
      var c, rest := s.chunks[0].size, Total(s.chunks[1..]);
      AddWraps(rest, c);
    case _ =>
  }

  lemma AddWraps(x: int, c: nat)
    ensures (x % TWO_64 + c) % TWO_64 == (x + c) % TWO_64
  {
  }

  predicate Run(s: State, steps: seq<Step>)
    decreases |steps|
  {
    steps == [] || (Enabled(s, steps[0]) && Run(Next(s, steps[0]), steps[1..]))
  }

  function After(s: State, steps: seq<Step>): State
    requires Run(s, steps)
    decreases |steps|
  {
    if steps == [] then s else After(Next(s, steps[0]), steps[1..])
  }

  lemma {:induction false} RunKeeps(s: State, steps: seq<Step>)
    requires Inv(s) && Run(s, steps)
    ensures Inv(After(s, steps))
    decreases |steps|
  {
    if steps != [] {
      StepKeeps(s, steps[0]);
      RunKeeps(Next(s, steps[0]), steps[1..]);
    }
  }

  // Over every interleaving: at most one request is under way, none while the
  // flag is clear; the ring never overflows; and rtmem_sum is the total of the
  // chunks except between listing a chunk and counting it.
  lemma Handshake(first: Chunk, steps: seq<Step>)
    requires first.pool != 0 && Run(Start(first), steps)
    ensures var s := After(Start(first), steps);
            && Requests(s) <= 1
            && (s.flag == 0 ==> Requests(s) == 0 && s.rt.Idle?)
            && s.overflows == 0
            && (!s.rt.Listed? ==> s.sum == Total(s.chunks) % TWO_64)
  {
    assert Total([first]) == first.size;
    RunKeeps(Start(first), steps);
  }

  // ---------------------------------------------------------------- what is counted

  lemma {:induction false} CountedChunks(chunks: seq<Chunk>)
    requires forall i :: 0 <= i < |chunks| ==> chunks[i].size > 0
    ensures PoolTotal(chunks) <= Total(chunks)
    ensures PoolTotal(chunks) == Total(chunks) <==> forall i :: 0 <= i < |chunks| ==> chunks[i].pool != 0
  {
    if chunks != [] {
      CountedChunks(chunks[1..]);
      assert forall i :: 0 < i < |chunks| ==> chunks[i] == chunks[1..][i - 1];
    }
  }

  // Over every interleaving, rtmem_sum is the memory that has a pool if and only
  // if tlsf_add_pool accepted every chunk listed after the first.
  lemma CountsPools(first: Chunk, steps: seq<Step>)
    requires first.pool != 0 && Run(Start(first), steps)
    ensures var s := After(Start(first), steps);
            !s.rt.Listed? && Total(s.chunks) < TWO_64 && (forall i :: 0 <= i < |s.chunks| ==> s.chunks[i].size > 0) ==>
              (s.sum == PoolTotal(s.chunks) <==> forall i :: 0 <= i < |s.chunks| - 1 ==> Accepted(s.chunks[i]))
  {
    hide Run, After, Total, PoolTotal;
    StartInv(first);
    RunKeeps(Start(first), steps);
    var s := After(Start(first), steps);
    if !s.rt.Listed? && Total(s.chunks) < TWO_64 && (forall i :: 0 <= i < |s.chunks| ==> s.chunks[i].size > 0) {
      CountedChunks(s.chunks);
    }
  }

  // A failed mapping goes all the way: it is listed without a pool, counted, and
  // the flag is cleared as if there were more memory.
  lemma FailedMapping(first: Chunk)
    requires first.pool != 0 && first.size == AREA_SIZE
    ensures var c := Chunk(MAP_FAILED, AREA_SIZE, 0);
            var steps := [Request, Send, Fire, Map(c), Hand, Take, Enlist, Count, Clear];
            && Run(Start(first), steps)
            && var s := After(Start(first), steps);
            && s.chunks == [c, first] && s.flag == 0
            && s.sum == 2 * AREA_SIZE && PoolTotal(s.chunks) == AREA_SIZE
  {
    hide Inv, Run, After, Next, Enabled, Total, PoolTotal;
    var c := Chunk(MAP_FAILED, AREA_SIZE, 0);
    assert Added(c) == c;
    var s5 := FirstRequest(first, c);
    StartInv(first);
    assert RequestSteps(c) + [Take, Enlist, Count, Clear] ==
           [Request, Send, Fire, Map(c), Hand, Take, Enlist, Count, Clear];
    RunKeeps(Start(first), RequestSteps(c));
    TakenIn(s5);
    RunAppend(Start(first), RequestSteps(c), [Take, Enlist, Count, Clear]);
    TwoChunks(c, first);
  }

  lemma TwoChunks(c: Chunk, first: Chunk)
    ensures Total([c] + [first]) == c.size + first.size
    ensures PoolTotal([c] + [first]) == (if c.pool != 0 then c.size else 0) + if first.pool != 0 then first.size else 0
    ensures [c] + [first] == [c, first]
  {
    assert ([c] + [first])[1..] == [first] && [first][1..] == [];
    assert Total([first]) == first.size && PoolTotal([first]) == if first.pool != 0 then first.size else 0;
  }

  lemma StartInv(first: Chunk)
    requires first.pool != 0
    ensures Inv(Start(first))
  {
    assert Total([first]) == first.size;
  }

  // What the two threads do until the chunk c is in the ring.
  function RequestSteps(c: Chunk): seq<Step> {
    [Request, Send, Fire, Map(c), Hand]
  }

  lemma FirstRequest(first: Chunk, c: Chunk) returns (s5: State)
    ensures Run(Start(first), RequestSteps(c)) && s5 == After(Start(first), RequestSteps(c))
    ensures s5 == Start(first).(flag := 1, ring := [c])
  {
    var s := Start(first);
    s5 := s.(flag := 1, ring := [c]);
    RunCons(s5, [], s5);
    RunCons(s.(flag := 1, loop := Mapped(c)), [Hand], s5);
    RunCons(s.(flag := 1, loop := Mapping), [Map(c), Hand], s5);
    RunCons(s.(flag := 1, pending := true), [Fire, Map(c), Hand], s5);
    RunCons(s.(flag := 1, rt := Flagged), [Send, Fire, Map(c), Hand], s5);
    RunCons(s, [Request, Send, Fire, Map(c), Hand], s5);
  }

  lemma {:induction false} RunAppend(s: State, a: seq<Step>, b: seq<Step>)
    requires Run(s, a) && Run(After(s, a), b)
    ensures Run(s, a + b) && After(s, a + b) == After(After(s, a), b)
    decreases |a|
  {
    if a == [] {
      assert a + b == b;
    } else {
      RunAppend(Next(s, a[0]), a[1..], b);
      assert (a + b)[1..] == a[1..] + b;
    }
  }

  lemma TotalCons(c: Chunk, chunks: seq<Chunk>)
    ensures Total([c] + chunks) == c.size + Total(chunks)
  {
    assert ([c] + chunks)[1..] == chunks;
  }

  lemma AddedSize(c: Chunk)
    ensures Added(c).size == c.size
  {
  }

  // A run goes on from where its first step leads.
  lemma RunCons(s: State, steps: seq<Step>, end: State)
    requires if steps == [] then s == end
             else
               && Enabled(s, steps[0]) && Run(Next(s, steps[0]), steps[1..])
               && After(Next(s, steps[0]), steps[1..]) == end
    ensures Run(s, steps) && After(s, steps) == end
  {
  }

  // tjost_add_memory run to its end: the chunk is taken in, and the flag is clear again.
  lemma TakenIn(s: State)
    requires Inv(s) && s.rt.Idle? && s.ring != []
    ensures Run(s, [Take, Enlist, Count, Clear])
    ensures var chunks := [Added(s.ring[0])] + s.chunks;
            After(s, [Take, Enlist, Count, Clear]) ==
                s.(ring := [], chunks := chunks, sum := Total(chunks) % TWO_64, flag := 0)
  {
    hide Total, PoolsRight, Accepted, Run, After, Added;
    var c := Added(s.ring[0]);
    var chunks := [c] + s.chunks;
    TotalCons(c, s.chunks);
    assert c.size == s.ring[0].size by {
      AddedSize(s.ring[0]);
    }
    var done := s.(ring := [], chunks := chunks, sum := Total(chunks) % TWO_64, flag := 0);
    assert s.ring[1..] == [];
    AddWraps(Total(s.chunks), c.size);
    RunCons(done, [], done);
    RunCons(done.(flag := 1, rt := Counted), [Clear], done);
    RunCons(done.(flag := 1, sum := s.sum, rt := Listed(c)), [Count, Clear], done);
    RunCons(s.(ring := [], rt := Took(s.ring[0])), [Enlist, Count, Clear], done);
    RunCons(s, [Take, Enlist, Count, Clear], done);
  }

  // ---------------------------------------------------------------- when growth goes on

  // How many steps a request is from the flag's being clear again.
  function Stage(s: State): nat {
    if s.rt.Flagged? then 8
    else if s.pending then 7
    else if s.loop.Mapping? then 6
    else if s.loop.Mapped? then 5
    else if s.ring != [] then 4
    else if s.rt.Took? then 3
    else if s.rt.Listed? then 2
    else if s.rt.Counted? then 1
    else 0
  }

  // The handshake never comes to a halt.
  lemma NeverStuck(s: State)
    requires Inv(s)
    ensures exists a :: Enabled(s, a)
  {
    if s.flag == 0 {
      assert Enabled(s, Request);
    } else {
      var a := match Stage(s)
        case 8 => Send
        case 7 => Fire
        case 6 => Map(Chunk(0, 0, 0))
        case 5 => Hand
        case 4 => Take
        case 3 => Enlist
        case 2 => Count
        case _ => Clear;
      assert Enabled(s, a);
    }
  }

  lemma Closer(s: State, a: Step)
    requires Inv(s) && s.flag == 1 && Enabled(s, a)
    ensures Stage(s) == Stage(Next(s, a)) + 1
    ensures Next(s, a).chunks == if Stage(s) == 3 then [Added(s.rt.chunk)] + s.chunks else s.chunks
    ensures Next(s, a).flag == One(Stage(s) > 1)
  {
  }

  // Whatever steps the two threads take, the flag is clear again after Stage(s)
  // of them, and one more chunk is listed, with a pool if and only if it was accepted.
  lemma {:induction false} Served(s: State, steps: seq<Step>)
    requires Inv(s) && Run(s, steps) && |steps| == Stage(s)
    ensures var s' := After(s, steps);
            && s'.flag == 0
            && if Stage(s) < 3 then s'.chunks == s.chunks
               else
                 && |s'.chunks| == |s.chunks| + 1 && s'.chunks[1..] == s.chunks
                 && (s'.chunks[0].pool != 0 <==> Accepted(s'.chunks[0]))
    decreases |steps|
  {
    if steps != [] {
      StepKeeps(s, steps[0]);
      Closer(s, steps[0]);
      Served(Next(s, steps[0]), steps[1..]);
    }
  }
}
