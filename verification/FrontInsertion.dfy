/** What the code does to a buffer: `ClientsRecv` inserts new bytes at the front.
    When that is harmless, and what happens when it is not. */
module FrontInsertion {
  import opened Bytes
  import opened Wrappers
  import opened Framing
  import opened Pipeline
  import opened PipelineRuns

  // ----- when the bytes stay in order -----

  /** From a good state, inserting at the front keeps the stream intact exactly
      when the chunk and the buffer commute. */
  lemma FrontKeepsOrderIff(s: State, id: ClientId, chunk: bytes)
    requires Inv(s) && id in s.buffers
    ensures Inv(RecvNext(s, id, chunk, Front)) <==> chunk + s.buffers[id] == s.buffers[id] + chunk
  {
    var n, buf := RecvNext(s, id, chunk, Front), s.buffers[id];
    if chunk + buf == buf + chunk {
      RecvKeeps(s, id, chunk, Front);
    }
    if Inv(n) {
      assert ClientOk(s, id) && ClientOk(n, id) && Taken(n, id) == Taken(s, id);
      var front := Framed(Taken(s, id));
      assert front + (chunk + buf) == front + (buf + chunk) by { Associates(front, buf, chunk); }
      assert (front + (chunk + buf))[|front|..] == chunk + buf;
      assert (front + (buf + chunk))[|front|..] == buf + chunk;
    }
  }

  /** Every state of the run keeps the byte account. */
  ghost predicate AlwaysInv(s: State, es: seq<Event>, mode: Mode, at: Insertion)
    requires CanRun(s, es, mode, at)
    decreases |es|
  {
    Inv(s) && (es == [] || AlwaysInv(Next(s, es[0], mode, at), es[1..], mode, at))
  }

  /** The server as it is keeps the account throughout a run exactly when, at
      every receive of the run, chunk and buffer commute. */
  lemma {:induction false} RunKeepsIff(s: State, es: seq<Event>, mode: Mode, at: Insertion)
    requires Inv(s) && ModeOk(s, mode) && CanRun(s, es, mode, at)
    ensures AlwaysInv(s, es, mode, at) <==> InOrder(s, es, mode, at)
    decreases |es|
  {
    hide Inv, Enabled;
    if es != [] {
      var e := es[0];
      if KeepsOrder(s, e, at) {
        StepKeeps(s, e, mode, at);
        RunKeepsIff(Next(s, e, mode, at), es[1..], mode, at);
      } else {
        FrontKeepsOrderIff(s, e.id, e.chunk);
      }
    }
  }

  function Power(w: bytes, n: nat): bytes { if n == 0 then [] else w + Power(w, n - 1) }

  lemma {:induction false} PowerSum(w: bytes, m: nat, n: nat)
    ensures Power(w, m) + Power(w, n) == Power(w, m + n)
  {
    if m == 0 {
      assert [] + Power(w, n) == Power(w, n);
    } else {
      PowerSum(w, m - 1, n);
      Associates(w, Power(w, m - 1), Power(w, n));
    }
  }

  /** Two byte strings commute exactly when both repeat one block. */
  lemma {:induction false} CommutesIff(x: bytes, y: bytes)
    ensures x + y == y + x <==> exists w, m, n :: x == Power(w, m) && y == Power(w, n)
  {
    if x + y == y + x {
      var w, m, n := CommonBlock(x, y);
    }
    if exists w, m, n :: x == Power(w, m) && y == Power(w, n) {
      var w, m, n :| x == Power(w, m) && y == Power(w, n);
      PowerSum(w, m, n);
      PowerSum(w, n, m);
    }
  }

  lemma {:induction false} CommonBlock(x: bytes, y: bytes) returns (w: bytes, m: nat, n: nat)
    requires x + y == y + x
    ensures x == Power(w, m) && y == Power(w, n)
    decreases |x| + |y|
  {
    if x == [] {
      w, m, n := y, 0, 1;
      assert y + [] == y;
      assert Power(y, 1) == y + Power(y, 0);
    } else if y == [] {
      w, m, n := x, 1, 0;
      assert x + [] == x;
      assert Power(x, 1) == x + Power(x, 0);
    } else if |x| <= |y| {
      var z := Cancels(x, y);
      w, m, n := CommonBlock(x, z);
      PowerSum(w, m, n);
      n := m + n;
    } else {
      var z := Cancels(y, x);
      w, n, m := CommonBlock(y, z);
      PowerSum(w, n, m);
      m := n + m;
    }
  }

  lemma Cancels(x: bytes, y: bytes) returns (z: bytes)
    requires x + y == y + x && |x| <= |y|
    ensures y == x + z && x + z == z + x
  {
    z := y[|x|..];
    assert y[..|x|] == (y + x)[..|x|] == (x + y)[..|x|] == x;
    assert y == x + z;
    assert (x + y)[|x|..] == y;
    assert (y + x)[|x|..] == z + x;
  }

  /** Whatever arrives, order is kept exactly when the buffer was empty. */
  lemma FrontIsSafeWhenEmpty(buf: bytes)
    ensures (forall chunk: bytes :: Insert(buf, chunk, Front) == Insert(buf, chunk, Back)) <==> buf == []
  {
    if buf == [] {
      forall chunk: bytes ensures chunk + buf == buf + chunk {
        assert chunk + [] == chunk == [] + chunk;
      }
    } else {
      var chunk: bytes := [if buf[0] == 0 then 1 else 0];
      assert Insert(buf, chunk, Front)[0] != Insert(buf, chunk, Back)[0];
    }
  }

  /** A client connects and sends two chunks, and the framer copies its buffer. */
  function Sends(a: bytes, b: bytes): seq<Event> { [Accept(Connected), Recv(0, a), Recv(0, b), Snapshot(0)] }

  lemma RunSends(a: bytes, b: bytes, mode: Mode, at: Insertion)
    requires mode != SingleThread
    ensures CanRun(INIT, Sends(a, b), mode, at)
    ensures var buf := Insert(a, b, at);
      Run(INIT, Sends(a, b), mode, at) == State(1, map[0 := buf], Snapped(0, buf), [], [], map[0 := a + b])
  {
    hide Unframe, FirstFrame, HeadersInRange, CanParse, CanRun, Run;
    var es, buf := Sends(a, b), Insert(a, b, at);
    var s1 := State(1, map[0 := []], Idle, [], [], map[0 := []]);
    var s2 := State(1, map[0 := a], Idle, [], [], map[0 := a]);
    var s3 := State(1, map[0 := buf], Idle, [], [], map[0 := a + b]);
    var s4 := s3.(framer := Snapped(0, buf));
    assert s1 == Next(INIT, es[0], mode, at);
    assert s2 == Next(s1, es[1], mode, at) by {
      assert Insert([], a, at) == a && [] + a == a;
    }
    assert s3 == Next(s2, es[2], mode, at);
    RunIsSteps(es, [INIT, s1, s2, s3, s4], mode, at);
  }

  /** One frame that arrives in two chunks, and the framer's look at it. */
  const FIRST_HALF: bytes := [1, 0]
  const SECOND_HALF: bytes := [0, 0, 7]
  const SPLIT: seq<Event> := Sends(FIRST_HALF, SECOND_HALF) + [Parse]

  lemma WholeFrame(b: bytes)
    requires b == [1, 0, 0, 0, 7]
    ensures Unframe(b) == Unframed([[7]], 5) && CanParse(b)
  {
    assert Le32(b) == 1 && b[4..5] == [7];
    assert FirstFrame(b) == Some([7]) && b[5..] == [];
  }

  lemma MisreadFrame(b: bytes)
    requires b == [0, 0, 7, 1, 0]
    ensures Unframe(b) == Unframed([], 0) && CanParse(b)
  {
    assert Le32(b) == 0x0107_0000;
  }

  lemma RunSplit(at: Insertion)
    ensures CanRun(INIT, SPLIT, ManyThreads, at)
    ensures Run(INIT, SPLIT, ManyThreads, at)
      == State(1, map[0 := Insert(FIRST_HALF, SECOND_HALF, at)],
               if at == Back then Parsed(0, FIRST_HALF + SECOND_HALF, 5, [[7]]) else Idle,
               [], [], map[0 := FIRST_HALF + SECOND_HALF])
  {
    hide Unframe, FirstFrame, HeadersInRange, CanParse, CanRun, Run;
    var buf := Insert(FIRST_HALF, SECOND_HALF, at);
    RunSends(FIRST_HALF, SECOND_HALF, ManyThreads, at);
    if at == Back {
      assert buf == [1, 0, 0, 0, 7];
      WholeFrame(buf);
    } else {
      assert buf == [0, 0, 7, 1, 0];
      MisreadFrame(buf);
    }
    OneMoreStep(INIT, Sends(FIRST_HALF, SECOND_HALF), Parse, ManyThreads, at);
  }

  /** A run, state by state. */
  lemma {:induction false} RunIsSteps(es: seq<Event>, states: seq<State>, mode: Mode, at: Insertion)
    requires |states| == |es| + 1
    requires forall i :: 0 <= i < |es| ==>
      Enabled(states[i], es[i], mode) && states[i + 1] == Next(states[i], es[i], mode, at)
    ensures CanRun(states[0], es, mode, at) && Run(states[0], es, mode, at) == states[|es|]
    decreases |es|
  {
    hide Enabled, Next;
    if es != [] { RunIsSteps(es[1..], states[1..], mode, at); }
  }

  /** The code as it stands loses that packet: all its bytes have arrived, and
      the framer finds nothing. With insertion at the back it is found. */
  lemma FrontLosesSplitFrame()
    ensures CanRun(INIT, SPLIT, ManyThreads, Front) && CanRun(INIT, SPLIT, ManyThreads, Back)
    ensures Unframe(FIRST_HALF + SECOND_HALF).packets == [[7]]
    ensures Run(INIT, SPLIT, ManyThreads, Front).framer == Idle
    ensures var f := Run(INIT, SPLIT, ManyThreads, Back).framer; f.Parsed? && f.packets == [[7]]
    ensures !Inv(Run(INIT, SPLIT, ManyThreads, Front))
  {
    RunSplit(Front);
    RunSplit(Back);
    var b := FIRST_HALF + SECOND_HALF;
    assert b == [1, 0, 0, 0, 7];
    WholeFrame(b);
    var s := Run(INIT, SPLIT, ManyThreads, Front);
    assert s.buffers[0] != s.received[0] by {
      assert s.buffers[0][0] == 0 && s.received[0][0] == 1;
    }
    NothingTaken(s);
  }

  lemma NothingTaken(s: State)
    requires s.processed == [] && s.queue == [] && s.framer.Idle?
    requires 0 in s.buffers && 0 in s.received && s.buffers[0] != s.received[0]
    ensures !Inv(s)
  {
    assert Taken(s, 0) == [];
    assert Framed(Taken(s, 0)) + s.buffers[0] == s.buffers[0];
    assert !ClientOk(s, 0);
  }

  // ----- leaving the range of the parser -----

  /** Payloads of a client that keeps to a limit of its own. */
  predicate AllWithin(ps: seq<bytes>, limit: nat) { forall i :: 0 <= i < |ps| ==> 0 < |ps[i]| <= limit }

  function Zeros(n: nat): bytes { seq(n, _ => 0) }

  /** The chunk ends in bytes that are read as a header when they come first. */
  const FULL: bytes := [252, 255, 255, 255]

  /** A frame of one byte and then such a header. */
  const SMALL_THEN_FULL: bytes := [1, 0, 0, 0, 0, 255, 255, 255, 255]

  lemma FullIsOutOfRange(buf: bytes)
    ensures !HeadersInRange(FULL + buf)
  {
    assert Le32(FULL + buf) == 0xffff_fffc;
  }

  lemma SmallThenFullIsOutOfRange(buf: bytes)
    ensures !HeadersInRange(SMALL_THEN_FULL + buf)
  {
    var b := SMALL_THEN_FULL + buf;
    assert Le32(b) == 1;
    assert FirstFrame(b) == Some(b[4..5]);
    var rest := b[5..];
    assert rest[0] == 255 && rest[1] == 255 && rest[2] == 255 && rest[3] == 255;
    assert Le32(rest) == 0xffff_ffff;
  }

  lemma TwoFrames(p: bytes, q: bytes)
    ensures Framed([p]) == Frame(p) && Framed([p, q]) == Frame(p) + Frame(q)
  {
    hide Frame;
    assert [p][1..] == [] && [p, q][1..] == [q] && [q][1..] == [];
    assert Framed([q]) == Frame(q) + [] == Frame(q);
    assert Framed([p]) == Frame(p) + [] == Frame(p);
  }

  /** Less than a header is waiting: the client sends a large payload. */
  lemma CompletesHeader(buf: bytes, limit: nat) returns (ps: seq<bytes>, later: bytes)
    requires 0 < |buf| < 4 && limit >= 0x200_0000
    ensures AllWithin(ps, limit) && buf + SMALL_THEN_FULL + later == Framed(ps)
  {
    var k := |buf|;
    var all := buf + SMALL_THEN_FULL;
    var h := all[..4];
    var n := Le32(h);
    HeaderIs(buf, h);
    HeaderWrites(h);
    assert h[..4] == h;
    later := Zeros(n - (5 + k));
    var p := all[4..] + later;
    assert |p| == n;
    ps := [p];
    TwoFrames(p, []);
    assert buf + SMALL_THEN_FULL + later == h + p;
  }

  lemma HeaderIs(buf: bytes, h: bytes)
    requires 0 < |buf| < 4 && h == (buf + SMALL_THEN_FULL)[..4]
    ensures 256 <= Le32(h) <= 0x200_0000
  {
    assert h[|buf|] == 1;
    assert forall i :: |buf| < i < 4 ==> h[i] == 0;
  }

  /** A header and less than its payload is waiting: the client goes on with that
      payload, and with another one if it needs fewer than four bytes. */
  lemma CompletesPayload(buf: bytes, limit: nat) returns (ps: seq<bytes>, later: bytes)
    requires |buf| >= 4 && |buf| < Le32(buf) + 4 && Le32(buf) <= limit && limit >= 0x200_0000
    ensures AllWithin(ps, limit) && buf + FULL + later == Framed(ps)
  {
    hide Le32, HeadersInRange, FirstFrame, Framed;
    var n := Le32(buf);
    var r := n + 4 - |buf|;
    HeaderWrites(buf);
    if r >= 4 {
      later := Zeros(r - 4);
      var p := buf[4..] + FULL + later;
      ps := [p];
      TwoFrames(p, []);
      assert buf + FULL + later == buf[..4] + p;
    } else {
      var p := buf[4..] + FULL[..r];
      var h := FULL[r..] + Zeros(r);
      var m := Le32(h);
      ShortHeader(r);
      HeaderWrites(h);
      assert h[..4] == h;
      var q := Zeros(m);
      later := Zeros(r) + q;
      ps := [p, q];
      TwoFrames(p, q);
      assert buf + FULL + later == (buf[..4] + p) + (h + q);
    }
  }

  lemma ShortHeader(r: nat)
    requires 0 < r < 4
    ensures 0 < Le32(FULL[r..] + Zeros(r)) <= 0xff_ffff
  {
    var h := FULL[r..] + Zeros(r);
    assert h[0] == 255 && h[3] == 0;
  }

  /** What has arrived of a stream of frames and holds no complete one is less
      than the first frame. */
  lemma WaitsForFirst(buf: bytes, ps: seq<bytes>, later: bytes, limit: nat)
    requires AllWithin(ps, limit) && limit + 4 < UINT_LIMIT
    requires buf + later == Framed(ps) && |buf| >= 4 && FirstFrame(buf).None?
    ensures |buf| < Le32(buf) + 4 && Le32(buf) <= limit
  {
    var p := ps[0];
    assert buf + later == Frame(p) + Framed(ps[1..]);
    FirstFrameOf(p, Framed(ps[1..]));
    FirstFramePrefix(buf, later);
    FirstFrameLength(buf + later);
  }

  /** Every continuation of the client's stream can be parsed where it is put. */
  ghost predicate StaysInRange(buf: bytes, limit: nat) {
    forall chunk: bytes, ps, later: bytes :: AllWithin(ps, limit) && buf + chunk + later == Framed(ps) ==>
      HeadersInRange(chunk + buf)
  }

  lemma Refutes(buf: bytes, limit: nat, chunk: bytes, ps: seq<bytes>, later: bytes)
    requires AllWithin(ps, limit) && buf + chunk + later == Framed(ps) && !HeadersInRange(chunk + buf)
    ensures !StaysInRange(buf, limit)
  {
    hide AllWithin, HeadersInRange, Framed;
  }

  /** A client frames payloads within a limit, and its buffer holds no complete
      frame. Inserting at the front is sure to leave the parser a buffer in
      range if and only if nothing was waiting there. */
  lemma FrontStaysInRangeIff(buf: bytes, limit: nat, ps: seq<bytes>, later: bytes)
    requires 0x200_0000 <= limit && limit + 4 < UINT_LIMIT
    requires AllWithin(ps, limit) && buf + later == Framed(ps) && FirstFrame(buf).None?
    ensures StaysInRange(buf, limit) <==> buf == []
  {
    hide HeadersInRange, Framed, FirstFrame, Le32;
    if buf == [] {
      forall chunk: bytes, qs, rest: bytes | AllWithin(qs, limit) && buf + chunk + rest == Framed(qs)
        ensures HeadersInRange(chunk + buf)
      {
        assert buf + chunk == chunk == chunk + buf;
        FramedInRange(qs);
        RangePrefix(chunk, rest);
      }
    } else if |buf| < 4 {
      var qs, rest := CompletesHeader(buf, limit);
      SmallThenFullIsOutOfRange(buf);
      Refutes(buf, limit, SMALL_THEN_FULL, qs, rest);
    } else {
      WaitsForFirst(buf, ps, later, limit);
      var qs, rest := CompletesPayload(buf, limit);
      FullIsOutOfRange(buf);
      Refutes(buf, limit, FULL, qs, rest);
    }
  }

  /** The frame of four bytes 255, header first. */
  const HEADER_PART: bytes := [4, 0, 0, 0]
  const PAYLOAD_PART: bytes := [255, 255, 255, 255]

  lemma HonestFrame()
    ensures Framed([PAYLOAD_PART]) == HEADER_PART + PAYLOAD_PART && AllFrameable([PAYLOAD_PART])
  {
    TwoFrames(PAYLOAD_PART, []);
  }

  /** The code as it stands makes the framer read behind its buffer, though the
      client sent one whole frame: the payload is taken for a header. With
      insertion at the back that buffer can be parsed. */
  lemma FrontReadsOutside(mode: Mode)
    requires mode != SingleThread
    ensures Framed([PAYLOAD_PART]) == HEADER_PART + PAYLOAD_PART && AllFrameable([PAYLOAD_PART])
    ensures CanRun(INIT, Sends(HEADER_PART, PAYLOAD_PART), mode, Front)
    ensures CanRun(INIT, Sends(HEADER_PART, PAYLOAD_PART), mode, Back)
    ensures var s := Run(INIT, Sends(HEADER_PART, PAYLOAD_PART), mode, Front);
      && s.received == map[0 := HEADER_PART + PAYLOAD_PART] && s.framer.Snapped? && !Enabled(s, Parse, mode)
      && TakesFrame(s.framer.snap) && 4 + Le32(s.framer.snap) > |s.framer.snap|
    ensures Enabled(Run(INIT, Sends(HEADER_PART, PAYLOAD_PART), mode, Back), Parse, mode)
  {
    RunSends(HEADER_PART, PAYLOAD_PART, mode, Front);
    RunSends(HEADER_PART, PAYLOAD_PART, mode, Back);
    HonestFrame();
    PayloadIsMisread();
    hide *;
  }

  lemma PayloadIsMisread()
    ensures var b := Insert(HEADER_PART, PAYLOAD_PART, Front);
      TakesFrame(b) && 4 + Le32(b) > |b| && !CanParse(b)
    ensures CanParse(Insert(HEADER_PART, PAYLOAD_PART, Back))
  {
    assert Le32(PAYLOAD_PART + HEADER_PART) == 0xffff_ffff;
    HonestFrame();
    FramedInRange([PAYLOAD_PART]);
  }
}
