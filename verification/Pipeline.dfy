/** The server's threads as one state machine: every step is what a thread does
    while it holds a lock, or between two locks. */
module Pipeline {
  import opened Bytes
  import opened Framing

  type ClientId = int

  /** Where the framer thread is in its loop body, with its local variables. */
  datatype Framer =
    | Idle
    | Snapped(id: ClientId, snap: bytes)                                     // the buffer is copied
    | Parsed(id: ClientId, snap: bytes, len: nat, packets: seq<bytes>)       // packets found, not yet erased
    | Erased(id: ClientId, packets: seq<bytes>)                              // erased, not yet handed over

  type Tagged = seq<(ClientId, bytes)>

  datatype State = State(
    counter: ClientId,               // m_clientIdCounter
    buffers: map<ClientId, bytes>,   // m_read_buffer of every client in m_clients
    framer: Framer,
    queue: Tagged,                   // m_unprocessed_packets
    processed: Tagged,               // history: the calls of ProcessPacket, in order
    received: map<ClientId, bytes>   // history: what recv delivered for each client
  )

  const INIT: State := State(0, map[], Idle, [], [], map[])

  /** How `Server::Listen` was told to run. */
  datatype Mode = SingleThread | TwoThreads | ManyThreads

  /** Where `ClientsRecv` puts new bytes. `Front` is what it does. */
  datatype Insertion = Front | Back

  datatype AcceptOutcome = WouldBlock | SocketError | FcntlError | Connected

  datatype Event =
    | Accept(outcome: AcceptOutcome)
    | Recv(id: ClientId, chunk: bytes)
    | Snapshot(id: ClientId)
    | Parse
    | Erase
    | HandOver
    | Work
    | Drain(id: ClientId)   // the single thread's parse, erase and process for one client

  // ----- the steps -----

  predicate Enabled(s: State, e: Event, mode: Mode) {
    match e
    case Accept(_) => true
    case Recv(id, _) => id in s.buffers
    case Snapshot(id) => mode != SingleThread && s.framer.Idle? && id in s.buffers
    case Parse => s.framer.Snapped? && CanParse(s.framer.snap)
    case Erase => s.framer.Parsed? && s.framer.id in s.buffers
    case HandOver => s.framer.Erased?
    case Work => mode == ManyThreads && s.queue != []
    case Drain(id) => mode == SingleThread && id in s.buffers && CanParse(s.buffers[id])
  }

  /** `erase(begin, size > len ? begin + len : end)`. */
  function EraseFront(b: bytes, len: nat): bytes { if |b| > len then b[len..] else [] }

  function Tag(id: ClientId, ps: seq<bytes>): Tagged { seq(|ps|, i requires 0 <= i < |ps| => (id, ps[i])) }

  function AcceptNext(s: State, outcome: AcceptOutcome): State {
    match outcome
    case WouldBlock => s
    case SocketError => s.(counter := s.counter + 1)
    case FcntlError => s.(counter := s.counter + 1)
    case Connected =>
      s.(counter := s.counter + 1, buffers := s.buffers[s.counter := []], received := s.received[s.counter := []])
  }

  function Insert(buf: bytes, chunk: bytes, at: Insertion): bytes {
    if at == Front then chunk + buf else buf + chunk
  }

  function RecvNext(s: State, id: ClientId, chunk: bytes, at: Insertion): State
    requires id in s.buffers
  {
    s.(buffers := s.buffers[id := Insert(s.buffers[id], chunk, at)],
       received := s.received[id := (if id in s.received then s.received[id] else []) + chunk])
  }

  function DrainNext(s: State, id: ClientId): State
    requires id in s.buffers
  {
    var u := Unframe(s.buffers[id]);
    if u.len <= 0 then s
    else
      s.(buffers := s.buffers[id := EraseFront(s.buffers[id], u.len)],
         processed := s.processed + Tag(id, u.packets))
  }

  function Next(s: State, e: Event, mode: Mode, at: Insertion): State
    requires Enabled(s, e, mode)
  {
    match e
    case Accept(outcome) => AcceptNext(s, outcome)
    case Recv(id, chunk) => RecvNext(s, id, chunk, at)
    case Snapshot(id) => s.(framer := Snapped(id, s.buffers[id]))
    case Parse =>
      var u := Unframe(s.framer.snap);
      if u.len <= 0 then s.(framer := Idle)
      else s.(framer := Parsed(s.framer.id, s.framer.snap, u.len, u.packets))
    case Erase =>
      s.(buffers := s.buffers[s.framer.id := EraseFront(s.buffers[s.framer.id], s.framer.len)],
         framer := Erased(s.framer.id, s.framer.packets))
    case HandOver =>
      var tagged := Tag(s.framer.id, s.framer.packets);
      if mode == ManyThreads then s.(framer := Idle, queue := s.queue + tagged)
      else s.(framer := Idle, processed := s.processed + tagged)
    case Work => s.(queue := s.queue[1..], processed := s.processed + [s.queue[0]])
    case Drain(id) => DrainNext(s, id)
  }

  // ----- what every step keeps -----

  /** The packets of one client, in order. */
  function Of(t: Tagged, id: ClientId): seq<bytes> {
    if t == [] then []
    else (if t[0].0 == id then [t[0].1] else []) + Of(t[1..], id)
  }

  /** Packets that are out of the buffer and not yet handed over. */
  function Held(f: Framer, id: ClientId): seq<bytes> {
    if f.Erased? && f.id == id then f.packets else []
  }

  /** The client's packets that have left its buffer: processed, queued, held. */
  function Taken(s: State, id: ClientId): seq<bytes> {
    Of(s.processed, id) + Of(s.queue, id) + Held(s.framer, id)
  }

  /** The local variables of the framer agree with the live buffer. */
  predicate FramerOk(s: State) {
    match s.framer
    case Idle => true
    case Snapped(id, snap) => id in s.buffers && snap <= s.buffers[id]
    case Parsed(id, snap, len, packets) =>
      id in s.buffers && snap <= s.buffers[id] && HeadersInRange(snap) && Unframe(snap) == Unframed(packets, len)
    case Erased(id, packets) => id in s.buffers && AllFrameable(packets)
  }

  /** No byte of a client is lost, doubled or moved: what arrived is the frames
      of the packets taken so far, followed by the buffer. */
  predicate ClientOk(s: State, id: ClientId)
    requires id in s.buffers && id in s.received
  {
    s.received[id] == Framed(Taken(s, id)) + s.buffers[id] && AllFrameable(Taken(s, id))
  }

  ghost predicate Inv(s: State) {
    && s.counter >= 0 && s.received.Keys == s.buffers.Keys
    && (forall id :: id in s.buffers ==> 0 <= id < s.counter && ClientOk(s, id))
    && FramerOk(s)
    && (forall id :: id !in s.buffers ==> Of(s.processed, id) == [] && Of(s.queue, id) == [])
  }

  lemma {:induction false} OfAppend(a: Tagged, b: Tagged, id: ClientId)
    ensures Of(a + b, id) == Of(a, id) + Of(b, id)
  {
    if a == [] {
      assert a + b == b;
    } else {
      OfAppend(a[1..], b, id);
      assert (a + b)[1..] == a[1..] + b;
      var head := if a[0].0 == id then [a[0].1] else [];
      assert head + (Of(a[1..], id) + Of(b, id)) == (head + Of(a[1..], id)) + Of(b, id);
    }
  }

  lemma {:induction false} OfTag(c: ClientId, ps: seq<bytes>, id: ClientId)
    ensures Of(Tag(c, ps), id) == if c == id then ps else []
  {
    if ps != [] {
      OfTag(c, ps[1..], id);
      assert Tag(c, ps)[1..] == Tag(c, ps[1..]);
    }
  }

  /** Erasing what was parsed from a prefix of the live buffer takes off
      exactly the frames of the packets found. */
  lemma EraseIsExact(snap: bytes, live: bytes)
    requires snap <= live && HeadersInRange(snap)
    ensures var u := Unframe(snap);
      live == Framed(u.packets) + EraseFront(live, u.len) && AllFrameable(u.packets)
  {
    var u := Unframe(snap);
    ConsumesItsFrames(snap);
    assert snap[..u.len] == live[..u.len];
    assert live == live[..u.len] + live[u.len..];
    if |live| <= u.len { assert live[u.len..] == []; }
  }

  /** Moving frames from the buffer to the packets taken. */
  lemma TakesFrames(received: bytes, taken: seq<bytes>, more: seq<bytes>, buf: bytes, rest: bytes)
    requires received == Framed(taken) + buf && buf == Framed(more) + rest
    ensures received == Framed(taken + more) + rest
  {
    FramedAppend(taken, more);
    Associates(Framed(taken), Framed(more), rest);
  }

  /** Bytes inserted by `Front` land where `Back` puts them. */
  predicate KeepsOrder(s: State, e: Event, at: Insertion) {
    e.Recv? && e.id in s.buffers && at == Front ==>
      e.chunk + s.buffers[e.id] == s.buffers[e.id] + e.chunk
  }

  lemma AcceptKeeps(s: State, outcome: AcceptOutcome)
    requires Inv(s)
    ensures Inv(AcceptNext(s, outcome))
  {
    hide Of, Unframe, HeadersInRange, Frameable;
    var n := AcceptNext(s, outcome);
    assert s.counter !in s.buffers;
    forall c | c in n.buffers ensures ClientOk(n, c) {
      assert Taken(n, c) == Taken(s, c);
      if c == s.counter { assert Taken(n, c) == []; }
    }
  }

  lemma RecvKeeps(s: State, id: ClientId, chunk: bytes, at: Insertion)
    requires Inv(s) && id in s.buffers && (at == Front ==> chunk + s.buffers[id] == s.buffers[id] + chunk)
    ensures Inv(RecvNext(s, id, chunk, at))
  {
    hide Of, Unframe, HeadersInRange, Frameable, Framed;
    var n := RecvNext(s, id, chunk, at);
    assert n.buffers[id] == s.buffers[id] + chunk;
    forall c | c in n.buffers ensures ClientOk(n, c) {
      assert Taken(n, c) == Taken(s, c);
      if c == id { Associates(Framed(Taken(s, id)), s.buffers[id], chunk); }
    }
  }

  lemma ParseKeeps(s: State, mode: Mode, at: Insertion)
    requires Inv(s) && Enabled(s, Parse, mode)
    ensures Inv(Next(s, Parse, mode, at))
  {
    hide Of, Unframe, HeadersInRange, Frameable, Framed;
    var n := Next(s, Parse, mode, at);
    assert forall id :: id in s.buffers ==> Taken(n, id) == Taken(s, id);
  }

  lemma EraseKeeps(s: State, mode: Mode, at: Insertion)
    requires Inv(s) && Enabled(s, Erase, mode)
    ensures Inv(Next(s, Erase, mode, at))
  {
    hide Of, Unframe, HeadersInRange, Frameable, Framed, EraseFront;
    var n := Next(s, Erase, mode, at);
    var id, packets := s.framer.id, s.framer.packets;
    EraseIsExact(s.framer.snap, s.buffers[id]);
    forall c | c in n.buffers ensures ClientOk(n, c) {
      if c == id {
        TakesFrames(s.received[id], Taken(s, id), packets, s.buffers[id], n.buffers[id]);
        assert Taken(n, id) == Taken(s, id) + packets;
      } else {
        assert Taken(n, c) == Taken(s, c);
      }
    }
  }

  /** Handing over moves packets of one client from the framer's hands to the
      end of a list; nothing else changes. */
  lemma HandOverKeeps(s: State, mode: Mode, at: Insertion)
    requires Inv(s) && Enabled(s, HandOver, mode)
    requires mode != ManyThreads ==> s.queue == []
    ensures Inv(Next(s, HandOver, mode, at))
  {
    hide Of, Unframe, HeadersInRange, Frameable, Framed;
    var n := Next(s, HandOver, mode, at);
    var id, tagged := s.framer.id, Tag(s.framer.id, s.framer.packets);
    forall c: ClientId ensures Taken(n, c) == Taken(s, c) {
      OfTag(id, s.framer.packets, c);
      OfAppend(s.queue, tagged, c);
      OfAppend(s.processed, tagged, c);
      OfNothing(c);
    }
    forall c | c !in n.buffers ensures Of(n.processed, c) == [] && Of(n.queue, c) == [] {
      OfTag(id, s.framer.packets, c);
      OfAppend(s.queue, tagged, c);
      OfAppend(s.processed, tagged, c);
    }
    assert forall c :: c in n.buffers ==> ClientOk(s, c) && ClientOk(n, c);
  }

  lemma OfNothing(c: ClientId)
    ensures Of([], c) == []
  {
  }

  lemma WorkMoves(s: State, mode: Mode, at: Insertion, c: ClientId)
    requires Enabled(s, Work, mode)
    ensures var n := Next(s, Work, mode, at);
      Of(n.processed, c) + Of(n.queue, c) == Of(s.processed, c) + Of(s.queue, c)
  {
    var first := [s.queue[0]];
    assert s.queue == first + s.queue[1..];
    OfAppend(s.processed, first, c);
    OfAppend(first, s.queue[1..], c);
  }

  /** A worker moves the first queued packet to the end of the processed ones. */
  lemma WorkKeeps(s: State, mode: Mode, at: Insertion)
    requires Inv(s) && Enabled(s, Work, mode)
    ensures Inv(Next(s, Work, mode, at))
  {
    hide Of, Unframe, HeadersInRange, Frameable, Framed;
    var n := Next(s, Work, mode, at);
    forall c: ClientId
      ensures Of(n.processed, c) + Of(n.queue, c) == Of(s.processed, c) + Of(s.queue, c)
      ensures Taken(n, c) == Taken(s, c)
    {
      WorkMoves(s, mode, at, c);
    }
    assert forall c :: c in n.buffers ==> ClientOk(s, c) && ClientOk(n, c);
  }

  lemma DrainKeeps(s: State, id: ClientId)
    requires Inv(s) && id in s.buffers && HeadersInRange(s.buffers[id])
    requires s.queue == [] && s.framer.Idle?
    ensures Inv(DrainNext(s, id))
  {
    hide Of, Unframe, HeadersInRange, Frameable, Framed, EraseFront;
    var n := DrainNext(s, id);
    var u := Unframe(s.buffers[id]);
    EraseIsExact(s.buffers[id], s.buffers[id]);
    if u.len > 0 {
      forall c: ClientId
        ensures Taken(n, c) == Taken(s, c) + if c == id then u.packets else []
        ensures Of(n.processed, c) == Of(s.processed, c) + if c == id then u.packets else []
      {
        OfTag(id, u.packets, c);
        OfAppend(s.processed, Tag(id, u.packets), c);
        OfNothing(c);
      }
      forall c | c in n.buffers ensures ClientOk(n, c) {
        if c == id {
          TakesFrames(s.received[id], Taken(s, id), u.packets, s.buffers[id], n.buffers[id]);
        } else {
          assert Taken(s, c) + [] == Taken(s, c);
        }
      }
    }
  }

  /** Without workers nothing is queued; with a single thread there is no framer. */
  predicate ModeOk(s: State, mode: Mode) {
    && (mode != ManyThreads ==> s.queue == [])
    && (mode == SingleThread ==> s.framer.Idle?)
  }

  lemma StepKeeps(s: State, e: Event, mode: Mode, at: Insertion)
    requires Inv(s) && ModeOk(s, mode) && Enabled(s, e, mode) && KeepsOrder(s, e, at)
    ensures Inv(Next(s, e, mode, at)) && ModeOk(Next(s, e, mode, at), mode)
  {
    hide Of, Unframe, HeadersInRange, Frameable, Framed;
    match e
    case Accept(outcome) => AcceptKeeps(s, outcome);
    case Recv(id, chunk) => RecvKeeps(s, id, chunk, at);
    case Snapshot(id) =>
      var n := Next(s, e, mode, at);
      assert forall c :: c in s.buffers ==> Taken(n, c) == Taken(s, c) && ClientOk(s, c);
    case Parse => ParseKeeps(s, mode, at);
    case Erase => EraseKeeps(s, mode, at);
    case HandOver => HandOverKeeps(s, mode, at);
    case Work => WorkKeeps(s, mode, at);
    case Drain(id) => DrainKeeps(s, id);
  }
}
