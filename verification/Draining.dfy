/** The server can always catch up: from any state whose buffers can be parsed,
    its threads reach one in which every packet received has been processed. */
module Draining {
  import opened Bytes
  import opened Framing
  import opened Pipeline
  import opened PipelineRuns

  /** Nothing connects and nothing arrives. */
  predicate NoInput(es: seq<Event>) { forall i :: 0 <= i < |es| ==> !es[i].Accept? && !es[i].Recv? }

  /** `t` is reached from `s` by the server's own work. */
  ghost predicate WorksTo(s: State, t: State, mode: Mode, at: Insertion) {
    exists es :: NoInput(es) && CanRun(s, es, mode, at) && Run(s, es, mode, at) == t
  }

  lemma WorksToSelf(s: State, mode: Mode, at: Insertion)
    ensures WorksTo(s, s, mode, at)
  {
    assert NoInput([]) && CanRun(s, [], mode, at) && Run(s, [], mode, at) == s;
  }

  /** One event and then more work. */
  lemma WorksOn(s: State, e: Event, t: State, mode: Mode, at: Insertion)
    requires !e.Accept? && !e.Recv? && Enabled(s, e, mode) && WorksTo(Next(s, e, mode, at), t, mode, at)
    ensures WorksTo(s, t, mode, at)
  {
    hide Enabled, Next;
    var n := Next(s, e, mode, at);
    var es :| NoInput(es) && CanRun(n, es, mode, at) && Run(n, es, mode, at) == t;
    StepThenRun(s, e, es, mode, at);
    assert NoInput([e] + es);
  }

  lemma WorksThrough(s: State, t: State, u: State, mode: Mode, at: Insertion)
    requires WorksTo(s, t, mode, at) && WorksTo(t, u, mode, at)
    ensures WorksTo(s, u, mode, at)
  {
    hide CanRun, Run;
    var es :| NoInput(es) && CanRun(s, es, mode, at) && Run(s, es, mode, at) == t;
    var fs :| NoInput(fs) && CanRun(t, fs, mode, at) && Run(t, fs, mode, at) == u;
    RunThenRun(s, es, fs, mode, at);
    assert NoInput(es + fs);
  }

  // ----- states that can go on -----

  predicate AllParse(s: State) { forall id :: id in s.buffers ==> CanParse(s.buffers[id]) }

  /** A good state in which every buffer can be parsed. */
  ghost predicate Ready(s: State, mode: Mode) { Inv(s) && ModeOk(s, mode) && AllParse(s) }

  /** The server's work changes no client and nothing of what was received. */
  predicate SameInput(s: State, t: State) { t.received == s.received && t.buffers.Keys == s.buffers.Keys }

  lemma PrefixParses(snap: bytes, live: bytes)
    requires snap <= live && CanParse(live)
    ensures CanParse(snap)
  {
    hide Unframe, HeadersInRange;
    var tail := live[|snap|..];
    assert live == snap + tail;
    RangePrefix(snap, tail);
    UnframeAppend(snap, tail);
  }

  /** What is left after an exact erase can be parsed, and holds no complete
      frame if the whole buffer had been parsed. */
  lemma ErasedParses(snap: bytes, live: bytes)
    requires snap <= live && CanParse(live)
    ensures var rest := EraseFront(live, Unframe(snap).len);
      CanParse(rest) && (snap == live ==> FirstFrame(rest).None?)
  {
    hide Unframe, HeadersInRange, FirstFrame, Frameable, Framed;
    var u := Unframe(snap);
    PrefixParses(snap, live);
    EraseIsExact(snap, live);
    var rest := EraseFront(live, u.len);
    RangeBehind(u.packets, rest);
    UnframeFramed(u.packets, rest);
    ConsumesItsFrames(snap);
    if snap == live && |live| <= u.len { assert live[u.len..] == []; }
  }

  lemma NoLengthNoFrame(b: bytes)
    requires Unframe(b).len == 0
    ensures FirstFrame(b).None?
  {
  }

  // ----- the framer finishes its round -----

  function Stage(f: Framer): nat {
    match f
    case Idle => 0
    case Erased(_, _) => 1
    case Parsed(_, _, _, _) => 2
    case Snapped(_, _) => 3
  }

  /** The framer has looked at the whole buffer of client `id`. */
  predicate SawAll(s: State, id: ClientId) {
    && id in s.buffers
    && match s.framer
       case Snapped(c, snap) => c == id && snap == s.buffers[id]
       case Parsed(c, snap, _, _) => c == id && snap == s.buffers[id]
       case Erased(c, _) => c == id && FirstFrame(s.buffers[id]).None?
       case Idle => FirstFrame(s.buffers[id]).None?
  }

  /** Buffers without a complete frame stay that way. */
  predicate KeepsQuiet(s: State, t: State) {
    forall id :: id in s.buffers && id in t.buffers && FirstFrame(s.buffers[id]).None? ==>
      FirstFrame(t.buffers[id]).None?
  }

  /** The next event of a framer thread that is in the middle of its round. */
  function FramerEvent(f: Framer): Event
    requires !f.Idle?
  {
    match f
    case Snapped(_, _) => Parse
    case Parsed(_, _, _, _) => Erase
    case Erased(_, _) => HandOver
  }

  lemma FramerSteps(s: State, mode: Mode, at: Insertion)
    requires Ready(s, mode) && !s.framer.Idle?
    ensures var e := FramerEvent(s.framer);
      && Enabled(s, e, mode)
      && var n := Next(s, e, mode, at);
         && Ready(n, mode) && SameInput(s, n) && Stage(n.framer) < Stage(s.framer)
  {
    hide Unframe, HeadersInRange, Frameable, Framed, CanParse, EraseFront, FirstFrame, Inv;
    var e := FramerEvent(s.framer);
    FramerLocals(s);
    if s.framer.Snapped? { PrefixParses(s.framer.snap, s.buffers[s.framer.id]); }
    StepKeeps(s, e, mode, at);
    if s.framer.Parsed? { ErasedParses(s.framer.snap, s.buffers[s.framer.id]); }
  }

  lemma FramerLocals(s: State)
    requires Inv(s)
    ensures FramerOk(s) && s.received.Keys == s.buffers.Keys
  {
  }

  lemma FramerClears(s: State, id: ClientId, mode: Mode, at: Insertion)
    requires Ready(s, mode) && !s.framer.Idle? && Enabled(s, FramerEvent(s.framer), mode)
    ensures var n := Next(s, FramerEvent(s.framer), mode, at);
      KeepsQuiet(s, n) && (SawAll(s, id) ==> SawAll(n, id))
  {
    hide HeadersInRange, Frameable, Framed, CanParse, EraseFront, Unframe, FirstFrame, Inv;
    FramerLocals(s);
    match s.framer
    case Snapped(c, snap) =>
      if Unframe(snap).len == 0 { NoLengthNoFrame(snap); }
    case Parsed(c, snap, _, _) =>
      ErasedParses(snap, s.buffers[c]);
      if FirstFrame(s.buffers[c]).None? { QuietPrefix(snap, s.buffers[c]); }
    case Erased(_, _) =>
  }

  /** In a buffer without a complete frame the framer found nothing to erase. */
  lemma QuietPrefix(snap: bytes, live: bytes)
    requires snap <= live && FirstFrame(live).None?
    ensures FirstFrame(EraseFront(live, Unframe(snap).len)).None?
  {
    var tail := live[|snap|..];
    assert live == snap + tail;
    FirstFramePrefix(snap, tail);
    NothingToTake(snap);
    assert live[0..] == live;
  }

  lemma {:induction false} FramerFinishes(s: State, id: ClientId, mode: Mode, at: Insertion) returns (t: State)
    requires Ready(s, mode)
    ensures WorksTo(s, t, mode, at) && Ready(t, mode) && SameInput(s, t) && t.framer.Idle?
    ensures KeepsQuiet(s, t) && (SawAll(s, id) ==> SawAll(t, id))
    decreases Stage(s.framer)
  {
    hide Ready, WorksTo, SawAll, Enabled, Next, FirstFrame;
    if s.framer.Idle? {
      t := s;
      WorksToSelf(s, mode, at);
    } else {
      var e := FramerEvent(s.framer);
      FramerSteps(s, mode, at);
      FramerClears(s, id, mode, at);
      var n := Next(s, e, mode, at);
      t := FramerFinishes(n, id, mode, at);
      WorksOn(s, e, t, mode, at);
    }
  }

  // ----- one client after another -----

  /** One round of the framer, or of the single thread, for one client. */
  lemma ClientRound(s: State, id: ClientId, mode: Mode, at: Insertion) returns (t: State)
    requires Ready(s, mode) && s.framer.Idle? && id in s.buffers
    ensures WorksTo(s, t, mode, at) && Ready(t, mode) && SameInput(s, t) && t.framer.Idle?
    ensures KeepsQuiet(s, t) && id in t.buffers && FirstFrame(t.buffers[id]).None?
  {
    hide Unframe, HeadersInRange, Frameable, Framed, CanParse, EraseFront, FirstFrame, Inv, WorksTo;
    if mode == SingleThread {
      var e := Drain(id);
      t := Next(s, e, mode, at);
      StepKeeps(s, e, mode, at);
      ErasedParses(s.buffers[id], s.buffers[id]);
      if Unframe(s.buffers[id]).len == 0 { NoLengthNoFrame(s.buffers[id]); }
      WorksToSelf(t, mode, at);
      WorksOn(s, e, t, mode, at);
    } else {
      var e := Snapshot(id);
      var n := Next(s, e, mode, at);
      StepKeeps(s, e, mode, at);
      assert Ready(n, mode) && SawAll(n, id);
      t := FramerFinishes(n, id, mode, at);
      WorksOn(s, e, t, mode, at);
    }
  }

  /** Clients below `n` hold no complete frame. */
  predicate QuietBelow(s: State, n: int) {
    forall id :: id in s.buffers && id < n ==> FirstFrame(s.buffers[id]).None?
  }

  lemma {:induction false} AllRounds(s: State, n: nat, mode: Mode, at: Insertion) returns (t: State)
    requires Ready(s, mode) && s.framer.Idle?
    ensures WorksTo(s, t, mode, at) && Ready(t, mode) && SameInput(s, t) && t.framer.Idle? && QuietBelow(t, n)
    decreases n
  {
    hide Ready, WorksTo, FirstFrame;
    if n == 0 {
      t := s;
      WorksToSelf(s, mode, at);
      IdsFromZero(s, mode);
    } else {
      var u := AllRounds(s, n - 1, mode, at);
      t := u;
      if n - 1 in u.buffers {
        t := ClientRound(u, n - 1, mode, at);
        WorksThrough(s, u, t, mode, at);
      }
    }
  }

  lemma IdsFromZero(s: State, mode: Mode)
    requires Ready(s, mode)
    ensures QuietBelow(s, 0) && s.counter >= 0 && forall id :: id in s.buffers ==> id < s.counter
  {
  }

  // ----- the workers empty the queue -----

  lemma {:induction false} WorkersFinish(s: State, mode: Mode, at: Insertion) returns (t: State)
    requires Ready(s, mode)
    ensures WorksTo(s, t, mode, at) && Ready(t, mode) && t.received == s.received && t.buffers == s.buffers
    ensures t.framer == s.framer && t.queue == []
    decreases |s.queue|
  {
    hide Unframe, HeadersInRange, Frameable, Framed, CanParse, FirstFrame, Inv, WorksTo;
    if s.queue == [] {
      t := s;
      WorksToSelf(s, mode, at);
    } else {
      var n := Next(s, Work, mode, at);
      StepKeeps(s, Work, mode, at);
      assert n.queue == s.queue[1..];
      t := WorkersFinish(n, mode, at);
      WorksOn(s, Work, t, mode, at);
    }
  }

  /** From every good state whose buffers can be parsed, whatever the threads
      are doing, the server's own work leads to one in which every client is
      drained and exactly the packets received have been processed. */
  lemma CatchesUp(s: State, mode: Mode, at: Insertion) returns (es: seq<Event>)
    requires Inv(s) && ModeOk(s, mode) && AllParse(s)
    ensures NoInput(es) && CanRun(s, es, mode, at)
    ensures var t := Run(s, es, mode, at);
      && SameInput(s, t) && s.received.Keys == s.buffers.Keys
      && forall id :: id in t.buffers ==> Drained(t, id) && Of(t.processed, id) == Unframe(s.received[id]).packets
  {
    var a := FramerFinishes(s, 0, mode, at);
    IdsFromZero(a, mode);
    var b := AllRounds(a, a.counter, mode, at);
    var t := WorkersFinish(b, mode, at);
    WorksThrough(s, a, b, mode, at);
    WorksThrough(s, b, t, mode, at);
    es :| NoInput(es) && CanRun(s, es, mode, at) && Run(s, es, mode, at) == t;
    hide CanRun, Run, FirstFrame, Unframe;
    assert t.buffers == b.buffers && t.framer.Idle?;
    forall id | id in t.buffers
      ensures Drained(t, id) && Of(t.processed, id) == Unframe(t.received[id]).packets
    {
      assert id in a.buffers;
      AllTaken(t, id);
    }
    FramerLocals(s);
  }

  lemma AllTaken(t: State, id: ClientId)
    requires Inv(t) && t.queue == [] && t.framer.Idle? && id in t.buffers && FirstFrame(t.buffers[id]).None?
    ensures Drained(t, id) && id in t.received && Of(t.processed, id) == Unframe(t.received[id]).packets
  {
    hide FirstFrame;
    assert ClientOk(t, id);
    var ps := Of(t.processed, id);
    assert Taken(t, id) == ps;
    UnframeFramed(ps, t.buffers[id]);
    NothingToTake(t.buffers[id]);
    assert ps + [] == ps;
  }
}
