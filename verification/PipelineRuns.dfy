/** Whole runs of the server: which packets are processed, in which order, and
    when inserting at the front of the buffer is harmless. */
module PipelineRuns {
  import opened Bytes
  import opened Framing
  import opened Pipeline

  /** The events can happen in this order from `s`. */
  predicate CanRun(s: State, es: seq<Event>, mode: Mode, at: Insertion)
    decreases |es|
  {
    es == [] || (Enabled(s, es[0], mode) && CanRun(Next(s, es[0], mode, at), es[1..], mode, at))
  }

  function Run(s: State, es: seq<Event>, mode: Mode, at: Insertion): State
    requires CanRun(s, es, mode, at)
    decreases |es|
  {
    if es == [] then s else Run(Next(s, es[0], mode, at), es[1..], mode, at)
  }

  lemma StepThenRun(s: State, e: Event, es: seq<Event>, mode: Mode, at: Insertion)
    requires Enabled(s, e, mode) && CanRun(Next(s, e, mode, at), es, mode, at)
    ensures CanRun(s, [e] + es, mode, at) && Run(s, [e] + es, mode, at) == Run(Next(s, e, mode, at), es, mode, at)
  {
    hide Enabled, Next;
    assert ([e] + es)[1..] == es;
  }

  lemma {:induction false} RunThenRun(s: State, es: seq<Event>, fs: seq<Event>, mode: Mode, at: Insertion)
    requires CanRun(s, es, mode, at) && CanRun(Run(s, es, mode, at), fs, mode, at)
    ensures CanRun(s, es + fs, mode, at) && Run(s, es + fs, mode, at) == Run(Run(s, es, mode, at), fs, mode, at)
    decreases |es|
  {
    hide Enabled, Next;
    if es == [] {
      assert [] + fs == fs;
    } else {
      RunThenRun(Next(s, es[0], mode, at), es[1..], fs, mode, at);
      assert (es + fs)[1..] == es[1..] + fs;
    }
  }

  lemma OneMoreStep(s: State, es: seq<Event>, e: Event, mode: Mode, at: Insertion)
    requires CanRun(s, es, mode, at) && Enabled(Run(s, es, mode, at), e, mode)
    ensures CanRun(s, es + [e], mode, at)
    ensures Run(s, es + [e], mode, at) == Next(Run(s, es, mode, at), e, mode, at)
  {
    hide Enabled, Next;
    assert [e][1..] == [];
    RunThenRun(s, es, [e], mode, at);
  }

  /** At every receive, putting the chunk first or last made no difference. */
  predicate InOrder(s: State, es: seq<Event>, mode: Mode, at: Insertion)
    requires CanRun(s, es, mode, at)
    decreases |es|
  {
    es == [] || (KeepsOrder(s, es[0], at) && InOrder(Next(s, es[0], mode, at), es[1..], mode, at))
  }

  lemma {:induction false} RunKeeps(s: State, es: seq<Event>, mode: Mode, at: Insertion)
    requires Inv(s) && ModeOk(s, mode) && CanRun(s, es, mode, at) && InOrder(s, es, mode, at)
    ensures Inv(Run(s, es, mode, at)) && ModeOk(Run(s, es, mode, at), mode)
    decreases |es|
  {
    hide Inv, Next, Enabled, KeepsOrder;
    if es != [] {
      StepKeeps(s, es[0], mode, at);
      RunKeeps(Next(s, es[0], mode, at), es[1..], mode, at);
    }
  }

  lemma {:induction false} BackIsInOrder(s: State, es: seq<Event>, mode: Mode)
    requires CanRun(s, es, mode, Back)
    ensures InOrder(s, es, mode, Back)
    decreases |es|
  {
    hide Next, Enabled;
    if es != [] { BackIsInOrder(Next(s, es[0], mode, Back), es[1..], mode); }
  }

  /** A state that some run of the server reaches, every receive in order. */
  ghost predicate Reachable(s: State, mode: Mode, at: Insertion) {
    exists es :: CanRun(INIT, es, mode, at) && InOrder(INIT, es, mode, at) && Run(INIT, es, mode, at) == s
  }

  lemma ReachableInv(s: State, mode: Mode, at: Insertion)
    requires Reachable(s, mode, at)
    ensures Inv(s) && ModeOk(s, mode)
  {
    var es :| CanRun(INIT, es, mode, at) && InOrder(INIT, es, mode, at) && Run(INIT, es, mode, at) == s;
    RunKeeps(INIT, es, mode, at);
  }

  // ----- safety -----

  /** In every reachable state the packets of a client that left its buffer,
      followed by those still in it, are the packets of all bytes received
      from it. None is lost, doubled or reordered. */
  lemma NothingLostOrReordered(s: State, mode: Mode, at: Insertion, id: ClientId)
    requires Reachable(s, mode, at) && id in s.buffers
    ensures id in s.received
    ensures Of(s.processed, id) + Of(s.queue, id) + Held(s.framer, id) + Unframe(s.buffers[id]).packets
         == Unframe(s.received[id]).packets
    ensures Of(s.processed, id) <= Unframe(s.received[id]).packets
  {
    ReachableInv(s, mode, at);
    assert ClientOk(s, id);
    UnframeFramed(Taken(s, id), s.buffers[id]);
  }

  /** Between snapshot and erase the snapshot is still a prefix of the live
      buffer, so the erase takes off exactly the frames that were parsed. */
  lemma EraseTakesParsedFrames(s: State, mode: Mode, at: Insertion)
    requires Reachable(s, mode, at) && s.framer.Parsed?
    ensures var f := s.framer;
      && f.id in s.buffers && f.snap <= s.buffers[f.id] && f.packets == Unframe(f.snap).packets
      && s.buffers[f.id] == Framed(f.packets) + Next(s, Erase, mode, at).buffers[f.id]
  {
    ReachableInv(s, mode, at);
    EraseIsExact(s.framer.snap, s.buffers[s.framer.id]);
  }

  /** All packets of the client have been processed and no complete frame is waiting. */
  predicate Drained(s: State, id: ClientId)
    requires id in s.buffers
  {
    Of(s.queue, id) == [] && Held(s.framer, id) == [] && FirstFrame(s.buffers[id]).None?
  }

  /** Once drained, exactly the packets of the bytes received were processed,
      in order, and the buffer holds the bytes behind them. */
  lemma DrainedProcessedAll(s: State, mode: Mode, at: Insertion, id: ClientId)
    requires Reachable(s, mode, at) && id in s.buffers && Drained(s, id)
    ensures id in s.received
    ensures var u := Unframe(s.received[id]);
      Of(s.processed, id) == u.packets && s.buffers[id] == s.received[id][u.len..]
  {
    ReachableInv(s, mode, at);
    assert ClientOk(s, id);
    var ps := Taken(s, id);
    assert ps == Of(s.processed, id);
    UnframeFramed(ps, s.buffers[id]);
    assert ps + [] == ps;
  }

  /** The three ways to run the server, and any interleaving in each of them,
      agree on a client that sent the same bytes. */
  lemma ModesAgree(s: State, mode: Mode, s': State, mode': Mode, id: ClientId)
    requires Reachable(s, mode, Back) && Reachable(s', mode', Back)
    requires id in s.buffers && id in s'.buffers && Drained(s, id) && Drained(s', id)
    requires id in s.received && id in s'.received && s.received[id] == s'.received[id]
    ensures Of(s.processed, id) == Of(s'.processed, id) && s.buffers[id] == s'.buffers[id]
  {
    DrainedProcessedAll(s, mode, Back, id);
    DrainedProcessedAll(s', mode', Back, id);
  }

  /** When the account is kept, the buffer of a client that sends frames of
      payloads within the limit can be parsed. */
  lemma AccountedClientsParse(s: State, id: ClientId, ps: seq<bytes>, later: bytes)
    requires Inv(s) && id in s.buffers && id in s.received
    requires AllFrameable(ps) && s.received[id] + later == Framed(ps) && |s.buffers[id]| < INT_LIMIT
    ensures CanParse(s.buffers[id])
  {
    assert ClientOk(s, id);
    FramedInRange(ps);
    RangePrefix(s.received[id], later);
    RangeBehind(Taken(s, id), s.buffers[id]);
  }

  /** With insertion at the back that is so in every run. */
  lemma HonestClientsParse(s: State, mode: Mode, id: ClientId, ps: seq<bytes>, later: bytes)
    requires Reachable(s, mode, Back) && id in s.buffers && id in s.received
    requires AllFrameable(ps) && s.received[id] + later == Framed(ps) && |s.buffers[id]| < INT_LIMIT
    ensures CanParse(s.buffers[id])
  {
    ReachableInv(s, mode, Back);
    AccountedClientsParse(s, id, ps, later);
  }

  /** Every step extends the order in which packets are, or will be, processed. */
  lemma OrderOnlyGrows(s: State, e: Event, mode: Mode, at: Insertion)
    requires Enabled(s, e, mode) && (mode != ManyThreads ==> s.queue == [])
    ensures var n := Next(s, e, mode, at);
      s.processed <= n.processed && s.processed + s.queue <= n.processed + n.queue
  {
    if e.Work? { assert s.queue == [s.queue[0]] + s.queue[1..]; }
  }

  // ----- client ids -----

  predicate IdsBelow(s: State) { s.counter >= 0 && forall id :: id in s.buffers ==> 0 <= id < s.counter }

  lemma {:induction false} RunKeepsIds(s: State, es: seq<Event>, mode: Mode, at: Insertion)
    requires IdsBelow(s) && CanRun(s, es, mode, at)
    ensures IdsBelow(Run(s, es, mode, at)) && s.counter <= Run(s, es, mode, at).counter
    decreases |es|
  {
    hide Unframe, HeadersInRange, CanParse;
    if es != [] { RunKeepsIds(Next(s, es[0], mode, at), es[1..], mode, at); }
  }

  /** Client ids are never reused, in any run with either insertion: connecting
      takes an id no client has had, and leaves the other clients alone. */
  lemma FreshIds(es: seq<Event>, mode: Mode, at: Insertion)
    requires CanRun(INIT, es, mode, at)
    ensures var s := Run(INIT, es, mode, at);
      && s.counter !in s.buffers
      && AcceptNext(s, Connected).buffers.Keys == s.buffers.Keys + {s.counter}
      && forall id :: id in s.buffers ==> id < s.counter && AcceptNext(s, Connected).buffers[id] == s.buffers[id]
  {
    hide CanRun, Run;
    RunKeepsIds(INIT, es, mode, at);
  }
}
