/** The server's objects and the bodies of its threads. Each method is what a
    thread does in one go, and is proved to be one event of the state machine. */
module ServerThreads {
  import opened Bytes
  import opened Framing
  import opened Pipeline
  import opened PipelineRuns

  /** The order in which a loop over a map with these keys meets them. */
  predicate Lists(ids: seq<ClientId>, keys: set<ClientId>) {
    && (forall i :: 0 <= i < |ids| ==> ids[i] in keys)
    && (forall i, j :: 0 <= i < j < |ids| ==> ids[i] != ids[j])
    && (forall id :: id in keys ==> id in ids)
  }

  /** A connected client: `net::ClientSocket`. */
  class ClientSocket {
    const id: ClientId
    var readBuffer: bytes

    constructor (id: ClientId)
      ensures this.id == id && readBuffer == []
    {
      this.id := id;
      readBuffer := [];
    }
  }

  /** `Server` with its `ServerSocket`, and the framer thread's local variables. */
  class Server {
    var clientIdCounter: ClientId
    var clients: map<ClientId, ClientSocket>
    var framer: Framer
    var unprocessed: Tagged
    ghost var processed: Tagged
    ghost var received: map<ClientId, bytes>

    ghost function Objects(): set<object>
      reads this
    {
      {this} + (set id | id in clients :: clients[id] as object)
    }

    /** Clients are filed under their own ids, so no object is filed twice. */
    ghost predicate Valid()
      reads Objects()
    {
      forall id :: id in clients ==> clients[id].id == id
    }

    /** The state of the machine that the objects stand for. */
    ghost function View(): State
      reads Objects()
    {
      State(clientIdCounter, map id | id in clients :: clients[id].readBuffer,
            framer, unprocessed, processed, received)
    }

    constructor ()
      ensures Valid() && View() == INIT
      ensures clientIdCounter == 0 && clients == map[] && unprocessed == [] && framer == Idle
    {
      clientIdCounter := 0;
      clients := map[];
      framer := Idle;
      unprocessed := [];
      processed := [];
      received := map[];
    }

    /** `ServerSocket::Accept`, by what the operating system answers. */
    method AcceptClient(outcome: AcceptOutcome) returns (client: ClientSocket?)
      requires Valid()
      modifies this
      ensures Valid() && View() == AcceptNext(old(View()), outcome)
      ensures clientIdCounter == old(clientIdCounter) + (if outcome == WouldBlock then 0 else 1)
      ensures client != null <==> outcome == Connected
      ensures client != null ==> fresh(client) && client.id == old(clientIdCounter) && client.readBuffer == []
      ensures clients == if client == null then old(clients) else old(clients)[old(clientIdCounter) := client]
    {
      client := null;
      ghost var before := View();
      if outcome == WouldBlock {
        return;
      }
      var id := clientIdCounter;
      clientIdCounter := clientIdCounter + 1;
      if outcome != Connected {
        assert View() == AcceptNext(before, outcome);
        return;
      }
      client := new ClientSocket(id);
      clients := clients[id := client];
      received := received[id := []];
      assert View().buffers == before.buffers[id := []];
    }

    /** `ServerSocket::ClientsRecv`: one receive for each client, in the order
        `ids` in which the loop meets them; an empty chunk stands for nothing
        received. Returns the events that happened. */
    method ClientsRecv(ids: seq<ClientId>, chunks: map<ClientId, bytes>, ghost mode: Mode)
      returns (ghost es: seq<Event>)
      requires Valid() && Lists(ids, clients.Keys) && clients.Keys <= chunks.Keys
      modifies Objects()
      ensures Valid() && clients == old(clients)
      ensures CanRun(old(View()), es, mode, Front) && View() == Run(old(View()), es, mode, Front)
      ensures forall id :: id in clients ==> clients[id].readBuffer == chunks[id] + old(clients[id].readBuffer)
    {
      es := [];
      var i := 0;
      while i < |ids|
        invariant i <= |ids| && Valid() && clients == old(clients)
        invariant CanRun(old(View()), es, mode, Front)
        invariant View() == Run(old(View()), es, mode, Front)
        invariant forall j :: 0 <= j < i ==>
          clients[ids[j]].readBuffer == chunks[ids[j]] + old(clients[ids[j]].readBuffer)
        invariant forall j :: i <= j < |ids| ==> clients[ids[j]].readBuffer == old(clients[ids[j]].readBuffer)
      {
        var data := chunks[ids[i]];
        if |data| > 0 {
          ghost var e := InsertChunk(ids[i], data, mode);
          OneMoreStep(old(View()), es, e, mode, Front);
          es := es + [e];
        } else {
          assert data + clients[ids[i]].readBuffer == clients[ids[i]].readBuffer;
        }
        i := i + 1;
      }
    }

    /** New bytes go to the front of the client's buffer. */
    method InsertChunk(id: ClientId, data: bytes, ghost mode: Mode) returns (ghost e: Event)
      requires Valid() && id in clients
      modifies this`received, clients[id]
      ensures Valid() && clients[id].readBuffer == data + old(clients[id].readBuffer)
      ensures forall c :: c in clients && c != id ==> clients[c].readBuffer == old(clients[c].readBuffer)
      ensures e == Recv(id, data) && View() == Next(old(View()), e, mode, Front)
    {
      ghost var before := View();
      var client := clients[id];
      assert forall c :: c in clients && c != id ==> clients[c] != client;
      client.readBuffer := data + client.readBuffer;
      received := received[id := (if id in received then received[id] else []) + data];
      e := Recv(id, data);
      assert View().buffers == before.buffers[id := data + before.buffers[id]];
    }

    /** The framer copies a client's buffer under the client's lock. */
    method TakeSnapshot(id: ClientId, mode: Mode)
      requires Valid() && Enabled(View(), Snapshot(id), mode)
      modifies this`framer
      ensures Valid() && View() == Next(old(View()), Snapshot(id), mode, Front)
      ensures framer == Snapped(id, clients[id].readBuffer)
    {
      framer := Snapped(id, clients[id].readBuffer);
    }

    /** It looks for packets with no lock held, and goes on to the next client
        if there are none. Outside the range of `CanParse` nothing is defined. */
    method FindPackets(mode: Mode) returns (defined: bool)
      requires Valid() && framer.Snapped?
      modifies this`framer
      ensures Valid() && defined == old(Enabled(View(), Parse, mode))
      ensures defined ==> View() == Next(old(View()), Parse, mode, Front)
    {
      var found := PacketsFromBuffer(framer.snap);
      if found.Failure? {
        return false;
      }
      var Unframed(packets, len) := found.value;
      if len <= 0 {
        framer := Idle;
        return true;
      }
      framer := Parsed(framer.id, framer.snap, len, packets);
      return true;
    }

    /** It erases the parsed bytes under the client's lock. */
    method EraseParsed(mode: Mode)
      requires Valid() && Enabled(View(), Erase, mode)
      modifies Objects()
      ensures Valid() && clients == old(clients) && View() == Next(old(View()), Erase, mode, Front)
      ensures var f, b := old(framer), old(clients[framer.id].readBuffer);
        framer == Erased(f.id, f.packets) && clients[f.id].readBuffer == if |b| > f.len then b[f.len..] else []
    {
      ghost var before := View();
      var client := clients[framer.id];
      assert forall id :: id in clients && id != framer.id ==> clients[id] != client;
      EraseFrom(client, framer.len);
      assert View().buffers == before.buffers[framer.id := EraseFront(before.buffers[framer.id], framer.len)];
      framer := Erased(framer.id, framer.packets);
    }

    /** It hands the packets over under the queue's lock: to the queue, or
        straight to `ProcessPacket` when there are no workers. */
    method HandOverPackets(mode: Mode)
      requires Valid() && Enabled(View(), HandOver, mode)
      modifies this
      ensures Valid() && clients == old(clients) && View() == Next(old(View()), HandOver, mode, Front)
      ensures framer == Idle
      ensures var tagged := Tag(old(framer).id, old(framer).packets);
        if mode == ManyThreads then unprocessed == old(unprocessed) + tagged && processed == old(processed)
        else processed == old(processed) + tagged && unprocessed == old(unprocessed)
    {
      var id, packets := framer.id, framer.packets;
      if mode == ManyThreads {
        Enqueue(id, packets);
      } else {
        ProcessAll(id, packets);
      }
      framer := Idle;
    }

    method Enqueue(id: ClientId, packets: seq<bytes>)
      modifies this`unprocessed
      ensures unprocessed == old(unprocessed) + Tag(id, packets)
    {
      var i := 0;
      while i < |packets|
        invariant i <= |packets| && unprocessed == old(unprocessed) + Tag(id, packets)[..i]
      {
        unprocessed := unprocessed + [(id, packets[i])];
        i := i + 1;
      }
      assert Tag(id, packets)[..i] == Tag(id, packets);
    }

    /** A worker pops one packet and processes it, all under the queue's lock. */
    method WorkerStep()
      requires Valid() && Enabled(View(), Work, ManyThreads)
      modifies this
      ensures Valid() && clients == old(clients) && View() == Next(old(View()), Work, ManyThreads, Front)
      ensures processed == old(processed) + [old(unprocessed)[0]] && unprocessed == old(unprocessed)[1..]
    {
      var first := unprocessed[0];
      unprocessed := unprocessed[1..];
      ProcessPacket(first.0, first.1);
    }

    /** The single thread's loop body for one client. */
    method DrainClient(id: ClientId) returns (defined: bool)
      requires Valid() && id in clients
      modifies Objects()
      ensures Valid() && clients == old(clients) && defined == old(Enabled(View(), Drain(id), SingleThread))
      ensures !defined ==> View() == old(View())
      ensures defined ==> View() == Next(old(View()), Drain(id), SingleThread, Front)
    {
      ghost var before := View();
      var client := clients[id];
      var found := PacketsFromBuffer(client.readBuffer);
      if found.Failure? {
        return false;
      }
      var Unframed(packets, len) := found.value;
      if len <= 0 {
        return true;
      }
      assert forall c :: c in clients && c != id ==> clients[c] != client;
      EraseFrom(client, len);
      assert View().buffers == before.buffers[id := EraseFront(before.buffers[id], len)];
      ProcessAll(id, packets);
      return true;
    }

    /** The single thread's loop over the clients. It stops at a buffer that
        cannot be parsed; otherwise no complete packet is left anywhere. */
    method DrainClients(ids: seq<ClientId>) returns (defined: bool, ghost es: seq<Event>)
      requires Valid() && Lists(ids, clients.Keys)
      modifies Objects()
      ensures Valid() && clients == old(clients)
      ensures CanRun(old(View()), es, SingleThread, Front) && View() == Run(old(View()), es, SingleThread, Front)
      ensures defined ==> forall id :: id in clients ==> FirstFrame(View().buffers[id]).None?
      ensures !defined ==> exists id :: id in clients && !CanParse(View().buffers[id])
    {
      hide Enabled, Next, FirstFrame, CanParse;
      es := [];
      ghost var start := View();
      var i := 0;
      while i < |ids|
        invariant i <= |ids| && Valid() && clients == old(clients)
        invariant forall j :: 0 <= j < |ids| ==> ids[j] in View().buffers
        invariant CanRun(start, es, SingleThread, Front) && View() == Run(start, es, SingleThread, Front)
        invariant forall j :: 0 <= j < i ==> FirstFrame(View().buffers[ids[j]]).None?
      {
        ghost var before := View();
        var id := ids[i];
        defined := DrainClient(id);
        DrainsOne(before, id);
        if !defined {
          return;
        }
        OneMoreStep(start, es, Drain(id), SingleThread, Front);
        es := es + [Drain(id)];
        i := i + 1;
      }
      defined := true;
    }

    /** One round of `SingleThreaded`: accept, receive from each client and
        drain each client; `ids` is the order in which the loops meet the clients. */
    method SingleThreadedRound(outcome: AcceptOutcome, ids: seq<ClientId>, chunks: map<ClientId, bytes>)
      returns (defined: bool, ghost es: seq<Event>)
      requires Valid() && Lists(ids, AcceptNext(View(), outcome).buffers.Keys)
      requires AcceptNext(View(), outcome).buffers.Keys <= chunks.Keys
      modifies Objects()
      ensures Valid() && Lists(ids, clients.Keys)
      ensures CanRun(old(View()), es, SingleThread, Front) && View() == Run(old(View()), es, SingleThread, Front)
      ensures defined ==> forall id :: id in clients ==> FirstFrame(View().buffers[id]).None?
      ensures !defined ==> exists id :: id in clients && !CanParse(View().buffers[id])
    {
      hide CanRun, Run, FirstFrame, CanParse, AcceptNext;
      ghost var start := View();
      var client := AcceptClient(outcome);
      ghost var accepted := View();
      assert accepted.buffers.Keys == clients.Keys;
      ghost var received := ClientsRecv(ids, chunks, SingleThread);
      ghost var drained;
      defined, drained := DrainClients(ids);
      RunThenRun(accepted, received, drained, SingleThread, Front);
      StepThenRun(start, Accept(outcome), received + drained, SingleThread, Front);
      es := [Accept(outcome)] + (received + drained);
    }

    /** `ProcessPacket` for each packet, in order. */
    method ProcessAll(id: ClientId, packets: seq<bytes>)
      modifies this`processed
      ensures processed == old(processed) + Tag(id, packets)
    {
      var i := 0;
      while i < |packets|
        invariant i <= |packets| && processed == old(processed) + Tag(id, packets)[..i]
      {
        ProcessPacket(id, packets[i]);
        i := i + 1;
      }
      assert Tag(id, packets)[..i] == Tag(id, packets);
    }

    /** The call is recorded; what the handler does with the packet is not modelled. */
    method ProcessPacket(id: ClientId, packet: bytes)
      modifies this`processed
      ensures processed == old(processed) + [(id, packet)]
    {
      processed := processed + [(id, packet)];
    }

    /** The erase of both framing loops: up to `len`, or everything. */
    method EraseFrom(client: ClientSocket, len: nat)
      modifies client
      ensures client.readBuffer == EraseFront(old(client.readBuffer), len)
    {
      if |client.readBuffer| > len {
        client.readBuffer := client.readBuffer[len..];
      } else {
        client.readBuffer := [];
      }
    }
  }

  /** Draining a client leaves it no complete frame, and the others alone. */
  lemma DrainsOne(s: State, id: ClientId)
    requires id in s.buffers
    ensures Enabled(s, Drain(id), SingleThread) <==> CanParse(s.buffers[id])
    ensures Enabled(s, Drain(id), SingleThread) ==>
      var n := Next(s, Drain(id), SingleThread, Front);
      && n.buffers.Keys == s.buffers.Keys && FirstFrame(n.buffers[id]).None?
      && forall c :: c in s.buffers && c != id ==> n.buffers[c] == s.buffers[c]
  {
    hide FirstFrame, Unframe, CanParse;
    var b := s.buffers[id];
    var u := Unframe(b);
    ConsumesItsFrames(b);
    if u.len == 0 { assert b[0..] == b; }
    if u.len == |b| { assert b[u.len..] == []; }
  }
}
