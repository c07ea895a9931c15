/** Length-prefixed packets: the functions of Protocol/src/packet.cpp. A packet
    is its serialised payload. */
module Framing {
  import opened Bytes
  import opened Wrappers

  const INT_LIMIT: int := 0x8000_0000
  const UINT_LIMIT: int := 0x1_0000_0000

  // ----- one frame -----

  /** The little-endian 32-bit number at the front of `b`. */
  function Le32(b: bytes): (n: nat)
    requires |b| >= 4
    ensures n < UINT_LIMIT
  {
    b[0] as int + 0x100 * b[1] as int + 0x1_0000 * b[2] as int + 0x100_0000 * b[3] as int
  }

  /** The low 32 bits of a length, least significant byte first. */
  function Header(n: nat): (h: bytes)
    ensures |h| == 4
  {
    [n % 0x100, n / 0x100 % 0x100, n / 0x1_0000 % 0x100, n / 0x100_0000 % 0x100]
  }

  function Frame(p: bytes): bytes { Header(|p|) + p }

  /** The payload of the complete non-empty frame at the front of `b`, if there is one. */
  function FirstFrame(b: bytes): Option<bytes> {
    if |b| >= 4 && 0 < Le32(b) && Le32(b) + 4 <= |b| then Some(b[4..Le32(b) + 4]) else None
  }

  /** The 32-bit sum of the header and 4 does not wrap around. */
  predicate HeaderInRange(b: bytes) { |b| >= 4 ==> Le32(b) + 4 < UINT_LIMIT }

  /** The guard under which `packet_from_buffer` copies a payload; the sum is on 32 bits. */
  predicate TakesFrame(b: bytes) { |b| >= 4 && Le32(b) > 0 && |b| >= (Le32(b) + 4) % UINT_LIMIT }

  /** The guard keeps the copy inside the buffer exactly when the sum does not wrap. */
  lemma CopiesInsideIff(b: bytes)
    requires |b| < UINT_LIMIT
    ensures (TakesFrame(b) ==> 4 + Le32(b) <= |b|) <==> HeaderInRange(b)
    ensures HeaderInRange(b) ==> (TakesFrame(b) <==> FirstFrame(b).Some?)
  {
  }

  /** Four bytes for which it does not: the copy would read 2^32 - 1 bytes behind them. */
  lemma CopiesOutside()
    ensures var b := [255, 255, 255, 255];
      TakesFrame(b) && 4 + Le32(b) == |b| + UINT_LIMIT - 1
  {
  }

  /** A payload that a frame can carry through `packet_from_buffer`. */
  predicate Frameable(p: bytes) { 0 < |p| && |p| + 4 < UINT_LIMIT }

  lemma HeaderReads(n: nat, rest: bytes)
    requires n < UINT_LIMIT
    ensures Le32(Header(n) + rest) == n
  {
    var a, b := n / 0x100, n / 0x1_0000;
    assert a / 0x100 == b && b / 0x100 == n / 0x100_0000;
    assert n == 0x100 * a + n % 0x100 && a == 0x100 * b + a % 0x100;
    var h := Header(n) + rest;
    assert h[0] == n % 0x100 && h[1] == a % 0x100 && h[2] == b % 0x100 && h[3] == b / 0x100 % 0x100;
  }

  lemma HeaderWrites(b: bytes)
    requires |b| >= 4
    ensures Header(Le32(b)) == b[..4]
  {
    var n := Le32(b);
    assert n / 0x100 == b[1] as int + 0x100 * b[2] as int + 0x1_0000 * b[3] as int;
    assert n / 0x1_0000 == b[2] as int + 0x100 * b[3] as int;
    assert n / 0x100_0000 == b[3];
  }

  lemma FirstFrameOf(p: bytes, rest: bytes)
    requires Frameable(p)
    ensures FirstFrame(Frame(p) + rest) == Some(p) && HeaderInRange(Frame(p) + rest)
  {
    var b := Frame(p) + rest;
    HeaderReads(|p|, p + rest);
    assert b == Header(|p|) + (p + rest);
  }

  /** The first frame is what its payload would be framed as. */
  lemma FramesBack(b: bytes)
    requires FirstFrame(b).Some?
    ensures var p := FirstFrame(b).value;
      0 < |p| && |p| + 4 <= |b| && Frame(p) == b[..|p| + 4] && (HeaderInRange(b) ==> Frameable(p))
  {
    HeaderWrites(b);
    var p := FirstFrame(b).value;
    assert b[..|p| + 4] == b[..4] + p;
  }

  // ----- a stream of frames -----

  /** What `packets_from_buffer` returns: the packets and the number of bytes they took. */
  datatype Unframed = Unframed(packets: seq<bytes>, len: nat)

  function Unframe(b: bytes): (u: Unframed)
    ensures u.len <= |b|
    decreases |b|
  {
    match FirstFrame(b)
    case None => Unframed([], 0)
    case Some(p) =>
      var u := Unframe(b[|p| + 4..]);
      Unframed([p] + u.packets, |p| + 4 + u.len)
  }

  /** Every header that `packets_from_buffer` reads is in range. */
  predicate HeadersInRange(b: bytes)
    decreases |b|
  {
    HeaderInRange(b) &&
    match FirstFrame(b)
    case None => true
    case Some(p) => HeadersInRange(b[|p| + 4..])
  }

  function Framed(ps: seq<bytes>): bytes {
    if ps == [] then [] else Frame(ps[0]) + Framed(ps[1..])
  }

  predicate AllFrameable(ps: seq<bytes>) { forall i :: 0 <= i < |ps| ==> Frameable(ps[i]) }

  lemma {:induction false} FramedAppend(ps: seq<bytes>, qs: seq<bytes>)
    ensures Framed(ps + qs) == Framed(ps) + Framed(qs)
  {
    hide Frame;
    if ps == [] {
      assert ps + qs == qs;
    } else {
      FramedAppend(ps[1..], qs);
      assert (ps + qs)[1..] == ps[1..] + qs;
      Associates(Frame(ps[0]), Framed(ps[1..]), Framed(qs));
    }
  }

  /** Frames in front of any bytes are taken off one by one. */
  lemma {:induction false} UnframeFramed(ps: seq<bytes>, rest: bytes)
    requires AllFrameable(ps)
    ensures Unframe(Framed(ps) + rest)
         == Unframed(ps + Unframe(rest).packets, |Framed(ps)| + Unframe(rest).len)
  {
    hide FirstFrame, Frame;
    if ps == [] {
      assert Framed(ps) + rest == rest && ps + Unframe(rest).packets == Unframe(rest).packets;
    } else {
      var p, tail := ps[0], Framed(ps[1..]) + rest;
      FirstFrameOf(p, tail);
      Associates(Frame(p), Framed(ps[1..]), rest);
      DropFrame(p, tail);
      UnframeFramed(ps[1..], rest);
      assert ps + Unframe(rest).packets == [p] + (ps[1..] + Unframe(rest).packets);
    }
  }

  lemma DropFrame(p: bytes, tail: bytes)
    ensures |Frame(p)| == |p| + 4 && (Frame(p) + tail)[|p| + 4..] == tail
  {
  }

  /** Framing then unframing: exactly the payloads come back, and their frames are consumed. */
  lemma ReceivesWhatWasSent(ps: seq<bytes>, tail: bytes)
    requires AllFrameable(ps) && FirstFrame(tail).None?
    ensures Unframe(Framed(ps) + tail) == Unframed(ps, |Framed(ps)|)
  {
    UnframeFramed(ps, tail);
    assert ps + [] == ps;
  }

  /** Unframing then framing: the packets taken off spell the consumed bytes,
      and no complete frame is left at the front of the remainder. */
  lemma {:induction false} ConsumesItsFrames(b: bytes)
    ensures var u := Unframe(b);
      Framed(u.packets) == b[..u.len] && FirstFrame(b[u.len..]).None?
    ensures HeadersInRange(b) ==> AllFrameable(Unframe(b).packets)
    decreases |b|
  {
    match FirstFrame(b)
    case None =>
      assert b[0..] == b;
    case Some(p) =>
      FramesBack(b);
      var n := |p| + 4;
      var rest := b[n..];
      var v := Unframe(rest);
      ConsumesItsFrames(rest);
      assert ([p] + v.packets)[1..] == v.packets;
      TakeMore(b, n, v.len);
      assert b[n + v.len..] == rest[v.len..];
  }

  /** Bytes that arrive later do not change the packets already complete. */
  lemma UnframeAppend(a: bytes, b: bytes)
    requires HeadersInRange(a)
    ensures var u := Unframe(a);
      var v := Unframe(a[u.len..] + b);
      Unframe(a + b) == Unframed(u.packets + v.packets, u.len + v.len)
  {
    var u := Unframe(a);
    ConsumesItsFrames(a);
    UnframeFramed(u.packets, a[u.len..] + b);
    Associates(a[..u.len], a[u.len..], b);
    assert a[..u.len] + a[u.len..] == a;
  }

  // ----- chunks -----

  function Flatten(chunks: seq<bytes>): bytes {
    if chunks == [] then [] else chunks[0] + Flatten(chunks[1..])
  }

  /** Receive, parse and erase, once for each chunk: the packets and the bytes left over. */
  function Feed(buf: bytes, chunks: seq<bytes>): (seq<bytes>, bytes)
    decreases |chunks|
  {
    if chunks == [] then ([], buf)
    else
      var b := buf + chunks[0];
      var u := Unframe(b);
      var (ps, rest) := Feed(b[u.len..], chunks[1..]);
      (u.packets + ps, rest)
  }

  /** However the stream is cut into chunks, the packets and the leftover are
      those of the whole stream. */
  lemma {:induction false} ChunkingIsIrrelevant(buf: bytes, chunks: seq<bytes>)
    requires FirstFrame(buf).None? && HeadersInRange(buf + Flatten(chunks))
    ensures var all := buf + Flatten(chunks);
      Feed(buf, chunks) == (Unframe(all).packets, all[Unframe(all).len..])
    decreases |chunks|
  {
    hide FirstFrame, HeadersInRange, Unframe, Framed;
    if chunks == [] {
      assert buf + [] == buf && buf[0..] == buf;
      NothingToTake(buf);
    } else {
      var b, later := buf + chunks[0], Flatten(chunks[1..]);
      var all := b + later;
      assert all == buf + Flatten(chunks);
      var u := Unframe(b);
      RangePrefix(b, later);
      RangeDrop(b, later);
      UnframeAppend(b, later);
      ConsumesItsFrames(b);
      ChunkingIsIrrelevant(b[u.len..], chunks[1..]);
      DropTwice(b, later, u.len, Unframe(b[u.len..] + later).len);
    }
  }

  /** Headers in range in a stream are in range in what has arrived of it ... */
  lemma {:induction false} RangePrefix(a: bytes, b: bytes)
    requires HeadersInRange(a + b)
    ensures HeadersInRange(a)
    decreases |a|
  {
    FirstFramePrefix(a, b);
    match FirstFrame(a)
    case None =>
    case Some(p) =>
      assert (a + b)[|p| + 4..] == a[|p| + 4..] + b;
      RangePrefix(a[|p| + 4..], b);
  }

  /** ... and in what is left of it. */
  lemma {:induction false} RangeDrop(a: bytes, b: bytes)
    requires HeadersInRange(a + b)
    ensures HeadersInRange(a[Unframe(a).len..] + b)
    decreases |a|
  {
    FirstFramePrefix(a, b);
    hide FirstFrame;
    match FirstFrame(a)
    case None => assert a[0..] == a;
    case Some(p) =>
      FramesBack(a);
      var rest := a[|p| + 4..];
      assert (a + b)[|p| + 4..] == rest + b;
      RangeDrop(rest, b);
      assert a[|p| + 4 + Unframe(rest).len..] == rest[Unframe(rest).len..];
  }

  lemma FirstFramePrefix(a: bytes, b: bytes)
    ensures |a| >= 4 ==> Le32(a + b) == Le32(a)
    ensures FirstFrame(a).Some? ==> FirstFrame(a + b) == FirstFrame(a)
  {
    if FirstFrame(a).Some? {
      assert (a + b)[4..Le32(a) + 4] == a[4..Le32(a) + 4];
    }
  }

  lemma NothingToTake(b: bytes)
    requires FirstFrame(b).None?
    ensures Unframe(b) == Unframed([], 0)
  {
  }

  /** A client that frames its payloads within the limit sends no header out of
      range: nor does any part of its stream, however much of it has arrived. */
  lemma {:induction false} FramedInRange(ps: seq<bytes>)
    requires AllFrameable(ps)
    ensures HeadersInRange(Framed(ps))
  {
    hide FirstFrame, Frame, HeaderInRange, Frameable;
    if ps == [] {
      NoFrameInNothing();
    } else {
      FirstFrameOf(ps[0], Framed(ps[1..]));
      DropFrame(ps[0], Framed(ps[1..]));
      FramedInRange(ps[1..]);
    }
  }

  /** Headers are in range behind frames when they are in range in the whole. */
  lemma {:induction false} RangeBehind(ps: seq<bytes>, rest: bytes)
    requires AllFrameable(ps) && HeadersInRange(Framed(ps) + rest)
    ensures HeadersInRange(rest)
  {
    hide FirstFrame, Frame, HeaderInRange, Frameable;
    if ps == [] {
      assert Framed(ps) + rest == rest;
    } else {
      var tail := Framed(ps[1..]) + rest;
      Associates(Frame(ps[0]), Framed(ps[1..]), rest);
      FirstFrameOf(ps[0], tail);
      DropFrame(ps[0], tail);
      RangeBehind(ps[1..], rest);
    }
  }

  // ----- empty payloads -----

  /** An empty frame at the front stalls the stream for good, whatever arrives behind it. */
  lemma EmptyFrameStalls(more: bytes)
    ensures Unframe(Frame([]) + more) == Unframed([], 0)
  {
    HeaderReads(0, more);
    assert Frame([]) + more == Header(0) + more;
  }

  /** Payloads within the size limit all come back exactly when none of them is empty. */
  lemma ReceivesAllOrStalls(ps: seq<bytes>)
    requires forall i :: 0 <= i < |ps| ==> |ps[i]| + 4 < UINT_LIMIT
    ensures Unframe(Framed(ps)).packets == ps <==> [] !in ps
  {
    if [] !in ps {
      assert AllFrameable(ps);
      ReceivesWhatWasSent(ps, []);
      assert Framed(ps) + [] == Framed(ps);
    } else {
      var k := FirstEmpty(ps);
      var front, back := ps[..k], ps[k..];
      assert AllFrameable(front);
      assert ps == front + back && back[0] == [];
      FramedAppend(front, back);
      EmptyFrameStalls(Framed(back[1..]));
      UnframeFramed(front, Framed(back));
    }
  }

  function FirstEmpty(ps: seq<bytes>): (k: nat)
    requires [] in ps
    ensures k < |ps| && ps[k] == [] && forall i :: 0 <= i < k ==> ps[i] != []
  {
    if ps[0] == [] then 0
    else
      assert [] in ps[1..];
      1 + FirstEmpty(ps[1..])
  }

  // ----- the functions of the source -----

  /** What `packets_from_buffer` takes off `b` lies inside it and its length fits an `int`. */
  predicate CanParse(b: bytes) { HeadersInRange(b) && Unframe(b).len < INT_LIMIT }

  /** What four bytes say, the least significant first. */
  function Number32(b0: byte, b1: byte, b2: byte, b3: byte): int { b0 + 256 * (b1 + 256 * (b2 + 256 * b3 as int)) }

  /** When `packet_from_buffer` takes a packet, by the bytes of the buffer. */
  lemma FirstFrameIs(b: bytes)
    requires |b| >= 4
    ensures var n := Number32(b[0], b[1], b[2], b[3]);
      && FirstFrame(b) == (if 0 < n && n + 4 <= |b| then Some(b[4..n + 4]) else None)
      && (HeaderInRange(b) <==> n < 0xffff_fffc)
  {
  }

  lemma HeaderIs(n: nat)
    requires n < 0x1_0000_0000
    ensures var h := Header(n); |h| == 4 && Number32(h[0], h[1], h[2], h[3]) == n
  {
    HeaderReads(n, []);
    assert Header(n) + [] == Header(n);
  }

  /** `packet_from_buffer`: the length as `int`, 0 when there is no complete
      frame. It fails where the copy would leave the buffer, and where the
      length does not fit. */
  method PacketFromBuffer(buffer: bytes) returns (r: Result<(int, bytes)>)
    ensures r.Success? <==> HeaderInRange(buffer) && (FirstFrame(buffer).Some? ==> Le32(buffer) + 4 < INT_LIMIT)
    ensures r.Success? && FirstFrame(buffer).Some? ==>
      r.value.1 == FirstFrame(buffer).value && r.value.0 == |r.value.1| + 4
    ensures r.Success? && FirstFrame(buffer).None? ==> r.value.0 == 0
    ensures |buffer| >= 4 ==> var n := Number32(buffer[0], buffer[1], buffer[2], buffer[3]);
      r == if n >= 0xffff_fffc || (n + 4 <= |buffer| && n + 4 >= 0x8000_0000) then Failure
           else if 0 < n && n + 4 <= |buffer| then Success((n + 4, buffer[4..n + 4])) else Success((0, []))
  {
    if |buffer| >= 4 { FirstFrameIs(buffer); }
    if |buffer| < 4 {
      return Success((0, []));
    }
    var size: int := 0;
    size := size + buffer[0];
    size := size + 0x100 * buffer[1] as int;
    size := size + 0x1_0000 * buffer[2] as int;
    size := size + 0x100_0000 * buffer[3] as int;
    if size > 0 && |buffer| >= (size + 4) % UINT_LIMIT {
      if 4 + size > |buffer| || size + 4 >= INT_LIMIT {
        return Failure;
      }
      return Success((size + 4, buffer[4..4 + size]));
    }
    return Success((0, []));
  }

  /** What was taken so far, followed by what is still to be taken. */
  function Extend(packets: seq<bytes>, n: nat, u: Unframed): Unframed {
    Unframed(packets + u.packets, n + u.len)
  }

  lemma TakesOne(buffer: bytes, n: nat, packets: seq<bytes>, p: bytes)
    requires n <= |buffer| && FirstFrame(buffer[n..]) == Some(p)
    ensures var m := n + |p| + 4;
      m <= |buffer| && Unframe(buffer[n..]).len == |p| + 4 + Unframe(buffer[m..]).len &&
      (HeadersInRange(buffer[n..]) <==> HeaderInRange(buffer[n..]) && HeadersInRange(buffer[m..])) &&
      Extend(packets, n, Unframe(buffer[n..])) == Extend(packets + [p], m, Unframe(buffer[m..]))
  {
    hide FirstFrame, HeaderInRange, Frame;
    var b, m := buffer[n..], n + |p| + 4;
    FramesBack(b);
    assert b[|p| + 4..] == buffer[m..];
    var u := Unframe(buffer[m..]);
    assert packets + ([p] + u.packets) == (packets + [p]) + u.packets;
  }

  lemma TakesNoMore(buffer: bytes, n: nat, packets: seq<bytes>)
    requires n <= |buffer| && FirstFrame(buffer[n..]).None?
    ensures Unframe(buffer[n..]).len == 0 && Extend(packets, n, Unframe(buffer[n..])) == Unframed(packets, n)
    ensures HeadersInRange(buffer[n..]) <==> HeaderInRange(buffer[n..])
  {
  }

  /** The length of the first frame is the number in its header. */
  lemma FirstFrameLength(b: bytes)
    requires FirstFrame(b).Some?
    ensures |b| >= 4 && Le32(b) == |FirstFrame(b).value|
  {
  }

  /** `packets_from_buffer`: it fails exactly where a copy would leave the
      buffer or a length does not fit an `int`. */
  method PacketsFromBuffer(buffer: bytes) returns (r: Result<Unframed>)
    ensures r.Success? <==> CanParse(buffer)
    ensures r.Success? ==> r.value == Unframe(buffer)
  {
    hide FirstFrame, Unframe, HeaderInRange, HeadersInRange;
    var readLength: nat := 0;
    var packets: seq<bytes> := [];
    ghost var all := Unframe(buffer);
    assert buffer[0..] == buffer && [] + all.packets == all.packets;
    while true
      invariant 0 <= readLength <= |buffer| && readLength < INT_LIMIT
      invariant HeadersInRange(buffer[readLength..]) <==> HeadersInRange(buffer)
      invariant all == Extend(packets, readLength, Unframe(buffer[readLength..]))
      decreases |buffer| - readLength
    {
      if |buffer| <= readLength {
        NoFrameInNothing();
        assert buffer[readLength..] == [];
        TakesNoMore(buffer, readLength, packets);
        return Success(Unframed(packets, readLength));
      }
      var packetBuf := buffer[readLength..];
      var result := PacketFromBuffer(packetBuf);
      if FirstFrame(packetBuf).Some? {
        FirstFrameLength(packetBuf);
        TakesOne(buffer, readLength, packets, FirstFrame(packetBuf).value);
      } else {
        TakesNoMore(buffer, readLength, packets);
      }
      if result.Failure? {
        return Failure;
      }
      var (len, packet) := result.value;
      if len > 0 {
        if readLength + len >= INT_LIMIT {
          return Failure;
        }
        packets := packets + [packet];
        readLength := readLength + len;
      } else {
        return Success(Unframed(packets, readLength + len));
      }
    }
  }

  lemma NoFrameInNothing()
    ensures FirstFrame([]).None? && HeaderInRange([])
  {
  }

  /** `packet_to_buffer`: four pushes for the length, then the data. */
  method PacketToBuffer(data: bytes) returns (buffer: bytes)
    ensures buffer == Frame(data)
    ensures |buffer| == |data| + 4 && buffer[4..] == data
    ensures |data| < 0x1_0000_0000 ==> Number32(buffer[0], buffer[1], buffer[2], buffer[3]) == |data|
    ensures Frameable(data) ==> Unframe(buffer) == Unframed([data], |buffer|)
  {
    var size := |data|;
    buffer := [];
    buffer := buffer + [size % 0x100];
    buffer := buffer + [size / 0x100 % 0x100];
    buffer := buffer + [size / 0x1_0000 % 0x100];
    buffer := buffer + [size / 0x100_0000 % 0x100];
    ghost var header := buffer;
    assert header == Header(size);
    buffer := buffer + data;
    hide *;
    FrameIs(data, header);
  }

  lemma FrameIs(data: bytes, header: bytes)
    requires header == Header(|data|)
    ensures header + data == Frame(data) && |header| == 4 && (header + data)[4..] == data
    ensures |data| < 0x1_0000_0000 ==>
      var b := header + data; Number32(b[0], b[1], b[2], b[3]) == |data|
    ensures Frameable(data) ==> Unframe(header + data) == Unframed([data], |header + data|)
  {
    if |data| < 0x1_0000_0000 { HeaderIs(|data|); }
    hide Header, Unframe, Number32;
    if Frameable(data) {
      ReceivesWhatWasSent([data], []);
      assert [data][1..] == [] && Framed([data]) == Frame(data) + [];
      assert Framed([data]) + [] == Frame(data) == header + data;
    }
  }
}
