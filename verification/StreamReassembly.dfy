/** The read loop of GRAMS_TOF_CommandClient::run as a function of the bytes received:
    what one drain of the buffer accepts, and why the cutting of the stream into reads
    does not matter. */
module StreamReassembly {
  import opened Prelude
  import opened Bytes
  import opened CommandCodec
  import Crc16

  const MIN_PACKET_SIZE: nat := 14

  /** How a drain ends: waiting for more bytes, or closing the connection. */
  datatype Outcome = Open | Corrupt | AckFailed

  datatype Drained = Drained(packets: seq<Packet>, rest: seq<byte>, outcome: Outcome)

  /** The size announced by the argument count at offset 6. */
  function FrameSize(buf: seq<byte>): (n: nat)
    requires |buf| >= MIN_PACKET_SIZE
    ensures n >= MIN_PACKET_SIZE
  {
    MIN_PACKET_SIZE + 4 * Read16(buf, 6) as int
  }

  predicate Incomplete(buf: seq<byte>)
  {
    |buf| < MIN_PACKET_SIZE || |buf| < FrameSize(buf)
  }

  /** The acknowledgement of a packet: its code and its size in bytes. */
  function Ack(p: Packet): (a: Packet)
    ensures WellFormed(a)
  {
    Packet(p.code, 1, [PacketSize(p)])
  }

  /** One pass of the loop: not enough bytes, a complete frame that does not parse, or a packet. */
  datatype Frame = Wait | Bad(rest: seq<byte>) | Good(packet: Packet, rest: seq<byte>)

  function NextFrame(buf: seq<byte>): (f: Frame)
    ensures !f.Wait? ==> |f.rest| < |buf|
  {
    if Incomplete(buf) then Wait
    else
      var n := FrameSize(buf);
      match Parse(buf[..n])
      case None => Bad(buf[n..])
      case Some(p) => Good(p, buf[n..])
  }

  /** Take complete packets off the front; acknowledgement number k is sent iff ackOk(k). */
  function Drain(buf: seq<byte>, acked: nat, ackOk: nat -> bool): Drained
    decreases |buf|
  {
    match NextFrame(buf)
    case Wait => Drained([], buf, Open)
    case Bad(rest) => Drained([], rest, Corrupt)
    case Good(p, rest) =>
      if !ackOk(acked) then Drained([], rest, AckFailed)
      else
        var d := Drain(rest, acked + 1, ackOk);
        d.(packets := [p] + d.packets)
  }

  /** One connection: bytes not yet framed, packets accepted so far, and whether it is still open. */
  datatype Connection = Connection(buffer: seq<byte>, accepted: seq<Packet>, outcome: Outcome)

  const Fresh := Connection([], [], Open)

  /** One successful read. A closed connection is never read again and its buffer is cleared. */
  function OnRead(c: Connection, chunk: seq<byte>, ackOk: nat -> bool): Connection
  {
    if c.outcome != Open then c
    else
      var d := Drain(c.buffer + chunk, |c.accepted|, ackOk);
      Connection(if d.outcome == Open then d.rest else [], c.accepted + d.packets, d.outcome)
  }

  function OnReads(c: Connection, chunks: seq<seq<byte>>, ackOk: nat -> bool): Connection
    decreases |chunks|
  {
    if chunks == [] then c else OnReads(OnRead(c, chunks[0], ackOk), chunks[1..], ackOk)
  }

  function Concat(chunks: seq<seq<byte>>): seq<byte>
  {
    if chunks == [] then [] else chunks[0] + Concat(chunks[1..])
  }

  predicate AllWellFormed(ps: seq<Packet>)
  {
    forall i :: 0 <= i < |ps| ==> WellFormed(ps[i])
  }

  function Images(ps: seq<Packet>): seq<byte>
    requires AllWellFormed(ps)
  {
    if ps == [] then [] else Serialize(ps[0]) + Images(ps[1..])
  }

  /** The sum of the sizes acknowledged for a list of packets. */
  function AckedBytes(ps: seq<Packet>): nat
  {
    if ps == [] then 0 else Ack(ps[0]).argv[0] + AckedBytes(ps[1..])
  }

  // ----- More bytes never change what has been decided -----

  lemma FrameStable(a: seq<byte>, b: seq<byte>)
    requires !NextFrame(a).Wait?
    ensures NextFrame(a + b) == NextFrame(a).(rest := NextFrame(a).rest + b)
  {
    hide Parse;
    var n := FrameSize(a);
    assert Read16(a + b, 6) == Read16(a, 6);
    assert (a + b)[..n] == a[..n];
    assert (a + b)[n..] == a[n..] + b;
  }

  /** What a drain becomes when more bytes arrive after it. */
  function Continue(d: Drained, more: seq<byte>, acked: nat, ackOk: nat -> bool): Drained
  {
    if d.outcome == Open
    then var next := Drain(d.rest + more, acked + |d.packets|, ackOk); next.(packets := d.packets + next.packets)
    else d.(rest := d.rest + more)
  }

  lemma ContinueCons(p: Packet, d: Drained, more: seq<byte>, acked: nat, ackOk: nat -> bool)
    ensures var c := Continue(d, more, acked + 1, ackOk);
            Continue(d.(packets := [p] + d.packets), more, acked, ackOk) == c.(packets := [p] + c.packets)
  {
    hide Drain;
    if d.outcome == Open {
      var next := Drain(d.rest + more, acked + 1 + |d.packets|, ackOk);
      assert [p] + (d.packets + next.packets) == ([p] + d.packets) + next.packets;
    }
  }

  lemma {:induction false} DrainSplit(a: seq<byte>, b: seq<byte>, acked: nat, ackOk: nat -> bool)
    ensures Drain(a + b, acked, ackOk) == Continue(Drain(a, acked, ackOk), b, acked, ackOk)
    decreases |a|
  {
    hide NextFrame;
    match NextFrame(a)
    case Wait =>
      var next := Drain(a + b, acked, ackOk);
      assert [] + next.packets == next.packets;
    case Bad(_) =>
      FrameStable(a, b);
    case Good(p, rest) =>
      FrameStable(a, b);
      if ackOk(acked) {
        DrainSplit(rest, b, acked + 1, ackOk);
        ContinueCons(p, Drain(rest, acked + 1, ackOk), b, acked, ackOk);
      }
  }

  /** Two reads are one longer read. */
  lemma OnReadTwice(c: Connection, a: seq<byte>, b: seq<byte>, ackOk: nat -> bool)
    ensures OnRead(OnRead(c, a, ackOk), b, ackOk) == OnRead(c, a + b, ackOk)
  {
    hide Drain;
    if c.outcome == Open {
      assert c.buffer + (a + b) == (c.buffer + a) + b;
      DrainSplit(c.buffer + a, b, |c.accepted|, ackOk);
      var d := Drain(c.buffer + a, |c.accepted|, ackOk);
      if d.outcome == Open {
        var more := Drain(d.rest + b, |c.accepted| + |d.packets|, ackOk);
        assert c.accepted + (d.packets + more.packets) == (c.accepted + d.packets) + more.packets;
      }
    }
  }

  /** Chunk invariance: however the stream is cut into reads, the connection ends up as if the
      whole stream had arrived at once; this includes the point where it closes. */
  lemma {:induction false} ChunkInvariance(c: Connection, first: seq<byte>, chunks: seq<seq<byte>>, ackOk: nat -> bool)
    ensures OnReads(OnRead(c, first, ackOk), chunks, ackOk) == OnRead(c, first + Concat(chunks), ackOk)
    decreases |chunks|
  {
    if chunks == [] {
      assert first + Concat(chunks) == first;
    } else {
      OnReadTwice(c, first, chunks[0], ackOk);
      assert first + Concat(chunks) == (first + chunks[0]) + Concat(chunks[1..]);
      ChunkInvariance(c, first + chunks[0], chunks[1..], ackOk);
    }
  }

  lemma ReadNothing(ackOk: nat -> bool)
    ensures OnRead(Fresh, [], ackOk) == Fresh
  {
    hide Parse;
  }

  /** Hence two cuttings of one stream are indistinguishable. */
  lemma CuttingsAgree(xs: seq<seq<byte>>, ys: seq<seq<byte>>, ackOk: nat -> bool)
    requires Concat(xs) == Concat(ys)
    ensures OnReads(Fresh, xs, ackOk) == OnReads(Fresh, ys, ackOk)
  {
    ReadNothing(ackOk);
    ChunkInvariance(Fresh, [], xs, ackOk);
    ChunkInvariance(Fresh, [], ys, ackOk);
  }

  // ----- What is accepted -----

  lemma GoodFrame(buf: seq<byte>)
    requires NextFrame(buf).Good?
    ensures var f := NextFrame(buf); WellFormed(f.packet) && buf == Serialize(f.packet) + f.rest
  {
    hide Serialize;
    var n := FrameSize(buf);
    SerializeOfParse(buf[..n]);
    assert buf[..n][..n] == buf[..n];
    assert buf == buf[..n] + buf[n..];
  }

  lemma WaitingFrame(buf: seq<byte>)
    ensures NextFrame(buf).Wait? <==> Incomplete(buf)
  {
    hide Parse;
  }

  lemma SerializedFrame(p: Packet, rest: seq<byte>)
    requires WellFormed(p)
    ensures NextFrame(Serialize(p) + rest) == Good(p, rest)
  {
    var s := Serialize(p);
    var buf := s + rest;
    ParseOfSerialize(p, []);
    assert s + [] == s;
    SerializedSize(p);
    Read16Shift(rest, s, 6);
    hide Parse, Serialize;
    assert buf[..|s|] == s && buf[|s|..] == rest;
  }

  lemma SerializedSize(p: Packet)
    requires WellFormed(p)
    ensures Read16(Serialize(p), 6) == p.argc
  {
    hide Crc16.Crc;
    var payload := Payload(p);
    var more := WriteAll32(p.argv[..p.argc]) + Tail(Crc16.Crc(payload));
    assert Serialize(p) == Head(p.code, p.argc) + more;
    Read16Shift(more, Head(p.code, p.argc), 6);
  }

  lemma {:induction false} DrainSound(buf: seq<byte>, acked: nat, ackOk: nat -> bool)
    ensures var d := Drain(buf, acked, ackOk);
            && AllWellFormed(d.packets)
            && (d.outcome == Open ==> buf == Images(d.packets) + d.rest && Incomplete(d.rest))
            && (forall k :: acked <= k < acked + |d.packets| ==> ackOk(k))
    decreases |buf|
  {
    hide NextFrame, Serialize;
    WaitingFrame(buf);
    match NextFrame(buf)
    case Wait =>
      assert buf == Images([]) + buf;
    case Bad(_) =>
    case Good(p, rest) =>
      if ackOk(acked) {
        GoodFrame(buf);
        DrainSound(rest, acked + 1, ackOk);
        var d := Drain(rest, acked + 1, ackOk);
        assert ([p] + d.packets)[1..] == d.packets;
        if d.outcome == Open {
          assert Images([p] + d.packets) == Serialize(p) + Images(d.packets);
          assert Serialize(p) + (Images(d.packets) + d.rest) == (Serialize(p) + Images(d.packets)) + d.rest;
        }
      }
  }

  /** A drain that closes the connection has accepted exactly the packets in front of the frame it
      stopped at: one that does not parse, or one whose acknowledgement failed. */
  lemma {:induction false} DrainStops(buf: seq<byte>, acked: nat, ackOk: nat -> bool)
    ensures var d := Drain(buf, acked, ackOk);
            AllWellFormed(d.packets) && (d.outcome != Open ==> StopsAt(buf, d, acked, ackOk))
    decreases |buf|
  {
    hide NextFrame, Serialize;
    match NextFrame(buf)
    case Wait =>
    case Bad(_) =>
      assert buf[0..] == buf;
    case Good(p, rest) =>
      assert buf[0..] == buf;
      if ackOk(acked) {
        GoodFrame(buf);
        DrainStops(rest, acked + 1, ackOk);
        var d := Drain(rest, acked + 1, ackOk);
        assert ([p] + d.packets)[1..] == d.packets;
        if d.outcome != Open {
          var s, n := Serialize(p), |Images(d.packets)|;
          assert Images([p] + d.packets) == s + Images(d.packets);
          assert (s + rest)[..|s| + n] == s + rest[..n] && (s + rest)[|s| + n..] == rest[n..];
        }
      }
  }

  /** The buffer is the images of the accepted packets, then the frame that closed the connection. */
  predicate StopsAt(buf: seq<byte>, d: Drained, acked: nat, ackOk: nat -> bool)
    requires AllWellFormed(d.packets)
  {
    var n := |Images(d.packets)|;
    && n <= |buf| && buf[..n] == Images(d.packets)
    && match NextFrame(buf[n..]) {
         case Wait => false
         case Bad(rest) => d.outcome == Corrupt && d.rest == rest
         case Good(_, rest) => d.outcome == AckFailed && d.rest == rest && !ackOk(acked + |d.packets|)
       }
  }

  lemma {:induction false} DrainComplete(ps: seq<Packet>, rest: seq<byte>, acked: nat, ackOk: nat -> bool)
    requires AllWellFormed(ps)
    requires forall k :: acked <= k < acked + |ps| ==> ackOk(k)
    requires Incomplete(rest)
    ensures Drain(Images(ps) + rest, acked, ackOk) == Drained(ps, rest, Open)
    decreases |ps|
  {
    hide NextFrame, Serialize;
    if ps == [] {
      WaitingFrame(rest);
      assert Images(ps) + rest == rest;
    } else {
      assert Images(ps) + rest == Serialize(ps[0]) + (Images(ps[1..]) + rest);
      SerializedFrame(ps[0], Images(ps[1..]) + rest);
      DrainComplete(ps[1..], rest, acked + 1, ackOk);
    }
  }

  /** A drain ends open with packets ps and leftover rest exactly when the buffer is the images
      of ps followed by an incomplete frame and every acknowledgement was sent. */
  lemma DrainExact(buf: seq<byte>, ps: seq<Packet>, rest: seq<byte>, acked: nat, ackOk: nat -> bool)
    ensures Drain(buf, acked, ackOk) == Drained(ps, rest, Open) <==>
            && AllWellFormed(ps) && buf == Images(ps) + rest && Incomplete(rest)
            && forall k :: acked <= k < acked + |ps| ==> ackOk(k)
  {
    hide Drain, Serialize;
    if Drain(buf, acked, ackOk) == Drained(ps, rest, Open) {
      DrainSound(buf, acked, ackOk);
    }
    if && AllWellFormed(ps) && buf == Images(ps) + rest && Incomplete(rest)
       && forall k :: acked <= k < acked + |ps| ==> ackOk(k) {
      DrainComplete(ps, rest, acked, ackOk);
    }
  }

  lemma {:induction false} AckedBytesIsLength(ps: seq<Packet>)
    requires AllWellFormed(ps)
    ensures AckedBytes(ps) == |Images(ps)|
  {
    if ps != [] { AckedBytesIsLength(ps[1..]); }
  }

  /** A whole connection is one greedy drain of the bytes it received. */
  lemma ConnectionIsOneDrain(chunks: seq<seq<byte>>, ackOk: nat -> bool)
    ensures var d := Drain(Concat(chunks), 0, ackOk);
            OnReads(Fresh, chunks, ackOk) == Connection(if d.outcome == Open then d.rest else [], d.packets, d.outcome)
  {
    hide NextFrame;
    var stream := Concat(chunks);
    ReadNothing(ackOk);
    ChunkInvariance(Fresh, [], chunks, ackOk);
    assert [] + stream == stream && Fresh.buffer + stream == stream;
    var d := Drain(stream, 0, ackOk);
    assert Fresh.accepted + d.packets == d.packets;
  }

  /** While the connection is open the acknowledged sizes add up to exactly the bytes that have left
      the buffer; once it has closed they add up to the bytes in front of the frame that closed it,
      the only frame taken off the buffer without an acknowledgement. */
  lemma AcksAccountForBytes(chunks: seq<seq<byte>>, ackOk: nat -> bool)
    ensures var c, stream := OnReads(Fresh, chunks, ackOk), Concat(chunks);
            var n := AckedBytes(c.accepted);
            && AllWellFormed(c.accepted) && n <= |stream| && stream[..n] == Images(c.accepted)
            && match c.outcome
               case Open => c.buffer == stream[n..]
               case Corrupt => NextFrame(stream[n..]).Bad? && c.buffer == []
               case AckFailed => NextFrame(stream[n..]).Good? && !ackOk(|c.accepted|) && c.buffer == []
  {
    hide Drain, Serialize, NextFrame;
    var stream := Concat(chunks);
    ConnectionIsOneDrain(chunks, ackOk);
    DrainSound(stream, 0, ackOk);
    DrainStops(stream, 0, ackOk);
    AckedBytesIsLength(Drain(stream, 0, ackOk).packets);
  }

  /** A sender that only sends well-formed packets has all of them accepted, in order, however
      the network fragments them, and the connection never closes. */
  lemma SenderToReceiver(ps: seq<Packet>, chunks: seq<seq<byte>>, ackOk: nat -> bool)
    requires AllWellFormed(ps)
    requires forall k :: 0 <= k < |ps| ==> ackOk(k)
    requires Concat(chunks) == Images(ps)
    ensures OnReads(Fresh, chunks, ackOk) == Connection([], ps, Open)
  {
    hide Drain, Serialize;
    ConnectionIsOneDrain(chunks, ackOk);
    assert Concat(chunks) == Images(ps) + [];
    DrainComplete(ps, [], 0, ackOk);
  }
}
