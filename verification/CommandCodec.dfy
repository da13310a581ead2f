/** GRAMS_TOF_CommandCodec: the framed packet format shared by commands, acknowledgements,
    callbacks and telemetry. */
module CommandCodec {
  import opened Prelude
  import opened Bytes
  import Crc16

  datatype Packet = Packet(code: word16, argc: word16, argv: seq<word32>)
  const HEADER1: word16 := 0xEB90
  const HEADER2: word16 := 0x5B6A
  const FOOTER1: word16 := 0xC5A4
  const FOOTER2: word16 := 0xD279

  /** Packets whose argument count describes their argument list. */
  predicate WellFormed(p: Packet)
  {
    p.argc == |p.argv|
  }

  function PacketSize(p: Packet): nat
  {
    14 + 4 * p.argc
  }

  function Head(code: word16, argc: word16): (d: seq<byte>)
    ensures |d| == 8
    ensures Read16(d, 0) == HEADER1 && Read16(d, 2) == HEADER2
    ensures Read16(d, 4) == code && Read16(d, 6) == argc
  {
    Write16(HEADER1) + Write16(HEADER2) + Write16(code) + Write16(argc)
  }

  function Tail(crc: word16): (d: seq<byte>)
    ensures |d| == 6
    ensures Read16(d, 0) == crc && Read16(d, 2) == FOOTER1 && Read16(d, 4) == FOOTER2
  {
    Write16(crc) + Write16(FOOTER1) + Write16(FOOTER2)
  }

  /** Everything the CRC covers. */
  function Payload(p: Packet): (d: seq<byte>)
    requires p.argc <= |p.argv|
    ensures |d| == 8 + 4 * p.argc
  {
    Head(p.code, p.argc) + WriteAll32(p.argv[..p.argc])
  }

  /** The wire image, with the computed CRC or a CRC imposed by the caller. */
  function Image(p: Packet, fixedCrc: Option<word16>): (d: seq<byte>)
    requires p.argc <= |p.argv|
    ensures |d| == PacketSize(p)
  {
    var payload := Payload(p);
    payload + Tail(if fixedCrc.Some? then fixedCrc.value else Crc16.Crc(payload))
  }

  function Serialize(p: Packet): (d: seq<byte>)
    requires p.argc <= |p.argv|
    ensures |d| == PacketSize(p)
  {
    Image(p, None)
  }

  /** serialize: pushes the fields one after the other, the arguments in a loop. */
  method SerializePacket(p: Packet, fixedCrc: Option<word16>) returns (buf: seq<byte>)
    requires p.argc <= |p.argv|
    ensures buf == Image(p, fixedCrc)
  {
    hide Write32, Crc16.Crc;
    buf := Write16(HEADER1);
    buf := buf + Write16(HEADER2);
    buf := buf + Write16(p.code);
    buf := buf + Write16(p.argc);
    var i := 0;
    while i < p.argc
      invariant 0 <= i <= p.argc
      invariant buf == Head(p.code, p.argc) + WriteAll32(p.argv[..i])
    {
      WriteAll32Concat(p.argv[..i], [p.argv[i]]);
      assert p.argv[..i + 1] == p.argv[..i] + [p.argv[i]];
      buf := buf + Write32(p.argv[i]);
      i := i + 1;
    }
    var crc: word16;
    match fixedCrc {
      case Some(c) => crc := c;
      case None => crc := Crc16.ComputeCrc(buf);
    }
    buf := buf + Write16(crc);
    buf := buf + Write16(FOOTER1);
    buf := buf + Write16(FOOTER2);
  }

  /** The checks of parse, in the order the code makes them. */
  function Parse(data: seq<byte>): Option<Packet>
  {
    if |data| < 12 then None
    else if Read16(data, 0) != HEADER1 || Read16(data, 2) != HEADER2 then None
    else
      var code, argc := Read16(data, 4), Read16(data, 6);
      var payloadSize: int := 8 + 4 * argc as int;
      if |data| < payloadSize + 6 then None
      else if Read16(data, payloadSize) != Crc16.Crc(data[..payloadSize]) then None
      else if Read16(data, payloadSize + 2) != FOOTER1 || Read16(data, payloadSize + 4) != FOOTER2 then None
      else Some(Packet(code, argc, ReadAll32(data, 8, argc)))
  }

  /** parse: the same checks, filling the argument list in a loop. */
  method ParsePacket(data: seq<byte>) returns (ok: bool, p: Packet)
    ensures ok == Parse(data).Some?
    ensures ok ==> p == Parse(data).value
  {
    hide Crc16.Crc, Read32;
    p := Packet(0, 0, []);
    if |data| < 12 { return false, p; }
    if Read16(data, 0) != HEADER1 || Read16(data, 2) != HEADER2 { return false, p; }
    var code, argc := Read16(data, 4), Read16(data, 6);
    var payloadSize: int := 8 + 4 * argc as int;
    var expectedSize := payloadSize + 2 + 2 + 2;
    if |data| < expectedSize { return false, p; }
    var computed := Crc16.ComputeCrc(data[..payloadSize]);
    if Read16(data, payloadSize) != computed { return false, p; }
    if Read16(data, payloadSize + 2) != FOOTER1 || Read16(data, payloadSize + 4) != FOOTER2 { return false, p; }
    var argv := [];
    var i: int := 0;
    while i < argc
      invariant 0 <= i <= argc && argv == ReadAll32(data, 8, i)
    {
      argv := argv + [Read32(data, 8 + i * 4)];
      i := i + 1;
    }
    return true, Packet(code, argc, argv);
  }

  // ----- The codec is an exact inverse -----

  lemma Read16Shift(pre: seq<byte>, d: seq<byte>, at: nat)
    requires at + 2 <= |d|
    ensures Read16(pre + d, |pre| + at) == Read16(d, at)
    ensures Read16(d + pre, at) == Read16(d, at)
  {
  }

  lemma HeadFields(code: word16, argc: word16, rest: seq<byte>)
    ensures var d := Head(code, argc) + rest;
            Read16(d, 0) == HEADER1 && Read16(d, 2) == HEADER2 && Read16(d, 4) == code && Read16(d, 6) == argc
  {
    var head := Head(code, argc);
    Read16Shift(rest, head, 0);
    Read16Shift(rest, head, 2);
    Read16Shift(rest, head, 4);
    Read16Shift(rest, head, 6);
  }

  lemma TailFields(payload: seq<byte>, crc: word16, rest: seq<byte>)
    ensures var d, n := payload + (Tail(crc) + rest), |payload|;
            Read16(d, n) == crc && Read16(d, n + 2) == FOOTER1 && Read16(d, n + 4) == FOOTER2
  {
    var tail := Tail(crc);
    Read16Shift(rest, tail, 0);
    Read16Shift(rest, tail, 2);
    Read16Shift(rest, tail, 4);
    Read16Shift(payload, tail + rest, 0);
    Read16Shift(payload, tail + rest, 2);
    Read16Shift(payload, tail + rest, 4);
  }

  /** A packet followed by anything parses to that packet. */
  lemma ParseOfSerialize(p: Packet, rest: seq<byte>)
    requires WellFormed(p)
    ensures Parse(Serialize(p) + rest) == Some(p)
  {
    ParseOfFrame(p, Payload(p), Tail(Crc16.Crc(Payload(p))), Serialize(p) + rest, rest);
  }

  lemma ParseOfFrame(p: Packet, payload: seq<byte>, tail: seq<byte>, data: seq<byte>, rest: seq<byte>)
    requires WellFormed(p)
    requires payload == Payload(p) && tail == Tail(Crc16.Crc(payload)) && data == payload + tail + rest
    ensures Parse(data) == Some(p)
  {
    FrameFields(p, payload, tail, data, rest);
    ParseOfFields(p, payload, data);
  }

  lemma FrameFields(p: Packet, payload: seq<byte>, tail: seq<byte>, data: seq<byte>, rest: seq<byte>)
    requires WellFormed(p)
    requires payload == Payload(p) && tail == Tail(Crc16.Crc(payload)) && data == payload + tail + rest
    ensures |payload| == 8 + 4 * p.argc && |data| >= |payload| + 6 && data[..|payload|] == payload
    ensures Read16(data, 0) == HEADER1 && Read16(data, 2) == HEADER2
    ensures Read16(data, 4) == p.code && Read16(data, 6) == p.argc
    ensures Read16(data, |payload|) == Crc16.Crc(payload)
    ensures Read16(data, |payload| + 2) == FOOTER1 && Read16(data, |payload| + 4) == FOOTER2
    ensures ReadAll32(data, 8, p.argc) == p.argv
  {
    hide Crc16.Crc;
    var head, body, crc := Head(p.code, p.argc), WriteAll32(p.argv), Crc16.Crc(payload);
    assert p.argv[..p.argc] == p.argv;
    assert data == head + (body + tail + rest);
    HeadFields(p.code, p.argc, body + tail + rest);
    assert data == payload + (tail + rest);
    TailFields(payload, crc, rest);
    assert data == head + body + (tail + rest);
    ReadOfWriteAll32(head, p.argv, tail + rest);
  }

  lemma ParseOfFields(p: Packet, payload: seq<byte>, data: seq<byte>)
    requires |payload| == 8 + 4 * p.argc && |data| >= |payload| + 6 && data[..|payload|] == payload
    requires Read16(data, 0) == HEADER1 && Read16(data, 2) == HEADER2
    requires Read16(data, 4) == p.code && Read16(data, 6) == p.argc
    requires Read16(data, |payload|) == Crc16.Crc(payload)
    requires Read16(data, |payload| + 2) == FOOTER1 && Read16(data, |payload| + 4) == FOOTER2
    requires ReadAll32(data, 8, p.argc) == p.argv
    ensures Parse(data) == Some(p)
  {
  }

  /** Whatever parses begins with the serialization of the result. */
  lemma SerializeOfParse(data: seq<byte>)
    requires Parse(data).Some?
    ensures var p := Parse(data).value;
            WellFormed(p) && PacketSize(p) <= |data| && data[..PacketSize(p)] == Serialize(p)
  {
    hide Parse, Crc16.Crc;
    var p := Parse(data).value;
    ParsedHead(data, p);
    var n: int := 8 + 4 * Read16(data, 6) as int;
    ParsedBody(data, p);
    ParsedTail(data, n);
    assert Payload(p) == data[..n] by { assert data[..n] == data[..8] + data[8..n]; }
    assert data[..n + 6] == data[..n] + data[n..n + 6];
  }

  lemma ParsedHead(data: seq<byte>, p: Packet)
    requires Parse(data) == Some(p)
    ensures |data| >= 14 && p.argc == Read16(data, 6) && Head(p.code, p.argc) == data[..8]
  {
    hide Crc16.Crc, ReadAll32;
    WriteOfRead16(data, 0);
    WriteOfRead16(data, 2);
    WriteOfRead16(data, 4);
    WriteOfRead16(data, 6);
    assert data[..8] == data[0..2] + data[2..4] + data[4..6] + data[6..8];
  }

  lemma ParsedBody(data: seq<byte>, p: Packet)
    requires Parse(data) == Some(p)
    ensures p.argc == |p.argv| && |data| >= 14 + 4 * p.argc
    ensures WriteAll32(p.argv[..p.argc]) == data[8..8 + 4 * p.argc]
  {
    hide Crc16.Crc, Read16;
    assert p.argv == ReadAll32(data, 8, p.argc);
    assert p.argv[..p.argc] == p.argv;
    WriteOfReadAll32(data, 8, p.argc);
  }

  lemma ParsedTail(data: seq<byte>, n: nat)
    requires Parse(data).Some? && n == 8 + 4 * Read16(data, 6)
    ensures |data| >= n + 6 && Tail(Crc16.Crc(data[..n])) == data[n..n + 6]
  {
    hide Crc16.Crc, ReadAll32;
    WriteOfRead16(data, n);
    WriteOfRead16(data, n + 2);
    WriteOfRead16(data, n + 4);
    assert data[n..n + 6] == data[n..n + 2] + data[n + 2..n + 4] + data[n + 4..n + 6];
  }

  /** parse accepts exactly the byte strings that begin with a serialized well-formed packet,
      and returns that packet. */
  lemma ParseExact(data: seq<byte>, p: Packet)
    ensures Parse(data) == Some(p) <==>
            WellFormed(p) && PacketSize(p) <= |data| && data[..PacketSize(p)] == Serialize(p)
  {
    if Parse(data) == Some(p) {
      SerializeOfParse(data);
    }
    if WellFormed(p) && PacketSize(p) <= |data| && data[..PacketSize(p)] == Serialize(p) {
      ParseOfPrefix(data, p);
    }
  }

  lemma ParseOfPrefix(data: seq<byte>, p: Packet)
    requires WellFormed(p) && PacketSize(p) <= |data| && data[..PacketSize(p)] == Serialize(p)
    ensures Parse(data) == Some(p)
  {
    hide Parse, Serialize;
    var n := PacketSize(p);
    assert data == data[..n] + data[n..];
    ParseOfSerialize(p, data[n..]);
  }

  /** The fields of a packet on the wire: fixed headers, code, count, arguments, the CRC of all that and
      fixed footers. */
  lemma WireFields(p: Packet, d: seq<byte>)
    requires WellFormed(p) && d == Serialize(p)
    ensures |d| == 14 + 4 * |p.argv|
    ensures Read16(d, 0) == 0xEB90 && Read16(d, 2) == 0x5B6A && Read16(d, 4) == p.code && Read16(d, 6) == |p.argv|
    ensures forall i :: 0 <= i < |p.argv| ==> Read32(d, 8 + 4 * i) == p.argv[i]
    ensures var n := 8 + 4 * |p.argv|;
            Read16(d, n) == Crc16.Crc(d[..n]) && Read16(d, n + 2) == 0xC5A4 && Read16(d, n + 4) == 0xD279
  {
    hide Crc16.Crc, Read16, Read32, Payload, Tail, Serialize;
    var payload := Payload(p);
    var tail := Tail(Crc16.Crc(payload));
    SerializeParts(p);
    assert d == payload + tail + [];
    FrameFields(p, payload, tail, d, []);
    var ws := ReadAll32(d, 8, |p.argv|);
    forall i | 0 <= i < |p.argv|
      ensures Read32(d, 8 + 4 * i) == p.argv[i]
    {
      assert ws[i] == p.argv[i];
    }
  }

  lemma SerializeParts(p: Packet)
    requires p.argc <= |p.argv|
    ensures Serialize(p) == Payload(p) + Tail(Crc16.Crc(Payload(p)))
  {
  }

  /** A CRC imposed by the caller replaces the computed one and nothing else. */
  lemma ImposedCrc(p: Packet, crc: word16, d: seq<byte>, s: seq<byte>)
    requires p.argc <= |p.argv| && d == Image(p, Some(crc)) && s == Serialize(p)
    ensures |d| == |s| == 14 + 4 * p.argc as int
    ensures var n := 8 + 4 * p.argc as int; d[..n] == s[..n] && d[n + 2..] == s[n + 2..] && Read16(d, n) == crc
  {
    hide Crc16.Crc, Payload;
    var payload := Payload(p);
    var t, u := Tail(crc), Tail(Crc16.Crc(payload));
    assert d == payload + t && s == payload + u;
    assert t[2..] == u[2..];
    Read16Shift(payload, t, 0);
  }

  /** The packet language is self-delimiting: one image never starts another. */
  lemma SelfDelimiting(p: Packet, q: Packet, x: seq<byte>, y: seq<byte>)
    requires WellFormed(p) && WellFormed(q)
    requires Serialize(p) + x == Serialize(q) + y
    ensures p == q && x == y
  {
    ParseOfSerialize(p, x);
    ParseOfSerialize(q, y);
    assert x == (Serialize(p) + x)[PacketSize(p)..];
    assert y == (Serialize(q) + y)[PacketSize(q)..];
  }
}
