/** tof_bridge.py: the ground station's own decoding of telemetry packets, from the raw bytes of a
    message to the row it stores. The text decoder (UTF-8, dropping what does not decode) is a
    parameter; floats and doubles are their bit patterns. */
module TelemetryBridge {
  import opened Bytes
  import opened HostMemory
  import opened CommandCodec
  import Crc16
  import LogCodec
  import MonitorCodec

  type Decoder = seq<byte> -> string

  datatype Row =
    | LogRow(run: word32, timestamp: word64, level: byte, component: string, message: string)
    | HistogramRow(run: word32, name: string, bins: seq<word32>, kind: word32, nx: word32, xmin: word32,
                   xmax: word32, ny: word32, ymin: word32, ymax: word32)
    | GraphRow(run: word32, name: string, points: seq<(word64, word64)>)
    | ParameterRow(run: word32, name: string, value: word64)

  /** A message is dropped, or stored as a row. */
  datatype Outcome = Dropped | Stored(row: Row)

  // ----- Text -----

  function StripLeft(s: string): string
  {
    if |s| > 0 && s[0] == '\0' then StripLeft(s[1..]) else s
  }

  function StripRight(s: string): string
  {
    if |s| > 0 && s[|s| - 1] == '\0' then StripRight(s[..|s| - 1]) else s
  }

  function Strip(s: string): string
  {
    StripRight(StripLeft(s))
  }

  function Reversed(b: seq<byte>): (r: seq<byte>)
    ensures |r| == |b|
    ensures forall i :: 0 <= i < |b| ==> r[i] == b[|b| - 1 - i]
  {
    seq(|b|, i requires 0 <= i < |b| => b[|b| - 1 - i])
  }

  /** Each run of four bytes reversed, a shorter last run included. */
  function SwapChunks(b: seq<byte>): seq<byte>
  {
    if |b| == 0 then []
    else if |b| <= 4 then Reversed(b)
    else Reversed(b[..4]) + SwapChunks(b[4..])
  }

  function DecodeName(raw: seq<byte>, text: Decoder): string
  {
    Strip(text(SwapChunks(raw)))
  }

  // ----- Handlers -----

  function HandleLog(payload: seq<byte>, text: Decoder): Outcome
  {
    if |payload| < 50 then Dropped
    else
      var words := (|payload| - 14) / 4;
      if words < 9 then Dropped
      else
        var argv := ReadAll32(payload, 8, words);
        var length: int := argv[4];
        var component := DecodeName(WriteAll32(argv[5..9]), text);
        var last := 9 + (length + 3) / 4;
        var message :=
          if length > 0 && words >= last then
            var fixed := SwapChunks(WriteAll32(argv[9..last]));
            text(if length <= |fixed| then fixed[..length] else fixed)
          else "";
        Stored(LogRow(argv[0], Join(argv[1], argv[2]), argv[3] % 0x100, component, message))
  }

  /** Underflow and overflow bins included, except for profiles, which have three numbers a bin. */
  function BinCount(kind: word32, nx: nat, ny: nat): nat
  {
    if kind == 3 then nx * 3 else if kind == 2 then (nx + 2) * (ny + 2) else nx + 2
  }

  function BinsToRead(payload: seq<byte>): (n: nat)
    requires |payload| >= 56
    ensures 56 + 4 * n <= |payload|
  {
    var bins := BinCount(Read32(payload, 28), Read32(payload, 32), Read32(payload, 44));
    var available := (|payload| - 56) / 4;
    if bins <= available then bins else available
  }

  /** _handle_histogram, reached for data type 1 only. */
  function HandleHistogram(payload: seq<byte>, text: Decoder): Outcome
  {
    if |payload| < 56 then Dropped
    else
      var kind, nx, ny := Read32(payload, 28), Read32(payload, 32), Read32(payload, 44);
      var ymin := if kind == 2 then Read32(payload, 48) else 0;
      var ymax := if kind == 2 then Read32(payload, 52) else 0;
      Stored(HistogramRow(Read32(payload, 8), DecodeName(payload[12..28], text),
                          ReadAll32(payload, 56, BinsToRead(payload)),
                          kind, nx, Read32(payload, 36), Read32(payload, 40), ny, ymin, ymax))
  }

  function Point(payload: seq<byte>, i: nat): (word64, word64)
    requires 52 + 16 * i <= |payload|
  {
    var base := 36 + 16 * i;
    (Join(Read32(payload, base), Read32(payload, base + 4)),
     Join(Read32(payload, base + 8), Read32(payload, base + 12)))
  }

  function PointsToRead(payload: seq<byte>): (n: nat)
    requires |payload| >= 36
    ensures 36 + 16 * n <= |payload|
  {
    var announced, available := Read32(payload, 32), (|payload| - 36) / 16;
    if announced <= available then announced else available
  }

  function HandleGraph(payload: seq<byte>, text: Decoder): Outcome
  {
    if |payload| < 36 then Dropped
    else
      var n := PointsToRead(payload);
      Stored(GraphRow(Read32(payload, 8), DecodeName(payload[12..28], text),
                      seq(n, i requires 0 <= i < n => Point(payload, i))))
  }

  /** _handle_graph: the points are appended one by one. */
  method StoreGraph(payload: seq<byte>, text: Decoder) returns (r: Outcome)
    ensures r == HandleGraph(payload, text)
  {
    hide Read32, DecodeName, Point;
    if |payload| < 36 { return Dropped; }
    var n := PointsToRead(payload);
    var points := [];
    for i := 0 to n
      invariant points == seq(i, j requires 0 <= j < i => Point(payload, j))
    {
      points := points + [Point(payload, i)];
    }
    return Stored(GraphRow(Read32(payload, 8), DecodeName(payload[12..28], text), points));
  }

  function HandleParameter(payload: seq<byte>, text: Decoder): Outcome
  {
    if |payload| < 40 then Dropped
    else
      Stored(ParameterRow(Read32(payload, 8), DecodeName(payload[12..28], text),
                          Join(Read32(payload, 32), Read32(payload, 36))))
  }

  function HandleMonitor(payload: seq<byte>, text: Decoder): Outcome
  {
    if |payload| < 32 then Dropped
    else
      var kind := Read32(payload, 28);
      if kind == 1 then HandleHistogram(payload, text)
      else if kind == 4 then HandleGraph(payload, text)
      else if kind == 5 then HandleParameter(payload, text)
      else Dropped
  }

  /** on_message: dispatch on the packet code. The bridge checks neither headers, count nor CRC. */
  function OnMessage(payload: seq<byte>, text: Decoder): Outcome
  {
    if |payload| < 8 then Dropped
    else
      var code := Read16(payload, 4);
      if code == 0x5400 then HandleMonitor(payload, text)
      else if code == 0x5401 then HandleLog(payload, text)
      else Dropped
  }

  // ----- The bridge sees the packet's fields -----

  /** What the bridge's offsets hit in a serialized packet. */
  lemma OnWire(p: Packet)
    requires WellFormed(p)
    ensures var d, n := Serialize(p), |p.argv|;
            |d| == 14 + 4 * n && Read16(d, 4) == p.code && ReadAll32(d, 8, n) == p.argv
    ensures var d, n := Serialize(p), |p.argv|;
            forall i :: 0 <= i < n ==> Read32(d, 8 + 4 * i) == p.argv[i]
    ensures var d, n := Serialize(p), |p.argv|;
            Read16(d, 8 + 4 * n) == Crc16.Crc(Payload(p)) && Read16(d, 10 + 4 * n) == FOOTER1
  {
    hide Crc16.Crc, Payload, Tail, Read16, Read32;
    var payload := Payload(p);
    var tail, d := Tail(Crc16.Crc(payload)), Serialize(p);
    assert d == payload + tail + [];
    FrameFields(p, payload, tail, d, []);
    var ws := ReadAll32(d, 8, |p.argv|);
    forall i | 0 <= i < |p.argv|
      ensures Read32(d, 8 + 4 * i) == p.argv[i]
    {
      assert ws[i] == p.argv[i];
    }
  }

  /** Messages without a code, with another code or of an unknown data type are dropped. */
  lemma UnknownDropped(payload: seq<byte>, text: Decoder)
    ensures |payload| < 8 ==> OnMessage(payload, text) == Dropped
    ensures |payload| >= 8 && Read16(payload, 4) != 0x5400 && Read16(payload, 4) != 0x5401 ==> OnMessage(payload, text) == Dropped
    ensures |payload| >= 32 && Read16(payload, 4) == 0x5400 && Read32(payload, 28) !in {1, 4, 5} ==> OnMessage(payload, text) == Dropped
  {
    hide Read16, Read32, HandleHistogram, HandleGraph, HandleParameter, HandleLog;
  }

  /** Swapping the wire image of words gives their memory image. */
  lemma {:induction false} SwapOfWrite(ws: seq<word32>)
    ensures SwapChunks(WriteAll32(ws)) == Unpack(ws)
  {
    if |ws| > 0 {
      var w, rest := ws[0], WriteAll32(ws[1..]);
      WireIsReversed(w);
      ReversedWord(w);
      SwapOfWrite(ws[1..]);
      SwapStep(Write32(w), rest);
    }
  }

  lemma ReversedWord(w: word32)
    ensures Reversed(Write32(w)) == BytesOf(w)
  {
    hide Write32, BytesOf;
    WireIsReversed(w);
  }

  lemma SwapStep(a: seq<byte>, rest: seq<byte>)
    requires |a| == 4
    ensures SwapChunks(a + rest) == Reversed(a) + SwapChunks(rest)
  {
    hide Reversed;
    assert (a + rest)[..4] == a && (a + rest)[4..] == rest;
    if |rest| == 0 { assert a + rest == a; }
  }

  lemma NameOnWire(p: Packet, text: Decoder)
    requires WellFormed(p) && |p.argv| >= 5
    ensures |Serialize(p)| >= 28 && DecodeName(Serialize(p)[12..28], text) == Strip(text(CopyName(p.argv, 1)))
  {
    hide Serialize, Read32, Unpack, WriteAll32, Strip, SwapChunks, ReadAll32, Crc16.Crc, Payload, Read16;
    OnWire(p);
    var d := Serialize(p);
    WriteOfReadAll32(d, 12, 4);
    var ws := ReadAll32(d, 12, 4);
    NameWords(p, ws);
    SwapOfWrite(ws);
  }

  lemma NameWords(p: Packet, ws: seq<word32>)
    requires WellFormed(p) && |p.argv| >= 5 && ws == ReadAll32(Serialize(p), 12, 4)
    ensures ws == p.argv[1..5]
  {
    hide Serialize, Read32, Crc16.Crc, Payload, Read16;
    OnWire(p);
    var d := Serialize(p);
    forall i | 0 <= i < 4
      ensures ws[i] == p.argv[1 + i]
    {
      assert Read32(d, 12 + 4 * i) == Read32(d, 8 + 4 * (1 + i));
    }
  }

  // ----- The two decoders agree on every packet -----

  function TextOf(m: seq<byte>, text: Decoder): string
  {
    if m == [] then "" else text(m)
  }

  function RowOfLog(d: LogCodec.LogData, component: Name, text: Decoder): Row
  {
    LogRow(d.run, d.timestamp, d.level, Strip(text(component)), TextOf(d.message, text))
  }

  /** The bridge stores what the flight decoder would return for every log packet the decoder
      accepts, keeping the last component byte that the decoder clears; both drop packets without
      a header; and where the decoder refuses or overruns, the bridge stores an empty message. */
  lemma LogDecodersAgree(p: Packet, text: Decoder)
    requires WellFormed(p) && p.code == LogCodec.LOGGER_DATA_STREAM
    ensures var r := LogCodec.Decode(p);
            OnMessage(Serialize(p), text) ==
              if |p.argv| < 9 then Dropped
              else if r.Done? then Stored(RowOfLog(r.value, CopyName(p.argv, 5), text))
              else Stored(LogRow(p.argv[0], Join(p.argv[1], p.argv[2]), p.argv[3] % 0x100,
                                 Strip(text(CopyName(p.argv, 5))), ""))
  {
    hide Serialize, Crc16.Crc, Payload, Read32, Strip, Join, Unpack, WriteAll32, SwapChunks;
    OnWire(p);
    var n := |p.argv|;
    if n >= 9 {
      LogCodec.OverrunIff(p);
      SwapOfWrite(p.argv[5..9]);
      var length: int := p.argv[4];
      var last := 9 + (length + 3) / 4;
      if length <= 4 * (n - 9) {
        LogMessage(p, length, last);
      }
    }
  }

  lemma LogMessage(p: Packet, length: nat, last: nat)
    requires |p.argv| >= 9 && length <= 4 * (|p.argv| - 9) && last == 9 + (length + 3) / 4
    ensures last <= |p.argv| && length <= |SwapChunks(WriteAll32(p.argv[9..last]))|
    ensures SwapChunks(WriteAll32(p.argv[9..last]))[..length] == Unpack(p.argv[9..])[..length]
  {
    hide WriteAll32, SwapChunks, Unpack;
    SwapOfWrite(p.argv[9..last]);
    UnpackConcat(p.argv[9..last], p.argv[last..]);
    assert p.argv[9..] == p.argv[9..last] + p.argv[last..];
  }

  /** The bins the bridge takes for a histogram with bins bs: nx + 2 of them, from a list that runs
      on into the CRC and the first footer. */
  function BridgeBins(bs: seq<word32>, nx: word32, crc: word16): seq<word32>
  {
    if nx + 2 <= |bs| then bs[..nx + 2] else bs + [crc * 0x1_0000 + FOOTER1]
  }

  lemma BinsOnWire(p: Packet, m: nat)
    requires WellFormed(p) && |p.argv| >= 12 && m <= |p.argv| - 11
    ensures |Serialize(p)| >= 56 + 4 * m
    ensures ReadAll32(Serialize(p), 56, m) ==
            (p.argv[12..] + [Crc16.Crc(Payload(p)) * 0x1_0000 + FOOTER1])[..m]
  {
    hide Serialize, Crc16.Crc, Payload, Read16;
    OnWire(p);
    var d, n := Serialize(p), |p.argv|;
    var all := p.argv[12..] + [Crc16.Crc(Payload(p)) * 0x1_0000 + FOOTER1];
    forall i | 0 <= i < m
      ensures Read32(d, 56 + 4 * i) == all[i]
    {
      if i < n - 12 {
        assert Read32(d, 56 + 4 * i) == Read32(d, 8 + 4 * (12 + i));
      } else {
        assert 56 + 4 * i == 8 + 4 * n;
      }
    }
    assert ReadAll32(d, 56, m) == all[..m];
  }

  /** The word after the arguments is the CRC and the first footer. */
  lemma WordAfterArguments(p: Packet)
    requires WellFormed(p)
    ensures |Serialize(p)| == 14 + 4 * |p.argv| && Read32(Serialize(p), 8 + 4 * |p.argv|) == TailWord(p)
  {
    hide Serialize, Crc16.Crc, Payload, Read16, ReadAll32;
    OnWire(p);
  }

  function TailWord(p: Packet): word32
    requires p.argc <= |p.argv|
  {
    Crc16.Crc(Payload(p)) * 0x1_0000 + FOOTER1
  }

  /** Monitor packets too short to hold a data type are dropped: the word read in its place ends in
      the first footer, which is no data type. */
  lemma ShortMonitorDropped(p: Packet, text: Decoder)
    requires WellFormed(p) && p.code == MonitorCodec.MONITOR_DATA_STREAM && |p.argv| < 6
    ensures OnMessage(Serialize(p), text) == Dropped
  {
    hide Serialize, Crc16.Crc, Payload, Read32, Read16, ReadAll32;
    OnWire(p);
    WordAfterArguments(p);
  }

  /** For every one-dimensional histogram the decoder accepts the bridge stores the same fields.
      It refuses packets of fewer than 12 words, and the bridge drops them too, except that it
      stores one of 11 words without bins. */
  lemma HistogramDecodersAgree(p: Packet, text: Decoder)
    requires WellFormed(p) && p.code == MonitorCodec.MONITOR_DATA_STREAM
    requires |p.argv| >= 6 && p.argv[5] == MonitorCodec.TH1F
    ensures MonitorCodec.DecodeHistogram(p).Done? <==> |p.argv| >= 12
    ensures |p.argv| >= 12 ==>
              var r := MonitorCodec.DecodeHistogram(p).value;
              OnMessage(Serialize(p), text) ==
                Stored(HistogramRow(r.run, Strip(text(r.name)), BridgeBins(r.bins, r.nx, Crc16.Crc(Payload(p))),
                                    r.kind, r.nx, r.xmin, r.xmax, r.ny, 0, 0))
    ensures |p.argv| == 11 ==>
              OnMessage(Serialize(p), text) ==
                Stored(HistogramRow(p.argv[0], Strip(text(CopyName(p.argv, 1))), [],
                                    p.argv[5], p.argv[6], p.argv[7], p.argv[8], p.argv[9], 0, 0))
    ensures |p.argv| < 11 ==> OnMessage(Serialize(p), text) == Dropped
  {
    hide Serialize, Crc16.Crc, Payload, Read32, Strip, DecodeName, CopyName, ReadAll32, Read16;
    OnWire(p);
    NameOnWire(p, text);
    var d, n := Serialize(p), |p.argv|;
    Header(p, n);
    assert OnMessage(d, text) == HandleHistogram(d, text);
    if n >= 12 {
      BinsOnWire(p, BinsToRead(d));
      assert ReadAll32(d, 56, BinsToRead(d)) == BridgeBins(p.argv[12..], p.argv[6], Crc16.Crc(Payload(p)));
    } else if n == 11 {
      assert BinsToRead(d) == 0;
    }
  }

  /** The fixed fields at the bridge's offsets. */
  lemma Header(p: Packet, n: nat)
    requires WellFormed(p) && n <= |p.argv|
    ensures var d := Serialize(p);
            && (n >= 1 ==> Read32(d, 8) == p.argv[0])
            && (n >= 6 ==> Read32(d, 28) == p.argv[5])
            && (n >= 7 ==> Read32(d, 32) == p.argv[6])
            && (n >= 8 ==> Read32(d, 36) == p.argv[7])
            && (n >= 10 ==> Read32(d, 40) == p.argv[8] && Read32(d, 44) == p.argv[9])
  {
    hide Serialize, Crc16.Crc, Payload, Read32, Read16, ReadAll32;
    OnWire(p);
    var d := Serialize(p);
    assert n >= 1 ==> Read32(d, 8 + 4 * 0) == p.argv[0];
    assert n >= 6 ==> Read32(d, 8 + 4 * 5) == p.argv[5];
    assert n >= 7 ==> Read32(d, 8 + 4 * 6) == p.argv[6];
    assert n >= 8 ==> Read32(d, 8 + 4 * 7) == p.argv[7];
    assert n >= 10 ==> Read32(d, 8 + 4 * 8) == p.argv[8] && Read32(d, 8 + 4 * 9) == p.argv[9];
  }

  /** The stored bins are the first nx + 2 of the histogram exactly when it has that many; otherwise
      one invented bin follows. */
  lemma BinsAreHistogramsIff(bs: seq<word32>, nx: word32, crc: word16)
    ensures BridgeBins(bs, nx, crc) <= bs <==> nx + 2 <= |bs|
    ensures nx + 2 <= |bs| ==> BridgeBins(bs, nx, crc) == bs[..nx + 2]
    ensures nx + 2 > |bs| ==> BridgeBins(bs, nx, crc) == bs + [crc * 0x1_0000 + 0xC5A4]
  {
  }

  function Zip(x: seq<word64>, y: seq<word64>): seq<(word64, word64)>
    requires |x| == |y|
  {
    seq(|x|, i requires 0 <= i < |x| => (x[i], y[i]))
  }

  lemma PointOnWire(p: Packet, i: nat)
    requires WellFormed(p) && 11 + 4 * i <= |p.argv|
    ensures |Serialize(p)| >= 52 + 16 * i
    ensures MonitorCodec.PointIndex(i, 0) == 7 + 4 * i && MonitorCodec.PointIndex(i, 1) == 8 + 4 * i
    ensures MonitorCodec.PointIndex(i, 2) == 9 + 4 * i && MonitorCodec.PointIndex(i, 3) == 10 + 4 * i
    ensures Point(Serialize(p), i) == (MonitorCodec.XAt(p.argv, i), MonitorCodec.YAt(p.argv, i))
    ensures Point(Serialize(p), i) == (Join(p.argv[7 + 4 * i], p.argv[8 + 4 * i]), Join(p.argv[9 + 4 * i], p.argv[10 + 4 * i]))
  {
    hide Serialize, Crc16.Crc, Payload, Read32, Read16, ReadAll32, Join;
    OnWire(p);
    var d, at := Serialize(p), 7 + 4 * i;
    assert Read32(d, 8 + 4 * at) == p.argv[at];
    assert Read32(d, 8 + 4 * (at + 1)) == p.argv[at + 1];
    assert Read32(d, 8 + 4 * (at + 2)) == p.argv[at + 2];
    assert Read32(d, 8 + 4 * (at + 3)) == p.argv[at + 3];
  }

  /** For every graph the decoder accepts the bridge stores the same points. */
  lemma GraphDecodersAgree(p: Packet, text: Decoder)
    requires WellFormed(p) && p.code == MonitorCodec.MONITOR_DATA_STREAM && MonitorCodec.DecodeGraphSpec(p).Done?
    ensures var r := MonitorCodec.DecodeGraphSpec(p).value;
            |r.x| == |r.y| &&
            OnMessage(Serialize(p), text) == Stored(GraphRow(r.run, Strip(text(r.name)), Zip(r.x, r.y)))
  {
    hide Serialize, Crc16.Crc, Payload, Read32, Read16, ReadAll32, Strip, DecodeName, CopyName, Point,
      MonitorCodec.XAt, MonitorCodec.YAt, MonitorCodec.PointIndex, MonitorCodec.InBounds;
    var d, r, n := Serialize(p), MonitorCodec.DecodeGraphSpec(p).value, p.argv[6];
    OnWire(p);
    NameOnWire(p, text);
    Header(p, 7);
    MonitorCodec.InBoundsIff(p.argv, n);
    assert PointsToRead(d) == n;
    forall i | 0 <= i < n
      ensures |d| >= 52 + 16 * i && Point(d, i) == (r.x[i], r.y[i])
    {
      PointOnWire(p, i);
    }
    assert seq(n, i requires 0 <= i < n => Point(d, i)) == Zip(r.x, r.y);
  }

  /** Where the decoder refuses a graph for want of a point count, the bridge stores one without
      points; where it overruns, the bridge stores the points that are there, and one whose last
      word is the CRC and footer when three words are left over. */
  lemma RefusedGraphsStored(p: Packet, text: Decoder)
    requires WellFormed(p) && p.code == MonitorCodec.MONITOR_DATA_STREAM
    requires |p.argv| >= 6 && p.argv[5] == MonitorCodec.TGRAPH && !MonitorCodec.DecodeGraphSpec(p).Done?
    ensures var r, words := OnMessage(Serialize(p), text), |p.argv| - 7;
            && r.Stored? && r.row.GraphRow? && r.row.run == p.argv[0] && r.row.name == Strip(text(CopyName(p.argv, 1)))
            && (words < 0 ==> r.row.points == [])
            && (words >= 0 ==> |r.row.points| == words / 4 + if words % 4 == 3 then 1 else 0)
            && (words >= 0 && words % 4 == 3 ==>
                  var k := words / 4;
                  r.row.points[k] == (Join(p.argv[7 + 4 * k], p.argv[8 + 4 * k]), Join(p.argv[9 + 4 * k], TailWord(p))))
            && (forall i :: 0 <= i < words / 4 && words >= 0 ==>
                  i < |r.row.points| && 11 + 4 * i <= |p.argv| &&
                  r.row.points[i] == (Join(p.argv[7 + 4 * i], p.argv[8 + 4 * i]), Join(p.argv[9 + 4 * i], p.argv[10 + 4 * i])))
  {
    hide Serialize, Crc16.Crc, Payload, Read32, Read16, ReadAll32, Strip, DecodeName, CopyName, Point, Join,
      MonitorCodec.PointIndex, MonitorCodec.InBounds;
    var d := Serialize(p);
    OnWire(p);
    NameOnWire(p, text);
    Header(p, |p.argv|);
    assert OnMessage(d, text) == HandleGraph(d, text);
    if |p.argv| >= 7 {
      MonitorCodec.InBoundsIff(p.argv, p.argv[6]);
      var words := |p.argv| - 7;
      assert PointsToRead(d) == words / 4 + if words % 4 == 3 then 1 else 0;
      forall i | 0 <= i < words / 4
        ensures 11 + 4 * i <= |p.argv| && |d| >= 52 + 16 * i
        ensures Point(d, i) == (Join(p.argv[7 + 4 * i], p.argv[8 + 4 * i]), Join(p.argv[9 + 4 * i], p.argv[10 + 4 * i]))
      {
        PointOnWire(p, i);
      }
      if words % 4 == 3 { InventedPoint(p, words / 4); }
    }
  }

  /** A point of which only three words are there. */
  lemma InventedPoint(p: Packet, k: nat)
    requires WellFormed(p) && |p.argv| == 10 + 4 * k
    ensures |Serialize(p)| >= 52 + 16 * k
    ensures Point(Serialize(p), k) == (Join(p.argv[7 + 4 * k], p.argv[8 + 4 * k]), Join(p.argv[9 + 4 * k], TailWord(p)))
  {
    hide Serialize, Crc16.Crc, Payload, Read32, Read16, ReadAll32, Join, TailWord;
    OnWire(p);
    WordAfterArguments(p);
    var d, at := Serialize(p), 7 + 4 * k;
    assert Read32(d, 8 + 4 * at) == p.argv[at];
    assert Read32(d, 8 + 4 * (at + 1)) == p.argv[at + 1];
    assert Read32(d, 8 + 4 * (at + 2)) == p.argv[at + 2];
    assert 8 + 4 * (at + 3) == 8 + 4 * |p.argv|;
  }

  /** For every parameter the decoder accepts the bridge stores the same value. Of the shorter packets
      it refuses, the bridge stores those of 7 words, with CRC and footer as the low word. */
  lemma ParameterDecodersAgree(p: Packet, text: Decoder)
    requires WellFormed(p) && p.code == MonitorCodec.MONITOR_DATA_STREAM
    requires |p.argv| >= 6 && p.argv[5] == MonitorCodec.TPARAMETER
    ensures MonitorCodec.DecodeParameter(p).Done? <==> |p.argv| >= 8
    ensures |p.argv| >= 8 ==>
              var r := MonitorCodec.DecodeParameter(p).value;
              OnMessage(Serialize(p), text) == Stored(ParameterRow(r.run, Strip(text(r.name)), r.value))
    ensures |p.argv| == 7 ==>
              OnMessage(Serialize(p), text) ==
                Stored(ParameterRow(p.argv[0], Strip(text(CopyName(p.argv, 1))), Join(p.argv[6], TailWord(p))))
    ensures |p.argv| == 6 ==> OnMessage(Serialize(p), text) == Dropped
  {
    hide Serialize, Crc16.Crc, Payload, Read32, Read16, ReadAll32, Strip, DecodeName, CopyName, Join;
    OnWire(p);
    NameOnWire(p, text);
    Header(p, |p.argv|);
    WordAfterArguments(p);
  }

  // ----- From record to row -----

  /** A log record reaches its row: all fields, and the text of the message, whole up to 10000 bytes. */
  lemma LogEndToEnd(d: LogCodec.LogData, text: Decoder)
    ensures var sent := if |d.message| <= 10000 then d.message
                        else d.message[..10000] + [0x2E, 0x2E, 0x2E, 0x20, 0x5B, 0x54, 0x52, 0x55, 0x4E, 0x43, 0x41, 0x54, 0x45, 0x44, 0x5D];
            OnMessage(Serialize(LogCodec.LogPacket(d)), text) ==
            Stored(LogRow(d.run, d.timestamp, d.level, Strip(text(d.component)), if sent == [] then "" else text(sent)))
  {
    hide OnMessage, Serialize, LogCodec.Decode, Strip, Pack, Unpack;
    LogCodec.SentMessage(d.message);
    var p := LogCodec.LogPacket(d);
    LogDecodersAgree(p, text);
    LogCodec.DecodeOfLog(d);
    var m := Pack(LogCodec.Clamped(d.message));
    var fixed: seq<word32> := [d.run, High(d.timestamp), Low(d.timestamp), d.level, |LogCodec.Clamped(d.message)|];
    assert p.argv == fixed + Pack(d.component) + m;
    NameRoundTrip(fixed, d.component, m);
  }

  lemma HistogramEndToEnd(d: MonitorCodec.MonitorData, text: Decoder)
    requires d.kind == MonitorCodec.TH1F && |d.bins| <= 65523
    ensures var p := MonitorCodec.PacketOf(MonitorCodec.HistogramWords(d));
            OnMessage(Serialize(p), text) ==
            Stored(HistogramRow(d.run, Strip(text(d.name)), BridgeBins(d.bins, d.nx, Crc16.Crc(Payload(p))),
                                d.kind, d.nx, d.xmin, d.xmax, d.ny, 0, 0))
  {
    hide OnMessage, Serialize, Strip, MonitorCodec.HistogramWords, CopyName, Crc16.Crc, Payload;
    var ws := MonitorCodec.HistogramWords(d);
    var p := MonitorCodec.PacketOf(ws);
    assert ws[..|ws|] == ws && d.bins[..|ws| - 12] == d.bins;
    MonitorCodec.DecodeOfHistogram(d, |ws|);
    HistogramDecodersAgree(p, text);
  }

  lemma GraphEndToEnd(d: MonitorCodec.GraphData, text: Decoder)
    requires MonitorCodec.Encodable(d) && d.points <= 16382
    ensures var points := Zip(d.x[..d.points], d.y[..d.points]);
            |points| == d.points && forall i :: 0 <= i < d.points ==> points[i] == (d.x[i], d.y[i])
    ensures OnMessage(Serialize(MonitorCodec.PacketOf(MonitorCodec.GraphWords(d))), text) ==
            Stored(GraphRow(d.run, Strip(text(d.name)), Zip(d.x[..d.points], d.y[..d.points])))
  {
    hide OnMessage, Serialize, Strip, MonitorCodec.GraphWords, MonitorCodec.DecodeGraphSpec;
    var p := MonitorCodec.PacketOf(MonitorCodec.GraphWords(d));
    MonitorCodec.DecodeOfGraph(d, p.argc);
    GraphDecodersAgree(p, text);
  }

  lemma ParameterType(d: MonitorCodec.ParameterData)
    ensures MonitorCodec.ParameterWords(d)[5] == MonitorCodec.TPARAMETER
  {
    hide Pack;
  }

  lemma ParameterEndToEnd(d: MonitorCodec.ParameterData, text: Decoder)
    ensures OnMessage(Serialize(MonitorCodec.PacketOf(MonitorCodec.ParameterWords(d))), text) ==
            Stored(ParameterRow(d.run, Strip(text(d.name)), d.value))
  {
    hide OnMessage, Serialize, Strip, MonitorCodec.ParameterWords, MonitorCodec.DecodeParameter, Crc16.Crc, Payload;
    ParameterType(d);
    MonitorCodec.ParameterSurvives(d, []);
    ParameterDecodersAgree(MonitorCodec.PacketOf(MonitorCodec.ParameterWords(d)), text);
  }

  // ----- Names padded with NUL come back whole -----

  predicate Trim(s: string)
  {
    |s| > 0 ==> s[0] != '\0' && s[|s| - 1] != '\0'
  }

  /** NULs in front of and behind a name are stripped, and nothing else. */
  lemma {:induction false} StripPadding(front: string, s: string, pad: string)
    requires |s| > 0 ==> s[0] != '\0' && s[|s| - 1] != '\0'
    requires (forall i :: 0 <= i < |front| ==> front[i] == '\0') && forall i :: 0 <= i < |pad| ==> pad[i] == '\0'
    ensures Strip(front + s + pad) == s
    decreases |front|
  {
    if front != [] {
      assert (front + s + pad)[1..] == front[1..] + s + pad;
      StripPadding(front[1..], s, pad);
    } else {
      assert front + s + pad == s + pad;
      if s == [] {
        assert s + pad == pad;
        StripAll(pad);
      } else {
        assert StripLeft(s + pad) == s + pad;
        StripRightPadding(s, pad);
      }
    }
  }

  lemma {:induction false} StripAll(pad: string)
    requires forall i :: 0 <= i < |pad| ==> pad[i] == '\0'
    ensures StripLeft(pad) == []
  {
    if |pad| > 0 { StripAll(pad[1..]); }
  }

  lemma {:induction false} StripRightPadding(s: string, pad: string)
    requires Trim(s) && forall i :: 0 <= i < |pad| ==> pad[i] == '\0'
    ensures StripRight(s + pad) == s
  {
    if |pad| > 0 {
      StripRightPadding(s, pad[..|pad| - 1]);
      assert (s + pad)[..|s + pad| - 1] == s + pad[..|pad| - 1];
    } else {
      assert s + pad == s;
    }
  }
}
