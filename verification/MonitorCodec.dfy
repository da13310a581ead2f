/** GRAMS_TOF_MonitorCodec: histograms, graphs and parameters carried in the arguments of a packet.
    Floats and doubles are their 32-bit and 64-bit patterns. */
module MonitorCodec {
  import opened Prelude
  import opened Bytes
  import opened HostMemory
  import opened CommandCodec

  datatype MonitorData = MonitorData(
    run: word32, name: Name, kind: word32, nx: word32, xmin: word32, xmax: word32,
    ny: word32, ymin: word32, ymax: word32, bins: seq<word32>)

  datatype GraphData = GraphData(run: word32, name: Name, points: word32, x: seq<word64>, y: seq<word64>)

  datatype ParameterData = ParameterData(run: word32, name: Name, value: word64)

  const MONITOR_DATA_STREAM: word16 := 0x5400
  const TH1F: word32 := 1
  const TGRAPH: word32 := 4
  const TPARAMETER: word32 := 5

  /** The argument count is 16 bits wide. */
  function PacketOf(argv: seq<word32>): (p: Packet)
    ensures p.argc <= |p.argv|
  {
    Packet(MONITOR_DATA_STREAM, |argv| % 0x1_0000, argv)
  }

  /** What the receiver gets of a packet: as many arguments as the count says. */
  function Arriving(p: Packet): Packet
    requires p.argc <= |p.argv|
  {
    p.(argv := p.argv[..p.argc])
  }

  lemma ParseOfArriving(p: Packet, rest: seq<byte>)
    requires p.argc <= |p.argv|
    ensures Parse(Serialize(p) + rest) == Some(Arriving(p))
  {
    hide Parse;
    var q := Arriving(p);
    assert Serialize(q) == Serialize(p) by { assert q.argv[..q.argc] == p.argv[..p.argc]; }
    ParseOfSerialize(q, rest);
  }

  // ----- Histograms -----

  function HistogramWords(d: MonitorData): (argv: seq<word32>)
    ensures |argv| == 12 + |d.bins|
  {
    [d.run] + Pack(d.name) + [d.kind, d.nx, d.xmin, d.xmax, d.ny, d.ymin, d.ymax] + d.bins
  }

  method EncodeHistogram(d: MonitorData) returns (p: Packet)
    ensures p == PacketOf(HistogramWords(d))
  {
    var argv := [d.run];
    argv := PushName(argv, d.name);
    argv := argv + [d.kind];
    argv := argv + [d.nx];
    argv := argv + [d.xmin];
    argv := argv + [d.xmax];
    argv := argv + [d.ny];
    argv := argv + [d.ymin];
    argv := argv + [d.ymax];
    argv := argv + d.bins;
    p := Packet(MONITOR_DATA_STREAM, |argv| % 0x1_0000, argv);
  }

  function DecodeHistogram(p: Packet): Decoded<MonitorData>
  {
    var a := p.argv;
    if |a| < 12 then Rejected
    else Done(MonitorData(a[0], CopyName(a, 1), a[5], a[6], a[7], a[8], a[9], a[10], a[11], a[12..]))
  }

  lemma DecodeOfHistogram(d: MonitorData, n: nat)
    requires 12 <= n <= 12 + |d.bins|
    ensures DecodeHistogram(Packet(MONITOR_DATA_STREAM, n % 0x1_0000, HistogramWords(d)[..n]))
            == Done(d.(bins := d.bins[..n - 12]))
  {
    hide Pack, Unpack;
    var fixed := [d.kind, d.nx, d.xmin, d.xmax, d.ny, d.ymin, d.ymax];
    var a := HistogramWords(d)[..n];
    assert a == [d.run] + Pack(d.name) + (fixed + d.bins[..n - 12]);
    NameRoundTrip([d.run], d.name, fixed + d.bins[..n - 12]);
    assert a[5] == fixed[0] && a[6] == fixed[1] && a[7] == fixed[2] && a[8] == fixed[3];
    assert a[9] == fixed[4] && a[10] == fixed[5] && a[11] == fixed[6];
    assert a[12..] == d.bins[..n - 12];
  }

  /** A histogram survives encode, serialize, parse and decode exactly when its words fit the
      16-bit count. */
  lemma HistogramSurvives(d: MonitorData, rest: seq<byte>)
    ensures var p := Parse(Serialize(PacketOf(HistogramWords(d))) + rest);
            p.Some? && (DecodeHistogram(p.value) == Done(d) <==> |d.bins| <= 65523)
  {
    hide Parse, Serialize, HistogramWords, DecodeHistogram, CopyName;
    var p := PacketOf(HistogramWords(d));
    ParseOfArriving(p, rest);
    HistogramArrives(d);
  }

  lemma HistogramArrives(d: MonitorData)
    ensures DecodeHistogram(Arriving(PacketOf(HistogramWords(d)))) == Done(d) <==> |d.bins| <= 65523
  {
    hide HistogramWords, CopyName;
    var n := (12 + |d.bins|) % 0x1_0000;
    if n >= 12 {
      DecodeOfHistogram(d, n);
      if |d.bins| <= 65523 {
        assert d.bins[..n - 12] == d.bins;
      } else {
        assert |d.bins[..n - 12]| < |d.bins|;
      }
    }
  }

  // ----- Graphs -----

  function PointWords(x: word64, y: word64): (ws: seq<word32>)
    ensures |ws| == 4
  {
    [High(x), Low(x), High(y), Low(y)]
  }

  function PointsWords(x: seq<word64>, y: seq<word64>, n: nat): (ws: seq<word32>)
    requires n <= |x| && n <= |y|
    ensures |ws| == 4 * n
  {
    if n == 0 then [] else PointsWords(x, y, n - 1) + PointWords(x[n - 1], y[n - 1])
  }

  /** The encoder reads as many points as the record announces. */
  predicate Encodable(d: GraphData)
  {
    d.points <= |d.x| && d.points <= |d.y|
  }

  function GraphWords(d: GraphData): (argv: seq<word32>)
    requires Encodable(d)
    ensures |argv| == 7 + 4 * d.points
  {
    [d.run] + Pack(d.name) + [TGRAPH, d.points] + PointsWords(d.x, d.y, d.points)
  }

  method EncodeGraph(d: GraphData) returns (p: Packet)
    requires Encodable(d)
    ensures p == PacketOf(GraphWords(d))
  {
    hide Pack, High, Low;
    var argv := [d.run];
    argv := PushName(argv, d.name);
    argv := argv + [TGRAPH];
    argv := argv + [d.points];
    ghost var fixed := argv;
    for i := 0 to d.points
      invariant argv == fixed + PointsWords(d.x, d.y, i)
    {
      argv := argv + [High(d.x[i])];
      argv := argv + [Low(d.x[i])];
      argv := argv + [High(d.y[i])];
      argv := argv + [Low(d.y[i])];
    }
    assert argv == GraphWords(d);
    p := Packet(MONITOR_DATA_STREAM, |argv| % 0x1_0000, argv);
  }

  /** The index expressions of the decoder are 32 bits wide. */
  function PointIndex(i: nat, k: nat): nat
  {
    (7 + 4 * i + k) % 0x1_0000_0000
  }

  predicate InBounds(argv: seq<word32>, n: nat)
  {
    forall i, k :: 0 <= i < n && 0 <= k < 4 ==> PointIndex(i, k) < |argv|
  }

  function XAt(argv: seq<word32>, i: nat): word64
    requires PointIndex(i, 0) < |argv| && PointIndex(i, 1) < |argv|
  {
    Join(argv[PointIndex(i, 0)], argv[PointIndex(i, 1)])
  }

  function YAt(argv: seq<word32>, i: nat): word64
    requires PointIndex(i, 2) < |argv| && PointIndex(i, 3) < |argv|
  {
    Join(argv[PointIndex(i, 2)], argv[PointIndex(i, 3)])
  }

  function DecodeGraphSpec(p: Packet): Decoded<GraphData>
  {
    var a := p.argv;
    if |a| < 7 || a[5] != TGRAPH then Rejected
    else if !InBounds(a, a[6]) then Overrun
    else
      Done(GraphData(a[0], CopyName(a, 1), a[6],
                     seq(a[6], i requires 0 <= i < a[6] => XAt(a, i)),
                     seq(a[6], i requires 0 <= i < a[6] => YAt(a, i))))
  }

  /** decode for graphs: nothing relates the announced number of points to the arguments. */
  method DecodeGraph(p: Packet) returns (r: Decoded<GraphData>)
    ensures r == DecodeGraphSpec(p)
  {
    hide CopyName, Join, PointIndex;
    var a := p.argv;
    if |a| < 7 { return Rejected; }
    if a[5] != TGRAPH { return Rejected; }
    var n := a[6];
    var x: seq<word64>, y: seq<word64> := [], [];
    for i := 0 to n
      invariant InBounds(a, i)
      invariant x == seq(i, j requires 0 <= j < i => XAt(a, j))
      invariant y == seq(i, j requires 0 <= j < i => YAt(a, j))
    {
      if PointIndex(i, 0) >= |a| || PointIndex(i, 1) >= |a| || PointIndex(i, 2) >= |a| || PointIndex(i, 3) >= |a| {
        return Overrun;
      }
      x := x + [XAt(a, i)];
      y := y + [YAt(a, i)];
    }
    return Done(GraphData(a[0], CopyName(a, 1), n, x, y));
  }

  /** The decoder stays inside the arguments exactly when they hold all announced points. */
  lemma InBoundsIff(argv: seq<word32>, n: nat)
    requires 7 <= |argv| < 0x1_0000_0000
    ensures InBounds(argv, n) <==> 7 + 4 * n <= |argv|
  {
    if 7 + 4 * n > |argv| {
      var i, k := (|argv| - 7) / 4, (|argv| - 7) % 4;
      assert PointIndex(i, k) == |argv|;
    }
  }

  lemma {:induction false} PointsWordsAt(x: seq<word64>, y: seq<word64>, n: nat, i: nat)
    requires i < n <= |x| && n <= |y|
    ensures PointsWords(x, y, n)[4 * i..4 * i + 4] == PointWords(x[i], y[i])
  {
    hide PointWords;
    var ws := PointsWords(x, y, n);
    if i == n - 1 {
      assert ws[4 * i..4 * i + 4] == PointWords(x[i], y[i]);
    } else {
      PointsWordsAt(x, y, n - 1, i);
      assert ws[4 * i..4 * i + 4] == PointsWords(x, y, n - 1)[4 * i..4 * i + 4];
    }
  }

  /** Indices below 2^32 do not wrap. */
  lemma IndexInRange(i: nat, k: nat)
    requires 7 + 4 * i + k < 0x1_0000_0000
    ensures PointIndex(i, k) == 7 + 4 * i + k
  {
  }

  lemma PointRead(argv: seq<word32>, i: nat, x: word64, y: word64)
    requires 11 + 4 * i <= |argv| < 0x1_0000_0000 && argv[7 + 4 * i..11 + 4 * i] == PointWords(x, y)
    ensures PointIndex(i, 0) < |argv| && PointIndex(i, 1) < |argv| && XAt(argv, i) == x
    ensures PointIndex(i, 2) < |argv| && PointIndex(i, 3) < |argv| && YAt(argv, i) == y
  {
    hide Join, High, Low, PointIndex;
    IndexInRange(i, 0);
    IndexInRange(i, 1);
    IndexInRange(i, 2);
    IndexInRange(i, 3);
    var ws := argv[7 + 4 * i..11 + 4 * i];
    assert ws[0] == argv[7 + 4 * i] && ws[1] == argv[8 + 4 * i] && ws[2] == argv[9 + 4 * i] && ws[3] == argv[10 + 4 * i];
    JoinOfSplit(x);
    JoinOfSplit(y);
  }

  lemma DecodeOfGraph(d: GraphData, argc: word16)
    requires Encodable(d) && 7 + 4 * d.points < 0x1_0000_0000
    ensures DecodeGraphSpec(Packet(MONITOR_DATA_STREAM, argc, GraphWords(d)))
            == Done(d.(x := d.x[..d.points], y := d.y[..d.points]))
  {
    hide Pack, CopyName, XAt, YAt, PointWords, PointIndex, InBounds;
    var a, n := GraphWords(d), d.points;
    GraphHeader(d);
    InBoundsIff(a, n);
    forall i | 0 <= i < n
      ensures PointIndex(i, 0) < |a| && PointIndex(i, 1) < |a| && XAt(a, i) == d.x[i]
      ensures PointIndex(i, 2) < |a| && PointIndex(i, 3) < |a| && YAt(a, i) == d.y[i]
    {
      PointsWordsAt(d.x, d.y, n, i);
      assert a[7..] == PointsWords(d.x, d.y, n);
      assert a[7 + 4 * i..11 + 4 * i] == a[7..][4 * i..4 * i + 4];
      PointRead(a, i, d.x[i], d.y[i]);
    }
    var r := DecodeGraphSpec(Packet(MONITOR_DATA_STREAM, argc, a));
    assert r.Done?;
    assert r.value.x == d.x[..n];
    assert r.value.y == d.y[..n];
  }

  lemma GraphHeader(d: GraphData)
    requires Encodable(d)
    ensures var a := GraphWords(d);
            a[0] == d.run && CopyName(a, 1) == d.name && a[5] == TGRAPH && a[6] == d.points
    ensures GraphWords(d)[7..] == PointsWords(d.x, d.y, d.points)
  {
    hide Pack, Unpack, PointsWords;
    var points := PointsWords(d.x, d.y, d.points);
    assert GraphWords(d) == [d.run] + Pack(d.name) + ([TGRAPH, d.points] + points);
    NameRoundTrip([d.run], d.name, [TGRAPH, d.points] + points);
  }

  /** A graph survives encode, serialize, parse and decode exactly when its words fit the 16-bit count. */
  lemma GraphSurvives(d: GraphData, rest: seq<byte>)
    requires Encodable(d)
    ensures var p := Parse(Serialize(PacketOf(GraphWords(d))) + rest);
            p.Some? && (DecodeGraphSpec(p.value) == Done(d.(x := d.x[..d.points], y := d.y[..d.points]))
                        <==> d.points <= 16382)
  {
    hide Parse, Serialize, GraphWords, DecodeGraphSpec;
    ParseOfArriving(PacketOf(GraphWords(d)), rest);
    GraphArrives(d);
  }

  lemma GraphArrives(d: GraphData)
    requires Encodable(d)
    ensures DecodeGraphSpec(Arriving(PacketOf(GraphWords(d)))) == Done(d.(x := d.x[..d.points], y := d.y[..d.points]))
            <==> d.points <= 16382
  {
    hide GraphWords, DecodeGraphSpec;
    var p := PacketOf(GraphWords(d));
    if d.points <= 16382 {
      assert Arriving(p) == p by { assert p.argv[..p.argc] == p.argv; }
      DecodeOfGraph(d, p.argc);
    } else {
      LongGraphLost(d);
    }
  }

  lemma LongGraphLost(d: GraphData)
    requires Encodable(d) && d.points > 16382
    ensures !DecodeGraphSpec(Arriving(PacketOf(GraphWords(d)))).Done?
  {
    hide GraphWords, CopyName, XAt, YAt, InBounds;
    GraphHeader(d);
    var a := Arriving(PacketOf(GraphWords(d))).argv;
    if |a| >= 7 {
      assert a[6] == d.points;
      InBoundsIff(a, d.points);
    }
  }

  // ----- Parameters -----

  function ParameterWords(d: ParameterData): (argv: seq<word32>)
    ensures |argv| == 8
  {
    [d.run] + Pack(d.name) + [TPARAMETER, High(d.value), Low(d.value)]
  }

  method EncodeParameter(d: ParameterData) returns (p: Packet)
    ensures p == PacketOf(ParameterWords(d))
  {
    var argv := [d.run];
    argv := PushName(argv, d.name);
    argv := argv + [TPARAMETER];
    argv := argv + [High(d.value)];
    argv := argv + [Low(d.value)];
    p := Packet(MONITOR_DATA_STREAM, |argv| % 0x1_0000, argv);
  }

  function DecodeParameter(p: Packet): Decoded<ParameterData>
  {
    var a := p.argv;
    if |a| < 8 || a[5] != TPARAMETER then Rejected
    else Done(ParameterData(a[0], CopyName(a, 1), Join(a[6], a[7])))
  }

  /** Every parameter survives encode, serialize, parse and decode. */
  lemma ParameterSurvives(d: ParameterData, rest: seq<byte>)
    ensures var p := PacketOf(ParameterWords(d));
            Parse(Serialize(p) + rest) == Some(p) && DecodeParameter(p) == Done(d)
  {
    hide Parse, Serialize, Pack, Unpack;
    ParseOfSerialize(PacketOf(ParameterWords(d)), rest);
    NameRoundTrip([d.run], d.name, [TPARAMETER, High(d.value), Low(d.value)]);
    assert ParameterWords(d) == [d.run] + Pack(d.name) + [TPARAMETER, High(d.value), Low(d.value)];
    JoinOfSplit(d.value);
  }

  // ----- Word layouts -----

  lemma HistogramLayout(d: MonitorData)
    ensures var a := HistogramWords(d);
            && PacketOf(a).code == 0x5400 && a[0] == d.run && a[5] == d.kind && a[6] == d.nx && a[7] == d.xmin && a[8] == d.xmax
            && a[9] == d.ny && a[10] == d.ymin && a[11] == d.ymax && a[12..] == d.bins
  {
    hide Pack;
  }

  lemma GraphLayout(d: GraphData, i: nat)
    requires Encodable(d) && i < d.points
    ensures var a := GraphWords(d);
            && a[0] == d.run && a[5] == 4 && a[6] == d.points
            && a[7 + 4 * i] == d.x[i] / 0x1_0000_0000 && a[8 + 4 * i] == d.x[i] % 0x1_0000_0000
            && a[9 + 4 * i] == d.y[i] / 0x1_0000_0000 && a[10 + 4 * i] == d.y[i] % 0x1_0000_0000
  {
    hide Pack, PointsWords, CopyName;
    GraphHeader(d);
    PointsWordsAt(d.x, d.y, d.points, i);
    var a := GraphWords(d);
    var ws := a[7..][4 * i..4 * i + 4];
    assert ws[0] == a[7 + 4 * i] && ws[1] == a[8 + 4 * i] && ws[2] == a[9 + 4 * i] && ws[3] == a[10 + 4 * i];
  }

  lemma ParameterLayout(d: ParameterData)
    ensures var a := ParameterWords(d);
            a[0] == d.run && a[5] == 5 && a[6] == d.value / 0x1_0000_0000 && a[7] == d.value % 0x1_0000_0000
  {
    hide Pack;
  }
}
