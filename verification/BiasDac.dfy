/** Config.mapBiasChannelVoltageToDAC: inverting a bias calibration table by linear interpolation,
    over exact reals, with the rounding of the language (halves go to the even neighbour). */
module BiasDac {
  import opened Prelude

  /** One calibration point: a DAC setting and the voltage measured there. */
  datatype Knot = Knot(dac: int, volts: real)

  /** At least two points, strictly increasing in DAC and in voltage. */
  predicate Calibrated(t: seq<Knot>)
  {
    |t| >= 2 && forall i, j :: 0 <= i < j < |t| ==> t[i].dac < t[j].dac && t[i].volts < t[j].volts
  }

  // ----- Rounding -----

  function Round(x: real): int
  {
    var f := x.Floor;
    var d := x - f as real;
    if d < 0.5 then f else if d > 0.5 then f + 1 else if f % 2 == 0 then f else f + 1
  }

  lemma RoundNear(x: real)
    ensures -0.5 <= Round(x) as real - x <= 0.5
  {
  }

  lemma RoundMonotone(x: real, y: real)
    requires x <= y
    ensures Round(x) <= Round(y)
  {
    if x.Floor < y.Floor { assert Round(x) <= x.Floor + 1 <= y.Floor <= Round(y); }
  }

  /** Halves go to the even neighbour. */
  lemma RoundOfHalf(n: int)
    ensures Round(n as real + 0.5) == if n % 2 == 0 then n else n + 1
  {
    assert (n as real + 0.5).Floor == n;
  }

  lemma RoundOfInt(n: int)
    ensures Round(n as real) == n
  {
  }

  // ----- One segment -----

  function Slope(a: Knot, b: Knot): real
    requires a.dac != b.dac
  {
    (b.volts - a.volts) / (b.dac - a.dac) as real
  }

  /** The voltage at a DAC setting on the line through two points. */
  function Line(a: Knot, b: Knot, x: real): real
    requires a.dac != b.dac
  {
    a.volts + Slope(a, b) * (x - a.dac as real)
  }

  /** The DAC setting at a voltage, as the code computes it from slope and intercept. */
  function Solve(a: Knot, b: Knot, y: real): real
    requires a.dac != b.dac && Slope(a, b) != 0.0
  {
    var m := Slope(a, b);
    var intercept := a.volts - m * a.dac as real;
    (y - intercept) / m
  }

  predicate Rising(a: Knot, b: Knot)
  {
    a.dac < b.dac && a.volts < b.volts
  }

  lemma SlopeFacts(a: Knot, b: Knot)
    requires Rising(a, b)
    ensures Slope(a, b) > 0.0 && Slope(a, b) * (b.dac - a.dac) as real == b.volts - a.volts
  {
  }

  lemma SolveFacts(a: Knot, b: Knot, y: real)
    requires Rising(a, b)
    ensures Slope(a, b) > 0.0 && Slope(a, b) * (Solve(a, b, y) - a.dac as real) == y - a.volts
  {
    SlopeFacts(a, b);
    var m, x := Slope(a, b), a.dac as real;
    var q := (y - (a.volts - m * x)) / m;
    assert q * m == y - a.volts + m * x;
    assert m * (q - x) == q * m - m * x;
  }

  /** Multiplication by a positive number reflects order. */
  lemma Cancel(m: real, u: real, v: real)
    requires m > 0.0 && m * u <= m * v
    ensures u <= v
  {
    assert m * u - m * v == m * (u - v);
    assert u > v ==> m * (u - v) > 0.0;
  }

  lemma Scale(m: real, u: real, v: real)
    requires m >= 0.0 && u <= v
    ensures m * u <= m * v
  {
    assert m * (v - u) >= 0.0;
    assert m * v - m * u == m * (v - u);
  }

  lemma SolveMonotone(a: Knot, b: Knot, y: real, z: real)
    requires Rising(a, b) && y <= z
    ensures Solve(a, b, y) <= Solve(a, b, z)
  {
    SolveFacts(a, b, y);
    SolveFacts(a, b, z);
    Cancel(Slope(a, b), Solve(a, b, y) - a.dac as real, Solve(a, b, z) - a.dac as real);
  }

  /** The line passes through both points, and solving undoes it. */
  lemma SolveAtEnds(a: Knot, b: Knot)
    requires Rising(a, b)
    ensures Slope(a, b) > 0.0 && Solve(a, b, a.volts) == a.dac as real && Solve(a, b, b.volts) == b.dac as real
  {
    SlopeFacts(a, b);
    SolveFacts(a, b, a.volts);
    SolveFacts(a, b, b.volts);
    var m := Slope(a, b);
    Cancel(m, Solve(a, b, a.volts) - a.dac as real, 0.0);
    Cancel(m, 0.0, Solve(a, b, a.volts) - a.dac as real);
    Cancel(m, Solve(a, b, b.volts) - a.dac as real, (b.dac - a.dac) as real);
    Cancel(m, (b.dac - a.dac) as real, Solve(a, b, b.volts) - a.dac as real);
  }

  lemma LineOfSolve(a: Knot, b: Knot, y: real)
    requires Rising(a, b)
    ensures Slope(a, b) > 0.0 && Line(a, b, Solve(a, b, y)) == y
  {
    SolveFacts(a, b, y);
  }

  // ----- The whole table -----

  /** The loop: the first segment that ends at or above y, or the last one. */
  function Segment(t: seq<Knot>, y: real, from: nat): (i: nat)
    requires 1 <= from < |t|
    ensures from <= i < |t|
    ensures i < |t| - 1 ==> y <= t[i].volts
    ensures forall k :: from <= k < i ==> t[k].volts < y
    decreases |t| - from
  {
    if t[from].volts >= y || from == |t| - 1 then from else Segment(t, y, from + 1)
  }

  lemma {:induction false} SegmentIs(t: seq<Knot>, y: real, from: nat, k: nat)
    requires 1 <= from <= k < |t| && (k == |t| - 1 || y <= t[k].volts)
    requires forall j :: from <= j < k ==> t[j].volts < y
    ensures Segment(t, y, from) == k
    decreases k - from
  {
    if from < k { SegmentIs(t, y, from + 1, k); }
  }

  /** The exact setting, before rounding. */
  function Exact(t: seq<Knot>, y: real): real
    requires Calibrated(t)
  {
    var i := Segment(t, y, 1);
    SlopeFacts(t[i - 1], t[i]);
    Solve(t[i - 1], t[i], y)
  }

  function VoltageToDac(t: seq<Knot>, y: real): int
    requires Calibrated(t)
  {
    Round(Exact(t, y))
  }

  /** mapBiasChannelVoltageToDAC. A table with fewer than two points leaves the loop variables
      unset, which is an error; so is a segment of zero width or height. */
  method MapBiasChannelVoltageToDac(t: seq<Knot>, voltage: real) returns (dac: Option<int>)
    ensures |t| < 2 ==> dac == None
    ensures |t| >= 2 ==>
              var i := Segment(t, voltage, 1);
              var a, b := t[i - 1], t[i];
              dac == if a.dac == b.dac || Slope(a, b) == 0.0 then None else Some(Round(Solve(a, b, voltage)))
    ensures Calibrated(t) ==> dac == Some(VoltageToDac(t, voltage))
  {
    if |t| < 2 { return None; }
    var i := 1;
    while i < |t| - 1 && t[i].volts < voltage
      invariant 1 <= i < |t| && Segment(t, voltage, i) == Segment(t, voltage, 1)
    {
      i := i + 1;
    }
    var a, b := t[i - 1], t[i];
    if a.dac == b.dac || Slope(a, b) == 0.0 {
      if Calibrated(t) {
        SlopeFacts(a, b);
        assert false;
      }
      return None;
    }
    return Some(Round(Solve(a, b, voltage)));
  }

  /** Voltages in a segment map between the segment's DAC settings. */
  lemma ExactBounds(t: seq<Knot>, y: real)
    requires Calibrated(t)
    ensures var i := Segment(t, y, 1);
            && (y <= t[i].volts ==> Exact(t, y) <= t[i].dac as real)
            && (y > t[i].volts ==> Exact(t, y) > t[i].dac as real)
            && (y >= t[i - 1].volts ==> Exact(t, y) >= t[i - 1].dac as real)
            && (y > t[i - 1].volts ==> Exact(t, y) > t[i - 1].dac as real)
  {
    var i := Segment(t, y, 1);
    var a, b := t[i - 1], t[i];
    SolveAtEnds(a, b);
    if y <= b.volts { SolveMonotone(a, b, y, b.volts); } else { SolveMonotone(a, b, b.volts, y); }
    if y >= a.volts { SolveMonotone(a, b, a.volts, y); }
    LineOfSolve(a, b, y);
    LineOfSolve(a, b, b.volts);
    LineOfSolve(a, b, a.volts);
  }

  lemma SegmentMonotone(t: seq<Knot>, y: real, z: real)
    requires Calibrated(t) && y <= z
    ensures Segment(t, y, 1) <= Segment(t, z, 1)
  {
  }

  lemma ExactMonotone(t: seq<Knot>, y: real, z: real)
    requires Calibrated(t) && y <= z
    ensures Exact(t, y) <= Exact(t, z)
  {
    var i, j := Segment(t, y, 1), Segment(t, z, 1);
    SegmentMonotone(t, y, z);
    if i == j {
      SolveMonotone(t[i - 1], t[i], y, z);
    } else {
      ExactBounds(t, y);
      ExactBounds(t, z);
      assert t[j - 1].volts < z;
      assert t[i].dac <= t[j - 1].dac;
    }
  }

  /** A higher voltage never maps to a lower setting, extrapolation included. */
  lemma DacMonotone(t: seq<Knot>, y: real, z: real)
    requires Calibrated(t) && y <= z
    ensures VoltageToDac(t, y) <= VoltageToDac(t, z)
  {
    ExactMonotone(t, y, z);
    RoundMonotone(Exact(t, y), Exact(t, z));
  }

  /** At a calibration point the setting is that point's. */
  lemma DacAtKnot(t: seq<Knot>, k: nat)
    requires Calibrated(t) && k < |t|
    ensures VoltageToDac(t, t[k].volts) == t[k].dac
  {
    var y := t[k].volts;
    var i := Segment(t, y, 1);
    SegmentIs(t, y, 1, if k == 0 then 1 else k);
    SolveAtEnds(t[i - 1], t[i]);
    RoundOfInt(t[k].dac);
  }

  /** Voltages inside the table give settings inside the table. */
  lemma DacInRange(t: seq<Knot>, y: real)
    requires Calibrated(t) && t[0].volts <= y <= t[|t| - 1].volts
    ensures t[0].dac <= VoltageToDac(t, y) <= t[|t| - 1].dac
  {
    DacMonotone(t, t[0].volts, y);
    DacMonotone(t, y, t[|t| - 1].volts);
    DacAtKnot(t, 0);
    DacAtKnot(t, |t| - 1);
  }

  // ----- Going back: how far the returned setting is from the request -----

  /** The segment of a setting, chosen as for voltages. */
  function DacSegment(t: seq<Knot>, x: real, from: nat): (i: nat)
    requires 1 <= from < |t|
    ensures from <= i < |t|
    ensures i < |t| - 1 ==> x <= t[i].dac as real
    ensures forall k :: from <= k < i ==> (t[k].dac as real) < x
    decreases |t| - from
  {
    if t[from].dac as real >= x || from == |t| - 1 then from else DacSegment(t, x, from + 1)
  }

  /** The voltage the table predicts for a setting. */
  function Voltage(t: seq<Knot>, x: real): real
    requires Calibrated(t)
  {
    var i := DacSegment(t, x, 1);
    Line(t[i - 1], t[i], x)
  }

  function MaxSlope(t: seq<Knot>, n: nat): (s: real)
    requires Calibrated(t) && 2 <= n <= |t|
    ensures forall i :: 1 <= i < n ==> Slope(t[i - 1], t[i]) <= s
    ensures exists i :: 1 <= i < n && Slope(t[i - 1], t[i]) == s
  {
    var here := Slope(t[n - 2], t[n - 1]);
    if n == 2 then here
    else
      var below := MaxSlope(t, n - 1);
      if here >= below then here else below
  }

  lemma SameSegment(t: seq<Knot>, y: real)
    requires Calibrated(t)
    ensures DacSegment(t, Exact(t, y), 1) == Segment(t, y, 1)
  {
    var i, x := Segment(t, y, 1), Exact(t, y);
    hide Exact;
    ExactBounds(t, y);
    forall k | 1 <= k < i
      ensures (t[k].dac as real) < x
    {
      assert t[i - 1].volts < y && t[k].dac <= t[i - 1].dac;
    }
    DacSegmentIs(t, x, 1, i);
  }

  lemma {:induction false} DacSegmentIs(t: seq<Knot>, x: real, from: nat, k: nat)
    requires 1 <= from <= k < |t| && (k == |t| - 1 || x <= t[k].dac as real)
    requires forall j :: from <= j < k ==> (t[j].dac as real) < x
    ensures DacSegment(t, x, from) == k
    decreases k - from
  {
    if from < k { DacSegmentIs(t, x, from + 1, k); }
  }

  lemma VoltageOfExact(t: seq<Knot>, y: real)
    requires Calibrated(t)
    ensures Voltage(t, Exact(t, y)) == y
  {
    SameSegment(t, y);
    var i := Segment(t, y, 1);
    LineOfSolve(t[i - 1], t[i], y);
  }

  lemma LineGrowth(a: Knot, b: Knot, x: real, z: real, s: real)
    requires Rising(a, b) && x <= z && Slope(a, b) <= s
    ensures 0.0 <= Line(a, b, z) - Line(a, b, x) <= s * (z - x)
  {
    SlopeFacts(a, b);
    var m := Slope(a, b);
    assert m * (z - a.dac as real) - m * (x - a.dac as real) == m * (z - x);
    Scale(z - x, m, s);
    Scale(m, 0.0, z - x);
  }

  lemma LineEnds(a: Knot, b: Knot)
    requires Rising(a, b)
    ensures Line(a, b, a.dac as real) == a.volts && Line(a, b, b.dac as real) == b.volts
  {
    SlopeFacts(a, b);
  }

  lemma {:induction false} KnotGrowth(t: seq<Knot>, i: nat, j: nat, s: real)
    requires Calibrated(t) && i <= j < |t| && forall k :: 1 <= k < |t| ==> Slope(t[k - 1], t[k]) <= s
    ensures 0.0 <= t[j].volts - t[i].volts <= s * (t[j].dac - t[i].dac) as real
    decreases j - i
  {
    if i < j {
      KnotGrowth(t, i, j - 1, s);
      LineEnds(t[j - 1], t[j]);
      LineGrowth(t[j - 1], t[j], t[j - 1].dac as real, t[j].dac as real, s);
      var u, v := (t[j - 1].dac - t[i].dac) as real, t[j].dac as real - t[j - 1].dac as real;
      assert s * u + s * v == s * (u + v);
    }
  }

  /** The predicted voltage rises, and by no more than the largest slope per step. */
  lemma VoltageGrowth(t: seq<Knot>, x: real, z: real, s: real)
    requires Calibrated(t) && x <= z && forall k :: 1 <= k < |t| ==> Slope(t[k - 1], t[k]) <= s
    ensures 0.0 <= Voltage(t, z) - Voltage(t, x) <= s * (z - x)
  {
    var i, j := DacSegment(t, x, 1), DacSegment(t, z, 1);
    if i == j {
      LineGrowth(t[i - 1], t[i], x, z, s);
    } else {
      assert i < j;
      GrowthAcross(t, i, j, x, z, s);
    }
  }

  lemma GrowthAcross(t: seq<Knot>, i: nat, j: nat, x: real, z: real, s: real)
    requires Calibrated(t) && 1 <= i < j < |t| && forall k :: 1 <= k < |t| ==> Slope(t[k - 1], t[k]) <= s
    requires x <= t[i].dac as real && (t[j - 1].dac as real) < z
    ensures 0.0 <= Line(t[j - 1], t[j], z) - Line(t[i - 1], t[i], x) <= s * (z - x)
  {
    hide Line, Slope;
    var p, q := t[i].dac as real, t[j - 1].dac as real;
    LineEnds(t[i - 1], t[i]);
    LineEnds(t[j - 1], t[j]);
    LineGrowth(t[i - 1], t[i], x, p, s);
    KnotGrowth(t, i, j - 1, s);
    LineGrowth(t[j - 1], t[j], q, z, s);
    assert (t[j - 1].dac - t[i].dac) as real == q - p;
    Chain(s, x, p, q, z);
  }

  lemma Chain(s: real, x: real, p: real, q: real, z: real)
    ensures s * (p - x) + s * (q - p) + s * (z - q) == s * (z - x)
  {
  }

  lemma HalfStep(s: real, d: real, v: real)
    requires s >= 0.0 && d <= 0.5 && v <= s * d
    ensures v <= 0.5 * s
  {
    Scale(s, d, 0.5);
  }

  lemma NearbyVoltage(t: seq<Knot>, x: real, r: real, s: real)
    requires Calibrated(t) && -0.5 <= r - x <= 0.5 && s >= 0.0
    requires forall k :: 1 <= k < |t| ==> Slope(t[k - 1], t[k]) <= s
    ensures -(0.5 * s) <= Voltage(t, r) - Voltage(t, x) <= 0.5 * s
  {
    hide Slope, Voltage;
    if r >= x {
      VoltageGrowth(t, x, r, s);
      HalfStep(s, r - x, Voltage(t, r) - Voltage(t, x));
    } else {
      VoltageGrowth(t, r, x, s);
      HalfStep(s, x - r, Voltage(t, x) - Voltage(t, r));
    }
  }

  /** Reading the returned setting back through the table misses the requested voltage by at most
      half the largest segment slope. */
  lemma DacAccuracy(t: seq<Knot>, y: real)
    requires Calibrated(t)
    ensures var s := MaxSlope(t, |t|);
            -(0.5 * s) <= Voltage(t, VoltageToDac(t, y) as real) - y <= 0.5 * s
  {
    hide Voltage, Exact, Round, Slope, MaxSlope;
    RoundNear(Exact(t, y));
    VoltageOfExact(t, y);
    SlopeFacts(t[0], t[1]);
    assert Slope(t[1 - 1], t[1]) <= MaxSlope(t, |t|);
    NearbyVoltage(t, Exact(t, y), Round(Exact(t, y)) as real, MaxSlope(t, |t|));
  }
}
