/** What the coincidence window guarantees: how far apart in time the hits of one event can lie,
    and exactly when they can lie further apart than the window. */
module CoincidenceWindow {
  import opened Prelude
  import opened Coincidence

  predicate TimeOrdered(hits: seq<Hit>)
  {
    forall i, j :: 0 <= i <= j < |hits| ==> Time(hits[i]) <= Time(hits[j])
  }

  predicate OnlyActive(hits: seq<Hit>, active: seq<nat>)
  {
    forall i :: 0 <= i < |hits| ==> hits[i].channelID in active
  }

  function Anchor(hits: seq<Hit>, n: nat, active: seq<nat>, window: real): int
    requires n <= |hits| && |hits| > 0
  {
    WindowAfter(hits, n, active, window).anchor
  }

  /** Hit number m is on an inactive channel, finds exactly one active channel present and moves
      the anchor. */
  predicate Drifts(hits: seq<Hit>, m: nat, active: seq<nat>, window: real)
    requires 0 < m <= |hits|
  {
    && hits[m - 1].channelID !in active
    && |Present(InWindow(hits, m, active, window), active)| == 1
    && Anchor(hits, m - 1, active, window) != Time(hits[m - 1])
  }

  /** Some channel present was last hit before the anchor. */
  ghost predicate Stale(hits: seq<Hit>, n: nat, active: seq<nat>, window: real)
    requires 0 < n <= |hits|
  {
    OlderThan(Anchor(hits, n, active, window), InWindow(hits, n, active, window), active)
  }

  ghost predicate OlderThan(anchor: int, hs: seq<Hit>, active: seq<nat>)
  {
    exists c :: c in active && Occurs(hs, c) && Time(Last(hs, c)) < anchor
  }

  predicate UpTo(anchor: int, t: int, window: real)
  {
    t <= anchor || (t - anchor) as real <= window
  }

  ghost predicate AllUpTo(anchor: int, hs: seq<Hit>, active: seq<nat>, window: real)
  {
    forall c :: c in active && Occurs(hs, c) ==> UpTo(anchor, Time(Last(hs, c)), window)
  }

  /** No channel present was last hit beyond the end of the window. */
  ghost predicate Bounded(hits: seq<Hit>, n: nat, active: seq<nat>, window: real)
    requires 0 < n <= |hits|
  {
    var anchor := Anchor(hits, n, active, window);
    anchor <= Time(hits[n - 1]) && AllUpTo(anchor, InWindow(hits, n, active, window), active, window)
  }

  // ----- One hit -----

  lemma TwoPresent(s: set<nat>, c: nat, d: nat)
    requires c in s && d in s && c != d
    ensures |s| != 1
  {
    var r := s - {c};
    assert d in r && |s| == |r| + 1;
  }

  lemma SinglePresent(h: Hit, active: seq<nat>)
    requires h.channelID in active
    ensures |Present([] + [h], active)| == 1
  {
    assert Present([] + [h], active) == {h.channelID} by {
      forall c
        ensures c in Present([] + [h], active) <==> c == h.channelID
      {
        PresentIff([] + [h], active, c);
        OccursSnoc([], h, c);
      }
    }
  }

  lemma HitKeepsBounded(rest: seq<Hit>, h: Hit, before: int, after: int, active: seq<nat>, window: real)
    requires before <= Time(h) && after == if |Present(rest + [h], active)| == 1 then Time(h) else before
    requires rest == [] || (!Far(Time(h), before, window) && AllUpTo(before, rest, active, window))
    ensures after <= Time(h) && AllUpTo(after, rest + [h], active, window)
  {
    hide Present;
    var hs := rest + [h];
    if rest == [] && h.channelID in active { SinglePresent(h, active); }
    forall c | c in active && Occurs(hs, c)
      ensures UpTo(after, Time(Last(hs, c)), window)
    {
      LastSnoc(rest, h, c);
      if c != h.channelID { assert UpTo(before, Time(Last(rest, c)), window); }
    }
  }

  /** What the window kept of the hits before hit number n. */
  function Kept(hits: seq<Hit>, n: nat, active: seq<nat>, window: real): seq<Hit>
    requires 0 < n <= |hits|
  {
    if Far(Time(hits[n - 1]), Anchor(hits, n - 1, active, window), window) then []
    else InWindow(hits, n - 1, active, window)
  }

  lemma {:induction false} StaysBounded(hits: seq<Hit>, n: nat, active: seq<nat>, window: real)
    requires 0 < n <= |hits| && TimeOrdered(hits)
    ensures Bounded(hits, n, active, window) && Anchor(hits, n - 1, active, window) <= Time(hits[n - 1])
    decreases n
  {
    hide WindowAfter, InWindow, Present, Last, Far, AllUpTo;
    StepWindow(hits, n - 1, active, window);
    NothingYet(hits, active, window);
    if n > 1 {
      StaysBounded(hits, n - 1, active, window);
      assert Time(hits[n - 2]) <= Time(hits[n - 1]);
    }
    HitKeepsBounded(Kept(hits, n, active, window), hits[n - 1], Anchor(hits, n - 1, active, window),
                    Anchor(hits, n, active, window), active, window);
  }

  /** While one channel is present the anchor is the time of the last hit, active or not. */
  lemma AnchorFollows(hits: seq<Hit>, n: nat, active: seq<nat>, window: real)
    requires 0 < n <= |hits| && |Present(InWindow(hits, n, active, window), active)| == 1
    ensures Anchor(hits, n, active, window) == Time(hits[n - 1])
  {
    StepWindow(hits, n - 1, active, window);
  }

  lemma KeptTimes(hits: seq<Hit>, n: nat, active: seq<nat>, window: real, h: Hit)
    requires 0 < n <= |hits| && TimeOrdered(hits) && h in InWindow(hits, n, active, window)
    ensures Time(h) <= Time(hits[n - 1])
  {
    var start := WindowAfter(hits, n, active, window).start;
    var i :| 0 <= i < n - start && hits[start..n][i] == h;
    assert hits[start + i] == h;
  }

  lemma OlderAfterHit(rest: seq<Hit>, h: Hit, before: int, after: int, active: seq<nat>)
    requires before <= Time(h) && after == if |Present(rest + [h], active)| == 1 then Time(h) else before
    requires OlderThan(after, rest + [h], active)
    ensures OlderThan(before, rest, active) ||
            (h.channelID !in active && |Present(rest + [h], active)| == 1 && before != Time(h))
  {
    hide Present, Last, Time;
    var c :| c in active && Occurs(rest + [h], c) && Time(Last(rest + [h], c)) < after;
    LastSnoc(rest, h, c);
    if h.channelID in active {
      OccursSnoc(rest, h, h.channelID);
      PresentIff(rest + [h], active, c);
      PresentIff(rest + [h], active, h.channelID);
      TwoPresent(Present(rest + [h], active), c, h.channelID);
    }
  }

  /** A channel becomes older than the anchor only by a drift ... */
  lemma StaleStep(hits: seq<Hit>, n: nat, active: seq<nat>, window: real)
    requires 0 < n <= |hits| && TimeOrdered(hits) && Stale(hits, n, active, window)
    ensures Drifts(hits, n, active, window) || (n > 1 && Stale(hits, n - 1, active, window))
  {
    hide WindowAfter, InWindow, Present, Last, Far, Time, OlderThan;
    StepWindow(hits, n - 1, active, window);
    StaysBounded(hits, n, active, window);
    NothingYet(hits, active, window);
    OlderAfterHit(Kept(hits, n, active, window), hits[n - 1], Anchor(hits, n - 1, active, window),
                  Anchor(hits, n, active, window), active);
    NothingOlder(Anchor(hits, n - 1, active, window), active);
  }

  lemma NothingOlder(anchor: int, active: seq<nat>)
    ensures !OlderThan(anchor, [], active)
  {
  }

  /** ... and every drift makes one older. */
  lemma DriftIsStale(hits: seq<Hit>, n: nat, active: seq<nat>, window: real)
    requires 0 < n <= |hits| && TimeOrdered(hits) && Drifts(hits, n, active, window)
    ensures Anchor(hits, n, active, window) == Time(hits[n - 1]) && Stale(hits, n, active, window)
  {
    hide WindowAfter, Last, Far;
    var h, rest := hits[n - 1], Kept(hits, n, active, window);
    StepWindow(hits, n - 1, active, window);
    StaysBounded(hits, n, active, window);
    NothingYet(hits, active, window);
    hide InWindow;
    assert Present(rest + [h], active) == Present(rest, active) by { SamePresent(rest, h, active); }
    var c := SomePresent(rest, active);
    AnchorFollows(hits, n - 1, active, window);
    KeptTimes(hits, n - 1, active, window, Last(rest, c));
    OccursSnoc(rest, h, c);
    LastSnoc(rest, h, c);
  }

  lemma SamePresent(rest: seq<Hit>, h: Hit, active: seq<nat>)
    requires h.channelID !in active
    ensures Present(rest + [h], active) == Present(rest, active)
  {
    forall c
      ensures c in Present(rest + [h], active) <==> c in Present(rest, active)
    {
      PresentIff(rest, active, c);
      PresentIff(rest + [h], active, c);
      OccursSnoc(rest, h, c);
    }
  }

  lemma SomePresent(hs: seq<Hit>, active: seq<nat>) returns (c: nat)
    requires |Present(hs, active)| == 1
    ensures c in active && Occurs(hs, c)
  {
    hide Present;
    c :| c in Present(hs, active);
    PresentIff(hs, active, c);
  }

  // ----- Without a drift, events fit the window -----

  lemma {:induction false} StaleOnlyByDrift(hits: seq<Hit>, n: nat, active: seq<nat>, window: real)
    requires 0 < n <= |hits| && TimeOrdered(hits) && Stale(hits, n, active, window)
    ensures exists m :: 0 < m <= n && Drifts(hits, m, active, window)
    decreases n
  {
    hide Drifts, Stale;
    StaleStep(hits, n, active, window);
    if !Drifts(hits, n, active, window) { StaleOnlyByDrift(hits, n - 1, active, window); }
  }

  /** Two hits of the event are further apart than the window. */
  ghost predicate Wide(hits: seq<Hit>, n: nat, active: seq<nat>, window: real)
    requires 0 < n <= |hits|
  {
    && Emits(hits, n, active, window)
    && exists i, j :: 0 <= i < |active| && 0 <= j < |active| &&
         Apart(Event(hits, n, active, window)[i], Event(hits, n, active, window)[j], window)
  }

  predicate Apart(g: Hit, h: Hit, window: real)
  {
    Time(g) < Time(h) && (Time(h) - Time(g)) as real > window
  }

  lemma WideIsStale(hits: seq<Hit>, n: nat, active: seq<nat>, window: real)
    requires 0 < n <= |hits| && TimeOrdered(hits) && Wide(hits, n, active, window)
    ensures Stale(hits, n, active, window)
  {
    StaysBounded(hits, n, active, window);
    hide WindowAfter, InWindow, Present, Last, Occurs, Anchor;
    var e := Event(hits, n, active, window);
    var i, j :| 0 <= i < |active| && 0 <= j < |active| && Apart(e[i], e[j], window);
    assert active[i] in active && active[j] in active;
  }

  /** On a time-ordered stream in which no inactive hit has moved the anchor, the hits of every event
      lie within the window of each other. */
  lemma EventWithinWindow(hits: seq<Hit>, n: nat, active: seq<nat>, window: real, i: nat, j: nat)
    requires 0 < n <= |hits| && TimeOrdered(hits) && Emits(hits, n, active, window)
    requires forall m :: 0 < m <= n ==> !Drifts(hits, m, active, window)
    requires i < |active| && j < |active|
    ensures var e := Event(hits, n, active, window);
            Time(e[i]) == Time(e[j]) || Abs(Time(e[i]) - Time(e[j])) as real <= window
  {
    hide Emits, Event, Drifts, Stale, Time;
    var e := Event(hits, n, active, window);
    if Apart(e[i], e[j], window) || Apart(e[j], e[i], window) {
      WideIsStale(hits, n, active, window);
      StaleOnlyByDrift(hits, n, active, window);
      assert false;
    }
  }

  /** In particular when the stream has no inactive hit at all. */
  lemma ActiveStreamsNeverDrift(hits: seq<Hit>, m: nat, active: seq<nat>, window: real)
    requires 0 < m <= |hits| && OnlyActive(hits, active)
    ensures !Drifts(hits, m, active, window)
  {
  }

  // ----- With one, they need not: the exact condition -----

  lemma {:induction false} WindowOfPrefix(hits: seq<Hit>, more: seq<Hit>, n: nat, active: seq<nat>, window: real)
    requires n <= |hits| && |hits| > 0
    ensures WindowAfter(hits + more, n, active, window) == WindowAfter(hits, n, active, window)
    ensures InWindow(hits + more, n, active, window) == InWindow(hits, n, active, window)
    decreases n
  {
    hide Present, Far;
    if n > 0 {
      WindowOfPrefix(hits, more, n - 1, active, window);
      var w := WindowAfter(hits, n - 1, active, window);
      assert (hits + more)[w.start..n] == hits[w.start..n];
      assert (hits + more)[n - 1..n] == hits[n - 1..n];
    }
    assert (hits + more)[WindowAfter(hits, n, active, window).start..n] == hits[WindowAfter(hits, n, active, window).start..n];
  }

  lemma {:induction false} ActiveHitsKeepFresh(hits: seq<Hit>, more: seq<Hit>, n: nat, active: seq<nat>, window: real)
    requires 0 < |hits| <= n <= |hits + more| && TimeOrdered(hits + more) && OnlyActive(more, active)
    requires !Stale(hits, |hits|, active, window)
    ensures !Stale(hits + more, n, active, window)
    decreases n
  {
    hide WindowAfter, InWindow, OlderThan, Present;
    if n == |hits| {
      WindowOfPrefix(hits, more, n, active, window);
    } else {
      ActiveHitsKeepFresh(hits, more, n - 1, active, window);
      assert (hits + more)[n - 1] == more[n - 1 - |hits|];
      if Stale(hits + more, n, active, window) { StaleStep(hits + more, n, active, window); }
    }
  }

  /** The active channels other than c, in list order. */
  function Others(active: seq<nat>, c: nat): (ds: seq<nat>)
    ensures forall d :: d in ds <==> d in active && d != c
  {
    if active == [] then []
    else
      var rest := Others(active[1..], c);
      assert active == [active[0]] + active[1..];
      if active[0] == c then rest else [active[0]] + rest
  }

  /** A hit of a channel at any time. */
  function At(t: int, c: nat): (h: Hit)
    ensures Time(h) == t && h.channelID == c
  {
    Hit(t / CLOCKS_IN_A_FRAME, c, t % CLOCKS_IN_A_FRAME, 0)
  }

  function Volley(t: int, ds: seq<nat>): (hs: seq<Hit>)
    ensures |hs| == |ds| && forall i :: 0 <= i < |ds| ==> hs[i] == At(t, ds[i])
  {
    seq(|ds|, i requires 0 <= i < |ds| => At(t, ds[i]))
  }

  lemma VolleyOrdered(hits: seq<Hit>, t: int, ds: seq<nat>)
    requires |hits| > 0 && TimeOrdered(hits) && Time(hits[|hits| - 1]) <= t
    ensures TimeOrdered(hits + Volley(t, ds))
  {
    hide Time;
    var s := hits + Volley(t, ds);
    assert forall i :: 0 <= i < |hits| ==> Time(hits[i]) <= Time(hits[|hits| - 1]);
    assert forall i :: |hits| <= i < |s| ==> Time(s[i]) == t;
  }

  /** The last hit is not beyond the window of the anchor while any channel is present. */
  lemma LastHitNear(hits: seq<Hit>, n: nat, active: seq<nat>, window: real)
    requires 0 < n <= |hits| && TimeOrdered(hits) && window >= 0.0
    requires exists c :: c in active && Occurs(InWindow(hits, n, active, window), c)
    ensures (Time(hits[n - 1]) - Anchor(hits, n, active, window)) as real <= window
  {
    hide WindowAfter, Present, Last, Time;
    var h, rest := hits[n - 1], Kept(hits, n, active, window);
    StaysBounded(hits, n, active, window);
    StepWindow(hits, n - 1, active, window);
    hide InWindow;
    var c :| c in active && Occurs(rest + [h], c);
    if rest == [] {
      OccursSnoc(rest, h, c);
      SinglePresent(h, active);
    }
  }

  /** Other channels hit at the very end of the window neither reset it nor move its anchor. */
  lemma {:induction false} VolleyStays(hits: seq<Hit>, ds: seq<nat>, k: nat, active: seq<nat>, window: real, c: nat, t: int)
    requires |hits| > 0 && k <= |ds| && c in active && Occurs(InWindow(hits, |hits|, active, window), c)
    requires forall d :: d in ds ==> d in active && d != c
    requires !Far(t, Anchor(hits, |hits|, active, window), window)
    ensures var s := hits + Volley(t, ds);
            && InWindow(s, |hits| + k, active, window) == InWindow(hits, |hits|, active, window) + Volley(t, ds)[..k]
            && Anchor(s, |hits| + k, active, window) == Anchor(hits, |hits|, active, window)
    decreases k
  {
    hide WindowAfter, InWindow, Present, Far, Occurs, Time;
    var v, base := Volley(t, ds), InWindow(hits, |hits|, active, window);
    if k == 0 {
      WindowOfPrefix(hits, v, |hits|, active, window);
      assert base + v[..k] == base;
    } else {
      VolleyStays(hits, ds, k - 1, active, window, c, t);
      StepWindow(hits + v, |hits| + k - 1, active, window);
      var seen, h := base + v[..k - 1], v[k - 1];
      assert (hits + v)[|hits| + k - 1] == h && base + v[..k] == seen + [h];
      OccursEarlier(base, v[..k - 1], c);
      assert ds[k - 1] in ds;
      BothPresent(seen, h, c, active);
    }
  }

  lemma BothPresent(hs: seq<Hit>, h: Hit, c: nat, active: seq<nat>)
    requires c in active && h.channelID in active && c != h.channelID && Occurs(hs, c)
    ensures |Present(hs + [h], active)| != 1
  {
    hide Present, Occurs;
    OccursSnoc(hs, h, c);
    OccursSnoc(hs, h, h.channelID);
    PresentIff(hs + [h], active, c);
    PresentIff(hs + [h], active, h.channelID);
    TwoPresent(Present(hs + [h], active), c, h.channelID);
  }

  lemma OccursEarlier(a: seq<Hit>, b: seq<Hit>, c: nat)
    requires Occurs(a, c)
    ensures Occurs(a + b, c)
  {
    var i :| 0 <= i < |a| && a[i].channelID == c;
    assert (a + b)[i].channelID == c;
  }

  lemma {:induction false} LastEarlier(a: seq<Hit>, b: seq<Hit>, c: nat)
    requires Occurs(a, c) && forall i :: 0 <= i < |b| ==> b[i].channelID != c
    ensures Occurs(a + b, c) && Last(a + b, c) == Last(a, c)
    decreases |b|
  {
    OccursEarlier(a, b, c);
    if b == [] {
      assert a + b == a;
    } else {
      var b', h := b[..|b| - 1], b[|b| - 1];
      LastEarlier(a, b', c);
      assert a + b == (a + b') + [h];
      LastSnoc(a + b', h, c);
    }
  }

  /** Every channel of the volley occurs after it, and the last one's latest hit is its own. */
  lemma VolleyOccurs(base: seq<Hit>, ds: seq<nat>, t: int, d: nat)
    requires d in ds
    ensures Occurs(base + Volley(t, ds), d)
    ensures d == ds[|ds| - 1] ==> Last(base + Volley(t, ds), d) == At(t, d)
  {
    var hs, v := base + Volley(t, ds), Volley(t, ds);
    var i :| 0 <= i < |ds| && ds[i] == d;
    assert hs[|base| + i].channelID == d;
    assert hs == (base + v[..|v| - 1]) + [v[|v| - 1]];
    LastSnoc(base + v[..|v| - 1], v[|v| - 1], d);
  }

  /** A continuation of the stream by active hits, in time order, that ends in an event wider than
      the window. */
  ghost predicate Widens(hits: seq<Hit>, more: seq<Hit>, active: seq<nat>, window: real)
    requires |hits| > 0
  {
    OnlyActive(more, active) && TimeOrdered(hits + more) && Wide(hits + more, |hits + more|, active, window)
  }

  /** The end of the window around an anchor, in whole clocks. */
  lemma WindowEnd(anchor: int, window: real, older: int, latest: int)
    requires window >= 0.0 && older < anchor && (latest - anchor) as real <= window
    ensures var t := anchor + window.Floor;
            latest <= t && !Far(t, anchor, window) && older < t && (t - older) as real > window
  {
  }

  /** A stale channel, and the others hit at the end of the window, make a wide event. */
  lemma StaleWidens(hits: seq<Hit>, active: seq<nat>, window: real) returns (more: seq<Hit>)
    requires |hits| > 0 && TimeOrdered(hits) && NoRepeats(active) && |active| >= 2 && window >= 0.0
    requires Stale(hits, |hits|, active, window)
    ensures Widens(hits, more, active, window)
  {
    hide InWindow, Anchor, Far, Time, Last, Occurs, Wide, TimeOrdered;
    var base, anchor := InWindow(hits, |hits|, active, window), Anchor(hits, |hits|, active, window);
    var c :| c in active && Occurs(base, c) && Time(Last(base, c)) < anchor;
    var ds, t := Others(active, c), anchor + window.Floor;
    more := Volley(t, ds);
    LastHitNear(hits, |hits|, active, window);
    WindowEnd(anchor, window, Time(Last(base, c)), Time(hits[|hits| - 1]));
    VolleyOrdered(hits, t, ds);
    VolleyStays(hits, ds, |ds|, active, window, c, t);
    assert more[..|ds|] == more;
    SpreadEvent(hits + more, base, c, ds, t, active, window);
    VolleyActive(t, ds, active);
  }

  lemma VolleyActive(t: int, ds: seq<nat>, active: seq<nat>)
    requires forall d :: d in ds ==> d in active
    ensures OnlyActive(Volley(t, ds), active)
  {
  }

  lemma SpreadEvent(s: seq<Hit>, base: seq<Hit>, c: nat, ds: seq<nat>, t: int, active: seq<nat>, window: real)
    requires NoRepeats(active) && |active| >= 2 && ds == Others(active, c)
    requires |s| > 0 && InWindow(s, |s|, active, window) == base + Volley(t, ds)
    requires c in active && Occurs(base, c) && Time(Last(base, c)) < t && (t - Time(Last(base, c))) as real > window
    ensures Wide(s, |s|, active, window)
  {
    hide InWindow, Last, Occurs, Time;
    LastEarlier(base, Volley(t, ds), c);
    forall d | d in active
      ensures Occurs(InWindow(s, |s|, active, window), d)
    {
      if d != c { VolleyOccurs(base, ds, t, d); }
    }
    assert active[0] in active && active[1] in active && active[0] != active[1];
    assert active[0] in ds || active[1] in ds;
    var d := ds[|ds| - 1];
    assert d in ds;
    VolleyOccurs(base, ds, t, d);
    var i :| 0 <= i < |active| && active[i] == c;
    var j :| 0 <= j < |active| && active[j] == d;
    var e := Event(s, |s|, active, window);
    assert e[i] == Last(base, c) && e[j] == At(t, d);
    assert Apart(e[i], e[j], window);
  }

  /** The exact condition: a time-ordered stream can go on, with active hits only, to an event wider
      than the window if and only if some channel present was last hit before the anchor. By
      StaleOnlyByDrift and DriftIsStale that state begins with a drift and with nothing else. */
  lemma WideAheadIff(hits: seq<Hit>, active: seq<nat>, window: real)
    requires |hits| > 0 && TimeOrdered(hits) && NoRepeats(active) && |active| >= 2 && window >= 0.0
    ensures (exists more :: Widens(hits, more, active, window)) <==> Stale(hits, |hits|, active, window)
  {
    hide Stale, Wide;
    if Stale(hits, |hits|, active, window) {
      var more := StaleWidens(hits, active, window);
      assert Widens(hits, more, active, window);
    } else if more :| Widens(hits, more, active, window) {
      WideIsStale(hits + more, |hits + more|, active, window);
      ActiveHitsKeepFresh(hits, more, |hits + more|, active, window);
      assert false;
    }
  }

  // ----- Chained inactive hits: no bound on the span -----

  lemma OnlyOnePresent(hs: seq<Hit>, active: seq<nat>, c: nat)
    requires c in active && Occurs(hs, c)
    requires forall i :: 0 <= i < |hs| ==> hs[i].channelID == c || hs[i].channelID !in active
    ensures |Present(hs, active)| == 1
  {
    PresentIff(hs, active, c);
    assert Present(hs, active) == {c};
  }

  /** Hit i is on an inactive channel and within the window of the one before. */
  predicate Follows(hits: seq<Hit>, i: nat, active: seq<nat>, window: real)
    requires 0 < i < |hits|
  {
    hits[i].channelID !in active && !Far(Time(hits[i]), Time(hits[i - 1]), window)
  }

  /** One active hit followed by inactive ones, each within the window of the one before: the window
      never closes and the anchor follows. */
  lemma {:induction false} ChainHolds(hits: seq<Hit>, n: nat, active: seq<nat>, window: real)
    requires 0 < n <= |hits| && window >= 0.0 && hits[0].channelID in active
    requires forall i :: 0 < i < n ==> Follows(hits, i, active, window)
    ensures WindowAfter(hits, n, active, window) == Window(0, Time(hits[n - 1]))
    decreases n
  {
    hide Time, Present;
    var hs := hits[0..n];
    assert hs[0].channelID == hits[0].channelID;
    forall i | 0 <= i < n
      ensures hs[i].channelID == hits[0].channelID || hs[i].channelID !in active
    {
      if i > 0 { assert Follows(hits, i, active, window); }
    }
    OnlyOnePresent(hs, active, hits[0].channelID);
    assert !Far(Time(hits[0]), Time(hits[0]), window);
    if n > 1 {
      ChainHolds(hits, n - 1, active, window);
      assert Follows(hits, n - 1, active, window);
    } else {
      assert WindowAfter(hits, 0, active, window) == Window(0, Time(hits[0]));
    }
  }

  /** A hit on channel 1, k inactive hits and a hit on channel 2, w clocks apart. */
  function Chain(w: nat, k: nat): (hits: seq<Hit>)
    ensures |hits| == k + 2
  {
    seq(k + 2, i requires 0 <= i < k + 2 => Hit(0, if i == 0 then 1 else if i <= k then 9 else 2, Spaced(w, i), 0))
  }

  function Spaced(w: nat, i: nat): nat
  {
    if i == 0 then 0 else w + Spaced(w, i - 1)
  }

  lemma {:induction false} SpacedIsProduct(w: nat, i: nat)
    ensures Spaced(w, i) == i * w
  {
    if i > 0 {
      SpacedIsProduct(w, i - 1);
      assert i * w == (i - 1) * w + w;
    }
  }

  lemma {:induction false} SpacedGrows(w: nat, i: nat, j: nat)
    requires i <= j
    ensures Spaced(w, i) <= Spaced(w, j)
    decreases j
  {
    if i < j { SpacedGrows(w, i, j - 1); }
  }

  /** Each hit of the chain is within the window of the one before. */
  lemma ChainSpacing(w: nat, k: nat, i: nat)
    requires 0 < i < k + 2
    ensures !Far(Time(Chain(w, k)[i]), Time(Chain(w, k)[i - 1]), w as real)
    ensures i <= k ==> Follows(Chain(w, k), i, [1, 2], w as real)
  {
    assert Spaced(w, i) == w + Spaced(w, i - 1);
  }

  /** The whole chain is in one window. */
  lemma ChainInWindow(w: nat, k: nat)
    ensures InWindow(Chain(w, k), k + 2, [1, 2], w as real) == Chain(w, k)
  {
    var hits, active, window := Chain(w, k), [1, 2], w as real;
    assert hits[0].channelID == 1;
    hide Present, Far, Time, Chain, Follows, WindowAfter;
    forall i | 0 < i < k + 1
      ensures Follows(hits, i, active, window)
    {
      ChainSpacing(w, k, i);
    }
    ChainHolds(hits, k + 1, active, window);
    ChainSpacing(w, k, k + 1);
    WholeWindow(hits, active, window);
  }

  lemma WholeWindow(hits: seq<Hit>, active: seq<nat>, window: real)
    requires |hits| >= 2 && !Far(Time(hits[|hits| - 1]), Time(hits[|hits| - 2]), window)
    requires WindowAfter(hits, |hits| - 1, active, window) == Window(0, Time(hits[|hits| - 2]))
    ensures InWindow(hits, |hits|, active, window) == hits
  {
    hide Present, Far, Time, WindowAfter;
    var n := |hits| - 1;
    StepWindow(hits, n, active, window);
    assert hits[0..n] + [hits[n]] == hits;
  }

  /** The chain's only hits on channels 1 and 2 are its ends. */
  lemma ChainEnds(w: nat, k: nat)
    ensures var hits := Chain(w, k);
            Occurs(hits, 1) && Occurs(hits, 2) && Last(hits, 1) == hits[0] && Last(hits, 2) == hits[k + 1]
  {
    var hits := Chain(w, k);
    var first, last := hits[0], hits[k + 1];
    assert [first][0].channelID == 1;
    assert [first] + hits[1..] == hits && hits[..k + 1] + [last] == hits;
    LastEarlier([first], hits[1..], 1);
    OccursSnoc(hits[..k + 1], last, 2);
    LastSnoc(hits[..k + 1], last, 2);
  }

  lemma ChainOrdered(w: nat, k: nat)
    ensures TimeOrdered(Chain(w, k))
  {
    var hits := Chain(w, k);
    forall i, j | 0 <= i <= j < |hits|
      ensures Time(hits[i]) <= Time(hits[j])
    {
      SpacedGrows(w, i, j);
    }
  }

  /** Inactive hits can carry the anchor any distance: with k of them between two active hits the
      event spans k + 1 windows. */
  lemma InactiveHitsStretchWindow(w: nat, k: nat)
    ensures var hits, active := Chain(w, k), [1, 2];
            && TimeOrdered(hits) && Emits(hits, k + 2, active, w as real)
            && Time(Event(hits, k + 2, active, w as real)[1]) - Time(Event(hits, k + 2, active, w as real)[0]) == (k + 1) * w
  {
    hide InWindow, Occurs, Last, Event, Emits, TimeOrdered;
    ChainInWindow(w, k);
    ChainEnds(w, k);
    ChainOrdered(w, k);
    SpacedIsProduct(w, k + 1);
    PairEvent(Chain(w, k), [1, 2], w as real, Chain(w, k));
  }

  lemma PairEvent(hits: seq<Hit>, active: seq<nat>, window: real, hs: seq<Hit>)
    requires |hits| > 0 && |active| == 2 && active[0] != active[1] && hs == InWindow(hits, |hits|, active, window)
    requires Occurs(hs, active[0]) && Occurs(hs, active[1])
    ensures Emits(hits, |hits|, active, window)
    ensures Event(hits, |hits|, active, window) == [Last(hs, active[0]), Last(hs, active[1])]
  {
    hide InWindow, Last, Occurs;
    assert forall c :: c in active ==> c == active[0] || c == active[1];
  }
}
