/** The event-building loop of TOF_CoincidenceEvents: one record per active channel, collected in a
    window whose anchor slides while only one channel is present. */
module Coincidence {
  import opened Prelude

  const CLOCKS_IN_A_FRAME := 1024

  /** One stage-2 entry; the fields that are only copied are kept together. */
  datatype Hit = Hit(frameID: int, channelID: nat, tCoarse: nat, payload: int)

  function Time(h: Hit): int
  {
    CLOCKS_IN_A_FRAME * h.frameID + h.tCoarse
  }

  function Abs(x: int): nat { if x < 0 then -x else x }

  predicate Far(t: int, anchor: int, window: real)
  {
    Abs(t - anchor) as real > window
  }

  // ----- Specification: windows of the hit stream, without any map -----

  predicate Occurs(hs: seq<Hit>, c: nat)
  {
    exists i :: 0 <= i < |hs| && hs[i].channelID == c
  }

  /** The active channels seen in a stretch of hits. */
  function Present(hs: seq<Hit>, active: seq<nat>): set<nat>
  {
    set i | 0 <= i < |hs| && hs[i].channelID in active :: hs[i].channelID
  }

  /** The last hit of a channel. */
  function Last(hs: seq<Hit>, c: nat): (h: Hit)
    requires Occurs(hs, c)
    ensures h.channelID == c && h in hs
  {
    if hs[|hs| - 1].channelID == c then hs[|hs| - 1]
    else
      OccursBefore(hs, c);
      Last(hs[..|hs| - 1], c)
  }

  lemma OccursBefore(hs: seq<Hit>, c: nat)
    requires Occurs(hs, c) && hs[|hs| - 1].channelID != c
    ensures Occurs(hs[..|hs| - 1], c)
  {
    var i :| 0 <= i < |hs| && hs[i].channelID == c;
    assert hs[..|hs| - 1][i].channelID == c;
  }

  /** Where the current window starts, and the time later hits are compared with. */
  datatype Window = Window(start: nat, anchor: int)

  /** The window after n hits: a hit too far from the anchor starts a new one, and the anchor
      follows the hits for as long as only one active channel is present. */
  function WindowAfter(hits: seq<Hit>, n: nat, active: seq<nat>, window: real): (w: Window)
    requires n <= |hits| && |hits| > 0
    ensures w.start <= n && (n > 0 ==> w.start < n)
    decreases n
  {
    if n == 0 then Window(0, Time(hits[0]))
    else
      var w, t := WindowAfter(hits, n - 1, active, window), Time(hits[n - 1]);
      var start := if Far(t, w.anchor, window) then n - 1 else w.start;
      Window(start, if |Present(hits[start..n], active)| == 1 then t else w.anchor)
  }

  function InWindow(hits: seq<Hit>, n: nat, active: seq<nat>, window: real): seq<Hit>
    requires n <= |hits| && |hits| > 0
  {
    hits[WindowAfter(hits, n, active, window).start..n]
  }

  /** Every active channel has been hit in the window, and the list repeats none. */
  ghost predicate Emits(hits: seq<Hit>, n: nat, active: seq<nat>, window: real)
    requires 0 < n <= |hits|
  {
    NoRepeats(active) && forall c :: c in active ==> Occurs(InWindow(hits, n, active, window), c)
  }

  /** One record per active channel, in list order: its latest hit in the window. */
  ghost function Event(hits: seq<Hit>, n: nat, active: seq<nat>, window: real): (e: seq<Hit>)
    requires 0 < n <= |hits| && Emits(hits, n, active, window)
    ensures |e| == |active|
    ensures forall i :: 0 <= i < |e| ==> e[i].channelID == active[i] && e[i] in InWindow(hits, n, active, window)
  {
    seq(|active|, i requires 0 <= i < |active| => Last(InWindow(hits, n, active, window), active[i]))
  }

  ghost function Events(hits: seq<Hit>, n: nat, active: seq<nat>, window: real): seq<seq<Hit>>
    requires n <= |hits| && |hits| > 0
    decreases n
  {
    if n == 0 then []
    else Events(hits, n - 1, active, window)
         + if Emits(hits, n, active, window) then [Event(hits, n, active, window)] else []
  }

  // ----- The map kept by the code -----

  /** The map holds exactly the latest hit of every active channel of the stretch. */
  ghost predicate HoldsLatest(data: map<nat, Hit>, hs: seq<Hit>, active: seq<nat>)
  {
    && data.Keys == Present(hs, active)
    && forall c :: c in data ==> Occurs(hs, c) && data[c] == Last(hs, c)
  }

  lemma PresentIff(hs: seq<Hit>, active: seq<nat>, c: nat)
    ensures c in Present(hs, active) <==> c in active && Occurs(hs, c)
  {
  }

  lemma LastSnoc(hs: seq<Hit>, h: Hit, c: nat)
    requires Occurs(hs + [h], c)
    ensures h.channelID == c ==> Last(hs + [h], c) == h
    ensures h.channelID != c ==> Occurs(hs, c) && Last(hs + [h], c) == Last(hs, c)
  {
    assert (hs + [h])[..|hs|] == hs;
    if h.channelID != c { OccursBefore(hs + [h], c); }
  }

  lemma AddHit(data: map<nat, Hit>, hs: seq<Hit>, h: Hit, active: seq<nat>)
    requires HoldsLatest(data, hs, active)
    ensures HoldsLatest(if h.channelID in active then data[h.channelID := h] else data, hs + [h], active)
  {
    var new_ := if h.channelID in active then data[h.channelID := h] else data;
    forall c
      ensures c in new_ <==> c in Present(hs + [h], active)
    {
      PresentIff(hs, active, c);
      PresentIff(hs + [h], active, c);
      OccursSnoc(hs, h, c);
    }
    forall c | c in new_
      ensures Occurs(hs + [h], c) && new_[c] == Last(hs + [h], c)
    {
      OccursSnoc(hs, h, c);
      LastSnoc(hs, h, c);
    }
  }

  lemma OccursSnoc(hs: seq<Hit>, h: Hit, c: nat)
    ensures Occurs(hs + [h], c) <==> h.channelID == c || Occurs(hs, c)
  {
    if h.channelID == c { assert (hs + [h])[|hs|].channelID == c; }
    if Occurs(hs, c) {
      var i :| 0 <= i < |hs| && hs[i].channelID == c;
      assert (hs + [h])[i].channelID == c;
    }
  }

  ghost function ToSet(xs: seq<nat>): set<nat>
  {
    set x | x in xs
  }

  lemma {:induction false} SetSize(xs: seq<nat>)
    ensures |ToSet(xs)| <= |xs| && (|ToSet(xs)| == |xs| <==> NoRepeats(xs))
  {
    if xs != [] {
      var init, x := xs[..|xs| - 1], xs[|xs| - 1];
      assert xs == init + [x];
      SetSize(init);
      assert ToSet(xs) == ToSet(init) + {x};
      if x in init {
        var i :| 0 <= i < |init| && init[i] == x;
        assert xs[i] == xs[|xs| - 1];
        assert ToSet(xs) == ToSet(init);
      } else {
        assert NoRepeats(init) ==> NoRepeats(xs);
        assert NoRepeats(xs) ==> NoRepeats(init);
      }
    }
  }

  /** The two tests of the code, size and flags, amount to the specification's. */
  lemma TestsAgree(data: map<nat, Hit>, hs: seq<Hit>, active: seq<nat>)
    requires HoldsLatest(data, hs, active)
    ensures |data| == |active| && (forall c :: c in active ==> c in data) <==>
            NoRepeats(active) && forall c :: c in active ==> Occurs(hs, c)
  {
    SetSize(active);
    forall c
      ensures c in data <==> c in active && Occurs(hs, c)
    {
      PresentIff(hs, active, c);
    }
    assert data.Keys <= ToSet(active);
    if forall c :: c in active ==> c in data {
      assert data.Keys == ToSet(active);
      assert |data| == |data.Keys|;
    }
  }

  /** In terms of the stream: the code's tests decide whether an event is due after n hits. */
  lemma Decide(data: map<nat, Hit>, hits: seq<Hit>, n: nat, active: seq<nat>, window: real)
    requires 0 < n <= |hits| && HoldsLatest(data, InWindow(hits, n, active, window), active)
    ensures |data| == |Present(InWindow(hits, n, active, window), active)|
    ensures |data| == |active| && (forall c :: c in active ==> c in data) <==> Emits(hits, n, active, window)
  {
    hide WindowAfter, Last, Present;
    TestsAgree(data, InWindow(hits, n, active, window), active);
    assert |data| == |data.Keys|;
  }

  lemma NextEvents(hits: seq<Hit>, n: nat, active: seq<nat>, window: real)
    requires n < |hits|
    ensures Events(hits, n + 1, active, window) == Events(hits, n, active, window)
            + if Emits(hits, n + 1, active, window) then [Event(hits, n + 1, active, window)] else []
  {
  }

  lemma NothingYet(hits: seq<Hit>, active: seq<nat>, window: real)
    requires |hits| > 0
    ensures InWindow(hits, 0, active, window) == [] && WindowAfter(hits, 0, active, window).anchor == Time(hits[0])
    ensures HoldsLatest(map[], [], active) && Events(hits, 0, active, window) == []
  {
  }

  /** The map after a hit: cleared if the hit is far from the anchor, then updated if its channel
      is active. */
  function Updated(data: map<nat, Hit>, lastTime: int, h: Hit, active: seq<nat>, window: real): map<nat, Hit>
  {
    var kept := if Far(Time(h), lastTime, window) then map[] else data;
    if h.channelID in active then kept[h.channelID := h] else kept
  }

  /** One entry of the loop: update the map and the anchor, and build a record if all is present. */
  method ProcessHit(data: map<nat, Hit>, lastTime: int, h: Hit, active: seq<nat>, window: real)
    returns (data': map<nat, Hit>, lastTime': int, record: Option<seq<Hit>>)
    ensures data' == Updated(data, lastTime, h, active, window)
    ensures lastTime' == if |data'| == 1 then Time(h) else lastTime
    ensures record.Some? <==> |data'| == |active| && forall c :: c in active ==> c in data'
    ensures record.Some? ==> |record.value| == |active| && forall i :: 0 <= i < |active| ==> record.value[i] == data'[active[i]]
  {
    var currTime := Time(h);
    data', lastTime' := data, lastTime;
    if Far(currTime, lastTime, window) { data' := map[]; }
    if h.channelID in active { data' := data'[h.channelID := h]; }
    if |data'| == 1 { lastTime' := currTime; }
    var good := true;
    var i := 0;
    while i < |active|
      invariant 0 <= i <= |active| && (good <==> forall j :: 0 <= j < i ==> active[j] in data')
    {
      good := good && active[i] in data';
      i := i + 1;
    }
    if |data'| != |active| || !good { return data', lastTime', None; }
    var branch: seq<Hit> := [];
    i := 0;
    while i < |active|
      invariant 0 <= i <= |active| && |branch| == i && forall j :: 0 <= j < i ==> branch[j] == data'[active[j]]
    {
      branch := branch + [data'[active[i]]];
      i := i + 1;
    }
    return data', lastTime', Some(branch);
  }

  /** The map, the anchor and the decision follow the stream. */
  lemma HitFollowsStream(hits: seq<Hit>, n: nat, active: seq<nat>, window: real, data: map<nat, Hit>)
    requires n < |hits| && HoldsLatest(data, InWindow(hits, n, active, window), active)
    ensures var w := WindowAfter(hits, n, active, window);
            var now := Updated(data, w.anchor, hits[n], active, window);
            && HoldsLatest(now, InWindow(hits, n + 1, active, window), active)
            && WindowAfter(hits, n + 1, active, window).anchor == (if |now| == 1 then Time(hits[n]) else w.anchor)
            && (|now| == |active| && (forall c :: c in active ==> c in now) <==> Emits(hits, n + 1, active, window))
  {
    hide WindowAfter, InWindow, Present, Last, HoldsLatest, Emits, Far;
    var h, w := hits[n], WindowAfter(hits, n, active, window);
    StepWindow(hits, n, active, window);
    NothingYet(hits, active, window);
    var far := Far(Time(h), w.anchor, window);
    AddHit(if far then map[] else data, if far then [] else InWindow(hits, n, active, window), h, active);
    Decide(Updated(data, w.anchor, h, active, window), hits, n + 1, active, window);
  }

  lemma RecordFollowsStream(hits: seq<Hit>, n: nat, active: seq<nat>, window: real, data: map<nat, Hit>, record: Option<seq<Hit>>)
    requires n < |hits| && HoldsLatest(data, InWindow(hits, n + 1, active, window), active)
    requires record.Some? <==> Emits(hits, n + 1, active, window)
    requires record.Some? ==> forall c :: c in active ==> c in data
    requires record.Some? ==> |record.value| == |active| && forall i :: 0 <= i < |active| ==> record.value[i] == data[active[i]]
    ensures Events(hits, n + 1, active, window) == Events(hits, n, active, window) + if record.Some? then [record.value] else []
  {
    hide InWindow, HoldsLatest, Emits, Event, Events;
    NextEvents(hits, n, active, window);
    if record.Some? { RecordIsEvent(hits, n + 1, active, window, data, record.value); }
  }

  /** One entry of the stream: whatever the map and the anchor stood for before it, they stand for
      after it, and the record built is the event due. */
  method ProcessEntry(hits: seq<Hit>, n: nat, active: seq<nat>, window: real, data: map<nat, Hit>, lastTime: int)
    returns (data': map<nat, Hit>, lastTime': int, record: Option<seq<Hit>>)
    requires n < |hits| && lastTime == WindowAfter(hits, n, active, window).anchor
    requires HoldsLatest(data, InWindow(hits, n, active, window), active)
    ensures lastTime' == WindowAfter(hits, n + 1, active, window).anchor
    ensures HoldsLatest(data', InWindow(hits, n + 1, active, window), active)
    ensures Events(hits, n + 1, active, window) == Events(hits, n, active, window) + if record.Some? then [record.value] else []
  {
    hide WindowAfter, InWindow, Present, HoldsLatest, Emits, Event, Events, Updated, Time;
    HitFollowsStream(hits, n, active, window, data);
    data', lastTime', record := ProcessHit(data, lastTime, hits[n], active, window);
    RecordFollowsStream(hits, n, active, window, data', record);
  }

  /** getCoincidenceEventsTree: an empty input yields no tree, otherwise exactly the specified
      events, whatever the hits, the channel list and the window. */
  method GetCoincidenceEvents(hits: seq<Hit>, active: seq<nat>, window: real) returns (tree: Option<seq<seq<Hit>>>)
    ensures hits == [] ==> tree == None
    ensures hits != [] ==> tree == Some(Events(hits, |hits|, active, window))
  {
    if |hits| == 0 { return None; }
    hide WindowAfter, InWindow, HoldsLatest, Events, Time;
    var lastTime, data, events: seq<seq<Hit>> := Time(hits[0]), map[], [];
    var n := 0;
    NothingYet(hits, active, window);
    while n < |hits|
      invariant 0 <= n <= |hits|
      invariant lastTime == WindowAfter(hits, n, active, window).anchor
      invariant HoldsLatest(data, InWindow(hits, n, active, window), active)
      invariant events == Events(hits, n, active, window)
    {
      var record;
      data, lastTime, record := ProcessEntry(hits, n, active, window, data, lastTime);
      if record.Some? { events := events + [record.value]; }
      n := n + 1;
    }
    return Some(events);
  }

  lemma StepWindow(hits: seq<Hit>, n: nat, active: seq<nat>, window: real)
    requires n < |hits|
    ensures var w, h := WindowAfter(hits, n, active, window), hits[n];
            var far := Far(Time(h), w.anchor, window);
            && InWindow(hits, n + 1, active, window) == (if far then [] else InWindow(hits, n, active, window)) + [h]
            && WindowAfter(hits, n + 1, active, window).anchor ==
               if |Present(InWindow(hits, n + 1, active, window), active)| == 1 then Time(h) else w.anchor
  {
    var w := WindowAfter(hits, n, active, window);
    assert hits[w.start..n + 1] == hits[w.start..n] + [hits[n]];
    assert hits[n..n + 1] == [] + [hits[n]];
  }

  lemma RecordIsEvent(hits: seq<Hit>, n: nat, active: seq<nat>, window: real, data: map<nat, Hit>, record: seq<Hit>)
    requires 0 < n <= |hits| && Emits(hits, n, active, window)
    requires HoldsLatest(data, InWindow(hits, n, active, window), active)
    requires (forall c :: c in active ==> c in data) && |record| == |active|
    requires forall i :: 0 <= i < |active| ==> record[i] == data[active[i]]
    ensures record == Event(hits, n, active, window)
  {
  }

  // ----- setActiveChannels -----

  function Insert(x: nat, xs: seq<nat>): seq<nat>
  {
    if xs == [] || x <= xs[0] then [x] + xs else [xs[0]] + Insert(x, xs[1..])
  }

  /** The sorted channel list. */
  function SortChannels(xs: seq<nat>): seq<nat>
  {
    if xs == [] then [] else Insert(xs[0], SortChannels(xs[1..]))
  }

  predicate Ascending(xs: seq<nat>)
  {
    forall i, j :: 0 <= i < j < |xs| ==> xs[i] <= xs[j]
  }

  lemma {:induction false} InsertKeepsAll(x: nat, xs: seq<nat>)
    ensures multiset(Insert(x, xs)) == multiset(xs) + multiset{x}
  {
    if xs != [] && x > xs[0] {
      InsertKeepsAll(x, xs[1..]);
      assert xs == [xs[0]] + xs[1..];
    }
  }

  lemma {:induction false} InsertKeepsOrder(x: nat, xs: seq<nat>)
    requires Ascending(xs)
    ensures Insert(x, xs) != [] && Ascending(Insert(x, xs))
    ensures Insert(x, xs)[0] == if xs == [] || x <= xs[0] then x else xs[0]
  {
    if xs != [] {
      if x > xs[0] {
        InsertKeepsOrder(x, xs[1..]);
        Prepended(xs[0], Insert(x, xs[1..]));
      } else {
        Prepended(x, xs);
      }
    }
  }

  lemma Prepended(x: nat, xs: seq<nat>)
    requires Ascending(xs) && xs != [] && x <= xs[0]
    ensures Ascending([x] + xs)
  {
  }

  /** setActiveChannels keeps the channels and puts them in ascending order, so events list them
      ascending. */
  lemma {:induction false} SortChannelsSorts(xs: seq<nat>)
    ensures Ascending(SortChannels(xs)) && multiset(SortChannels(xs)) == multiset(xs)
  {
    if xs != [] {
      SortChannelsSorts(xs[1..]);
      InsertKeepsAll(xs[0], SortChannels(xs[1..]));
      InsertKeepsOrder(xs[0], SortChannels(xs[1..]));
      assert xs == [xs[0]] + xs[1..];
    }
  }

  lemma {:induction false} NoRepeatsCounts(xs: seq<nat>)
    ensures NoRepeats(xs) <==> forall c :: multiset(xs)[c] <= 1
  {
    if xs != [] {
      var init, x := xs[..|xs| - 1], xs[|xs| - 1];
      assert xs == init + [x];
      NoRepeatsCounts(init);
      assert forall c :: multiset(xs)[c] == multiset(init)[c] + if c == x then 1 else 0;
      assert x in init <==> x in multiset(init);
      NoRepeatsSnoc(init, x);
    }
  }

  lemma NoRepeatsSnoc(init: seq<nat>, x: nat)
    ensures NoRepeats(init + [x]) <==> NoRepeats(init) && x !in init
  {
    var xs := init + [x];
    if NoRepeats(xs) {
      forall i, j | 0 <= i < j < |init|
        ensures init[i] != init[j]
      {
        assert xs[i] != xs[j];
      }
      forall i | 0 <= i < |init|
        ensures init[i] != x
      {
        assert xs[i] != xs[|init|];
      }
    }
  }

  /** For a channel list without repeats, given in any order, an event is due exactly when every
      listed channel has been hit in the window; its records are in ascending channel order. */
  lemma AscendingEvents(hits: seq<Hit>, n: nat, xs: seq<nat>, window: real)
    requires 0 < n <= |hits| && NoRepeats(xs)
    ensures var active := SortChannels(xs);
            && |active| == |xs|
            && (Emits(hits, n, active, window) <==> forall c :: c in xs ==> Occurs(InWindow(hits, n, active, window), c))
            && (Emits(hits, n, active, window) ==>
                  forall i, j :: 0 <= i < j < |xs| ==>
                    Event(hits, n, active, window)[i].channelID < Event(hits, n, active, window)[j].channelID)
  {
    hide WindowAfter, InWindow, Occurs, SortChannels, Last;
    var active := SortChannels(xs);
    SortChannelsSorts(xs);
    NoRepeatsCounts(xs);
    NoRepeatsCounts(active);
    assert |multiset(active)| == |active| && |multiset(xs)| == |xs|;
    assert forall c :: c in active <==> c in multiset(active);
    assert forall c :: c in xs <==> c in multiset(xs);
  }
}
