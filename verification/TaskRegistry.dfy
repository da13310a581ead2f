/** The registry of background processes shared by the worker, macro, temperature and monitor
    threads of GRAMS_TOF_CommandDispatch. Each region locked by pidMutex_ is one step; process
    identifiers are never reused. */
module TaskRegistry {
  import opened Prelude

  type Pid = nat

  /** The three terminal callbacks: 0, 1 and 2 on the wire. */
  datatype Status = Success | Failure | Interrupted

  datatype Task = Task(code: int, sendCallback: bool)

  const STOP_DAQ := 0x5001
  const StopTask := Task(STOP_DAQ, true)

  /** What waitpid reports for one child: not finished, finished, or -1. */
  datatype Wait = Running | Exited(ok: bool) | Error

  datatype Event =
    | Launch(pid: Pid, task: Task)
    | StopFork(pid: Pid)
    | StopSweep(stop: Option<Pid>)
    | Poll(wait: Pid -> Wait)

  /** The registry, with the history the properties speak about: the callbacks attempted for
      each process ever registered, the stop scripts, those whose STOP has not swept yet, the
      processes reaped, those that left without a callback, and the stop scripts that got a
      callback before their own STOP swept. */
  datatype State = State(
    registry: map<Pid, Task>,
    calls: map<Pid, seq<Status>>,
    stops: set<Pid>,
    pending: set<Pid>,
    reaped: set<Pid>,
    silent: set<Pid>,
    early: set<Pid>)

  const Initial := State(map[], map[], {}, {}, {}, {}, {})

  predicate Enabled(s: State, e: Event)
  {
    match e
    case Launch(p, _) => p !in s.calls
    case StopFork(p) => p !in s.calls
    case StopSweep(stop) => stop.Some? ==> stop.value in s.pending
    case Poll(wait) => forall p :: p in s.registry && wait(p).Exited? ==> p !in s.reaped
  }

  /** The processes a sweep terminates and reports as interrupted. */
  function Swept(s: State, stop: Option<Pid>): set<Pid>
  {
    set p | p in s.registry && stop != Some(p)
  }

  function Finished(s: State, wait: Pid -> Wait): set<Pid>
  {
    set p | p in s.registry && wait(p).Exited?
  }

  function Gone(s: State, wait: Pid -> Wait): set<Pid>
  {
    set p | p in s.registry && !wait(p).Running?
  }

  /** Finished processes whose task asks for a callback. */
  function Reported(s: State, wait: Pid -> Wait): set<Pid>
  {
    set p | p in s.registry && wait(p).Exited? && s.registry[p].sendCallback
  }

  function Verdict(w: Wait): Status
  {
    if w.Exited? && w.ok then Success else Failure
  }

  function Next(s: State, e: Event): State
  {
    match e
    case Launch(p, t) => s.(registry := s.registry[p := t], calls := s.calls[p := []])
    case StopFork(p) =>
      s.(registry := s.registry[p := StopTask], calls := s.calls[p := []],
         stops := s.stops + {p}, pending := s.pending + {p})
    case StopSweep(stop) =>
      var hit := Swept(s, stop);
      var own: set<Pid> := if stop.Some? then {stop.value} else {};
      s.(registry := if stop.Some? then map[stop.value := StopTask] else map[],
         calls := map p | p in s.calls :: if p in hit then s.calls[p] + [Interrupted] else s.calls[p],
         pending := s.pending - own,
         silent := s.silent - own,
         early := s.early + hit * s.pending)
    case Poll(wait) =>
      var told := Reported(s, wait);
      s.(registry := s.registry - Gone(s, wait),
         calls := map p | p in s.calls :: if p in told then s.calls[p] + [Verdict(wait(p))] else s.calls[p],
         reaped := s.reaped + Finished(s, wait),
         silent := s.silent + (Gone(s, wait) - told),
         early := s.early + told * s.pending)
  }

  /** A run in which steps that are not enabled do nothing. */
  function Run(s: State, es: seq<Event>): State
    decreases |es|
  {
    if es == [] then s else Run(if Enabled(s, es[0]) then Next(s, es[0]) else s, es[1..])
  }

  function Count(b: bool): nat { if b then 1 else 0 }

  /** The callbacks a process has received, from where it stands. */
  predicate Accounted(s: State, p: Pid)
    requires p in s.calls
  {
    var n, early := |s.calls[p]|, Count(p in s.early);
    && (p in s.registry ==> n == early && p !in s.silent && (p in s.pending ==> p !in s.early))
    && (p !in s.registry && p !in s.pending ==> n == early + Count(p !in s.silent))
    && (p !in s.registry && p in s.pending ==> n == early && (p in s.early || p in s.silent))
    && (p in s.registry && p !in s.stops ==> p !in s.reaped)
  }

  predicate Inv(s: State)
  {
    && s.registry.Keys <= s.calls.Keys && s.pending <= s.stops <= s.calls.Keys
    && s.early <= s.stops && s.reaped <= s.calls.Keys && s.silent <= s.calls.Keys
    && (forall p :: p in s.registry && p in s.stops ==> s.registry[p] == StopTask)
    && forall p :: p in s.calls ==> Accounted(s, p)
  }

  lemma StepKeeps(s: State, e: Event)
    requires Inv(s) && Enabled(s, e)
    ensures Inv(Next(s, e))
  {
    var t := Next(s, e);
    forall p | p in t.calls
      ensures Accounted(t, p)
    {
      if p in s.calls { assert Accounted(s, p); }
    }
  }

  lemma {:induction false} RunKeeps(s: State, es: seq<Event>)
    requires Inv(s)
    ensures Inv(Run(s, es))
    decreases |es|
  {
    hide Inv, Next, Enabled;
    if es != [] {
      if Enabled(s, es[0]) { StepKeeps(s, es[0]); }
      RunKeeps(if Enabled(s, es[0]) then Next(s, es[0]) else s, es[1..]);
    }
  }

  /** In every interleaving, a process started by executeManagedBackground gets at most one
      terminal callback, none while it is registered, and exactly one once it has left unless it
      left on waitpid -1 or its task asked for no callback. */
  lemma TaskCallbacks(es: seq<Event>, p: Pid)
    requires var s := Run(Initial, es); p in s.calls && p !in s.stops
    ensures var s := Run(Initial, es);
            |s.calls[p]| == if p in s.registry || p in s.silent then 0 else 1
  {
    RunKeeps(Initial, es);
    assert Accounted(Run(Initial, es), p);
  }

  /** A stop script can get two callbacks; it does exactly when it got one before its own STOP
      swept, was put back by that sweep, and then left again with a callback. */
  lemma StopScriptCallbacks(es: seq<Event>, p: Pid)
    requires p in Run(Initial, es).stops
    ensures var s := Run(Initial, es);
            && p in s.calls && |s.calls[p]| <= 2
            && (|s.calls[p]| == 2 <==> p in s.early && p !in s.registry && p !in s.pending && p !in s.silent)
  {
    RunKeeps(Initial, es);
    assert Accounted(Run(Initial, es), p);
  }

  // ----- Which callback -----

  /** The callbacks a step adds for a known process: 0 for a reported exit with success, 1 for one with
      failure, 2 from another STOP's sweep, and none otherwise. */
  lemma StepCallback(s: State, e: Event, p: Pid)
    requires p in s.calls && Enabled(s, e)
    ensures p in Next(s, e).calls
    ensures Next(s, e).calls[p] == s.calls[p] +
            match e {
              case Poll(wait) =>
                if p !in s.registry || !s.registry[p].sendCallback then []
                else if wait(p) == Exited(true) then [Success] else if wait(p) == Exited(false) then [Failure] else []
              case StopSweep(stop) => if p in s.registry && stop != Some(p) then [Interrupted] else []
              case Launch(_, _) => []
              case StopFork(_) => []
            }
  {
  }

  /** Step n removes p from the registry and sends the callback that this kind of end calls for. */
  predicate Reports(es: seq<Event>, n: nat, p: Pid, status: Status)
    requires n < |es|
  {
    && Enabled(StateAt(es, n), es[n]) && p in StateAt(es, n).registry
    && match status
       case Success => es[n].Poll? && es[n].wait(p) == Exited(true)
       case Failure => es[n].Poll? && es[n].wait(p) == Exited(false)
       case Interrupted => es[n].StopSweep? && es[n].stop != Some(p)
  }

  /** In every interleaving a background task that got a callback got the one that the step which
      removed it calls for. */
  lemma {:induction false} WhichCallback(es: seq<Event>, n: nat, p: Pid)
    requires n <= |es| && p in StateAt(es, n).calls && p !in StateAt(es, n).stops
    ensures var calls := StateAt(es, n).calls[p];
            calls == [] || (|calls| == 1 && exists m :: 0 <= m < n && Reports(es, m, p, calls[0]))
    decreases n
  {
    if n > 0 {
      var s, e := StateAt(es, n - 1), es[n - 1];
      assert es[..n] == es[..n - 1] + [e];
      RunSnoc(Initial, es[..n - 1], e);
      InitialInv();
      RunKeeps(Initial, es[..n - 1]);
      hide Run;
      if p in s.calls {
        StopsStay(s, e, p);
        WhichCallback(es, n - 1, p);
        assert Accounted(s, p);
        if Enabled(s, e) {
          StepCallback(s, e, p);
          if Next(s, e).calls[p] != s.calls[p] { assert Reports(es, n - 1, p, Next(s, e).calls[p][0]); }
        }
      }
    }
  }

  lemma StopsStay(s: State, e: Event, p: Pid)
    ensures p in s.stops ==> p in Next(s, e).stops
  {
  }

  /** From any state a fresh task can be launched, and each way of leaving gives its callback. */
  lemma EveryEndReported(s: State, p: Pid, code: int, ok: bool, wait: Pid -> Wait)
    requires Inv(s) && p !in s.calls && wait(p) == Exited(ok) && forall q :: q in s.registry ==> wait(q) == Running
    ensures Enabled(s, Launch(p, Task(code, true)))
    ensures var t := Next(s, Launch(p, Task(code, true)));
            && Enabled(t, Poll(wait)) && Enabled(t, StopSweep(None))
            && Next(t, Poll(wait)).calls[p] == [if ok then Success else Failure] && p !in Next(t, Poll(wait)).registry
            && Next(t, StopSweep(None)).calls[p] == [Interrupted] && p !in Next(t, StopSweep(None)).registry
  {
  }

  // ----- Two callbacks, read off the schedule -----

  /** The step reports p if p is registered: another STOP's sweep, or a poll that finds p finished. */
  predicate Touches(e: Event, p: Pid)
  {
    match e
    case StopSweep(stop) => stop != Some(p)
    case Poll(wait) => wait(p).Exited?
    case Launch(_, _) => false
    case StopFork(_) => false
  }

  function StateAt(es: seq<Event>, n: nat): State
    requires n <= |es|
  {
    Run(Initial, es[..n])
  }

  /** Step n of the schedule happens, touches p and finds it registered. */
  predicate Hits(es: seq<Event>, n: nat, p: Pid)
    requires n < |es|
  {
    var s := StateAt(es, n);
    Enabled(s, es[n]) && p in s.registry && Touches(es[n], p)
  }

  /** ... between the two locked regions of p's own STOP. */
  predicate HitsPending(es: seq<Event>, n: nat, p: Pid)
    requires n < |es|
  {
    Hits(es, n, p) && p in StateAt(es, n).pending
  }

  predicate OwnSweep(es: seq<Event>, n: nat, p: Pid)
    requires n < |es|
  {
    es[n] == StopSweep(Some(p)) && Enabled(StateAt(es, n), es[n])
  }

  predicate HitEarly(es: seq<Event>, n: nat, p: Pid)
    requires n <= |es|
  {
    exists i :: 0 <= i < n && HitsPending(es, i, p)
  }

  predicate PutBack(es: seq<Event>, n: nat, p: Pid)
    requires n <= |es|
  {
    exists i, o :: 0 <= i < o < n && HitsPending(es, i, p) && OwnSweep(es, o, p)
  }

  /** A step hits p while its own STOP is between its regions, that STOP's sweep puts p back, and a
      later step hits p again. */
  predicate HitTwice(es: seq<Event>, n: nat, p: Pid)
    requires n <= |es|
  {
    exists i, o, j :: 0 <= i < o < j < n && HitsPending(es, i, p) && OwnSweep(es, o, p) && Hits(es, j, p)
  }

  lemma {:induction false} RunSnoc(s: State, es: seq<Event>, e: Event)
    ensures var t := Run(s, es); Run(s, es + [e]) == if Enabled(t, e) then Next(t, e) else t
    decreases |es|
  {
    hide Next, Enabled;
    if es == [] {
      assert es + [e] == [e];
      var u := if Enabled(s, e) then Next(s, e) else s;
      assert Run(s, [e]) == Run(u, []);
    } else {
      assert (es + [e])[1..] == es[1..] + [e];
      RunSnoc(if Enabled(s, es[0]) then Next(s, es[0]) else s, es[1..], e);
    }
  }

  /** Where p stands after n steps, in terms of the schedule. */
  predicate Tracked(es: seq<Event>, n: nat, p: Pid)
    requires n <= |es|
  {
    var s := StateAt(es, n);
    if p !in s.stops then !HitEarly(es, n, p) && !PutBack(es, n, p) && !HitTwice(es, n, p)
    else if p in s.pending then (p in s.early <==> HitEarly(es, n, p)) && !PutBack(es, n, p) && !HitTwice(es, n, p)
    else
      && (p in s.early <==> PutBack(es, n, p))
      && (HitTwice(es, n, p) <==> p in s.early && p !in s.registry && p !in s.silent)
  }

  lemma HistoryStep(es: seq<Event>, n: nat, p: Pid)
    requires n < |es|
    ensures HitEarly(es, n + 1, p) <==> HitEarly(es, n, p) || HitsPending(es, n, p)
    ensures PutBack(es, n + 1, p) <==> PutBack(es, n, p) || (HitEarly(es, n, p) && OwnSweep(es, n, p))
    ensures HitTwice(es, n + 1, p) <==> HitTwice(es, n, p) || (PutBack(es, n, p) && Hits(es, n, p))
  {
    hide Hits, HitsPending, OwnSweep;
  }

  /** One step, from what it does to p. */
  lemma StepOnPid(s: State, e: Event, p: Pid)
    requires Inv(s) && Enabled(s, e)
    ensures var t := Next(s, e);
            var hit := p in s.registry && Touches(e, p);
            && (p in t.stops <==> p in s.stops || e == StopFork(p))
            && (p in t.pending <==> (p in s.pending && e != StopSweep(Some(p))) || e == StopFork(p))
            && (p in s.stops ==> (p in t.early <==> p in s.early || (p in s.pending && hit)))
            && (e == StopFork(p) ==> p !in t.early && p !in s.stops)
            && (p in s.stops && p !in s.pending ==>
                  if hit then p !in t.registry && p !in t.silent
                  else if p in s.registry then p in t.registry || p in t.silent
                  else p !in t.registry && (p in t.silent <==> p in s.silent))
            && (p in s.pending && e == StopSweep(Some(p)) ==> p in t.registry)
  {
    match e
    case Launch(_, _) =>
    case StopFork(_) =>
    case StopSweep(_) =>
    case Poll(_) =>
  }

  lemma {:induction false} StaysTracked(es: seq<Event>, n: nat, p: Pid)
    requires n <= |es|
    ensures Tracked(es, n, p)
    decreases n
  {
    if n > 0 {
      StaysTracked(es, n - 1, p);
      TrackedStep(es, n - 1, p);
    } else {
      assert StateAt(es, 0) == Initial;
    }
  }

  lemma TrackedStep(es: seq<Event>, n: nat, p: Pid)
    requires n < |es| && Tracked(es, n, p)
    ensures Tracked(es, n + 1, p)
  {
    hide Inv, Next, Enabled, Run, HitEarly, PutBack, HitTwice;
    var s, e := StateAt(es, n), es[n];
    assert es[..n + 1] == es[..n] + [e];
    RunSnoc(Initial, es[..n], e);
    HistoryStep(es, n, p);
    InitialInv();
    RunKeeps(Initial, es[..n]);
    PendingAreStops(s, p);
    if Enabled(s, e) {
      StepOnPid(s, e, p);
    }
  }

  lemma InitialInv()
    ensures Inv(Initial)
  {
  }

  lemma PendingAreStops(s: State, p: Pid)
    requires Inv(s)
    ensures p in s.pending ==> p in s.stops
    ensures Enabled(s, StopSweep(Some(p))) <==> p in s.pending
    ensures p in s.registry && p in s.stops ==> p !in s.silent
  {
    if p in s.calls { assert Accounted(s, p); }
  }

  /** The exact schedules: a stop script gets two callbacks if and only if a step hits it between the
      two locked regions of its own STOP and another hits it after that STOP's sweep put it back. */
  lemma TwoCallbacksIff(es: seq<Event>, p: Pid)
    requires p in Run(Initial, es).stops
    ensures var s := Run(Initial, es); p in s.calls && (|s.calls[p]| == 2 <==> HitTwice(es, |es|, p))
  {
    hide Run, HitTwice, PutBack, HitEarly;
    assert es[..|es|] == es;
    StaysTracked(es, |es|, p);
    StopScriptCallbacks(es, p);
  }

  /** Hence a process gets at most one callback when no step that happens between the two regions of
      its own STOP is another STOP's sweep or a poll that finds it finished. */
  lemma UndisturbedCallsOnce(es: seq<Event>, p: Pid)
    requires p in Run(Initial, es).calls
    requires forall i :: 0 <= i < |es| && p in StateAt(es, i).pending && Enabled(StateAt(es, i), es[i]) ==> !Touches(es[i], p)
    ensures |Run(Initial, es).calls[p]| <= 1
  {
    hide Run, Enabled, Touches;
    if p in Run(Initial, es).stops {
      TwoCallbacksIff(es, p);
      StopScriptCallbacks(es, p);
    } else {
      TaskCallbacks(es, p);
    }
  }

  /** Every STOP sweeps right after registering its script. */
  predicate StopsUninterrupted(es: seq<Event>)
  {
    forall i :: 0 <= i < |es| && es[i].StopFork? ==> i + 1 < |es| && es[i + 1] == StopSweep(Some(es[i].pid))
  }

  /** A script is pending only right before its own sweep. */
  lemma {:induction false} PendingOnce(es: seq<Event>, n: nat)
    requires n <= |es| && StopsUninterrupted(es)
    ensures var s := StateAt(es, n);
            s.pending == {} || (n < |es| && exists p :: s.pending == {p} && es[n] == StopSweep(Some(p)))
  {
    if n > 0 {
      PendingOnce(es, n - 1);
      assert es[..n] == es[..n - 1] + [es[n - 1]];
      RunSnoc(Initial, es[..n - 1], es[n - 1]);
      hide Run;
    }
  }

  /** If no other step comes between a STOP's two locked regions, every process gets at most
      one terminal callback, stop scripts included. */
  lemma UninterruptedStopsCallOnce(es: seq<Event>, p: Pid)
    requires StopsUninterrupted(es) && p in Run(Initial, es).calls
    ensures |Run(Initial, es).calls[p]| <= 1
  {
    hide Run, Enabled;
    forall i | 0 <= i < |es| && p in StateAt(es, i).pending
      ensures !Touches(es[i], p)
    {
      PendingOnce(es, i);
    }
    UndisturbedCallsOnce(es, p);
  }

  lemma RunCons(s: State, e: Event, es: seq<Event>)
    requires Enabled(s, e)
    ensures Run(s, [e] + es) == Run(Next(s, e), es)
  {
    hide Next, Enabled;
    assert ([e] + es)[1..] == es;
  }

  /** Two STOPs at once (one from the hub, one inside a macro's RESET), from any state: the first
      sweep reports the second script as interrupted, the second sweep puts it back, and the
      monitor reports it again when it is reaped. */
  lemma ConcurrentStopsCallTwice(s: State, p: Pid, q: Pid)
    requires Inv(s) && p !in s.calls && q !in s.calls && p != q
    ensures var wait := (x: Pid) => if x == q then Exited(true) else Running;
            var t := Run(s, [StopFork(p)] + ([StopFork(q)] + ([StopSweep(Some(p))] + ([StopSweep(Some(q))] + ([Poll(wait)] + [])))));
            q in t.calls && t.calls[q] == [Interrupted, Success]
  {
    var wait := (x: Pid) => if x == q then Exited(true) else Running;
    var s1 := Next(s, StopFork(p));
    var s2 := Next(s1, StopFork(q));
    var s3 := Next(s2, StopSweep(Some(p)));
    var s4 := Next(s3, StopSweep(Some(q)));
    BothForked(s, p, q);
    FirstSweep(s2, p, q);
    SecondSweep(s3, q, wait);
    hide Inv, Next, Enabled;
    RunCons(s, StopFork(p), [StopFork(q)] + ([StopSweep(Some(p))] + ([StopSweep(Some(q))] + ([Poll(wait)] + []))));
    RunCons(s1, StopFork(q), [StopSweep(Some(p))] + ([StopSweep(Some(q))] + ([Poll(wait)] + [])));
    RunCons(s2, StopSweep(Some(p)), [StopSweep(Some(q))] + ([Poll(wait)] + []));
    RunCons(s3, StopSweep(Some(q)), [Poll(wait)] + []);
    RunCons(s4, Poll(wait), []);
    LastCall(s4, q, wait);
  }

  lemma BothForked(s: State, p: Pid, q: Pid)
    requires Inv(s) && p !in s.calls && q !in s.calls && p != q
    ensures Enabled(s, StopFork(p))
    ensures var s1 := Next(s, StopFork(p));
            var s2 := Next(s1, StopFork(q));
            && Enabled(s1, StopFork(q)) && Enabled(s2, StopSweep(Some(p)))
            && q in s2.pending && q in s2.registry && q in s2.calls && s2.calls[q] == [] && q !in s2.reaped
  {
  }

  lemma FirstSweep(s: State, p: Pid, q: Pid)
    requires p != q && q in s.pending && q in s.registry && q in s.calls && s.calls[q] == [] && q !in s.reaped
    ensures var t := Next(s, StopSweep(Some(p)));
            && Enabled(t, StopSweep(Some(q)))
            && q in t.calls && t.calls[q] == [Interrupted] && q !in t.registry && q !in t.reaped
  {
  }

  lemma SecondSweep(s: State, q: Pid, wait: Pid -> Wait)
    requires q in s.calls && s.calls[q] == [Interrupted] && q !in s.registry && q !in s.reaped
    ensures var t := Next(s, StopSweep(Some(q)));
            Enabled(t, Poll(wait)) && t.registry == map[q := StopTask] && q in t.calls && t.calls[q] == [Interrupted]
  {
  }

  lemma LastCall(s: State, q: Pid, wait: Pid -> Wait)
    requires s.registry == map[q := StopTask] && q in s.calls && s.calls[q] == [Interrupted] && wait(q) == Exited(true)
    ensures var t := Next(s, Poll(wait)); q in t.calls && t.calls[q] == [Interrupted, Success]
  {
  }

  /** The loop of STOP_DAQ: one callback for every other registered process. */
  method SweepTable(table: map<Pid, Task>, stop: Option<Pid>) returns (calls: map<Pid, Status>)
    ensures calls == map p | p in table && stop != Some(p) :: Interrupted
  {
    calls := map[];
    var left := table.Keys;
    while left != {}
      invariant left <= table.Keys
      invariant calls == map p | p in table && p !in left && stop != Some(p) :: Interrupted
      decreases |left|
    {
      var p :| p in left;
      if stop != Some(p) {
        calls := calls[p := Interrupted];
      }
      left := left - {p};
    }
  }

  /** The loop of the monitor thread: erase what finished or failed, report what asks for it. */
  method PollTable(before: map<Pid, Task>, wait: Pid -> Wait) returns (table: map<Pid, Task>, calls: map<Pid, Status>)
    ensures table == map p | p in before && wait(p).Running? :: before[p]
    ensures calls == map p | p in before && wait(p).Exited? && before[p].sendCallback :: if wait(p).ok then Success else Failure
  {
    table, calls := before, map[];
    var left := before.Keys;
    while left != {}
      invariant left <= before.Keys
      invariant table == map p | p in before && (p in left || wait(p).Running?) :: before[p]
      invariant calls == map p | p in before && p !in left && wait(p).Exited? && before[p].sendCallback :: Verdict(wait(p))
      decreases |left|
    {
      var p :| p in left;
      var result := wait(p);
      if result.Exited? {
        if table[p].sendCallback {
          calls := calls[p := if result.ok then Success else Failure];
        }
        table := table - {p};
      } else if result.Error? {
        table := table - {p};
      }
      left := left - {p};
    }
  }

  /** The registry object. Its methods are the locked regions, with the loops of the code. */
  class Registry {
    var activeBackgroundTasks: map<Pid, Task>
    ghost var state: State

    ghost predicate Valid()
      reads this
    {
      activeBackgroundTasks == state.registry && Inv(state)
    }

    constructor ()
      ensures Valid() && state == Initial
    {
      activeBackgroundTasks := map[];
      state := Initial;
    }

    /** executeManagedBackground, after a successful fork. */
    method Register(pid: Pid, task: Task)
      requires Valid() && Enabled(state, Launch(pid, task))
      modifies this
      ensures Valid() && state == Next(old(state), Launch(pid, task))
      ensures activeBackgroundTasks == old(activeBackgroundTasks)[pid := task]
    {
      StepKeeps(state, Launch(pid, task));
      activeBackgroundTasks := activeBackgroundTasks[pid := task];
      state := Next(state, Launch(pid, task));
    }

    /** STOP_DAQ, first region. */
    method RegisterStop(pid: Pid)
      requires Valid() && Enabled(state, StopFork(pid))
      modifies this
      ensures Valid() && state == Next(old(state), StopFork(pid))
      ensures activeBackgroundTasks == old(activeBackgroundTasks)[pid := Task(0x5001, true)]
    {
      StepKeeps(state, StopFork(pid));
      activeBackgroundTasks := activeBackgroundTasks[pid := StopTask];
      state := Next(state, StopFork(pid));
    }

    /** STOP_DAQ, second region: report everything else as interrupted, clear, keep the script. */
    method Sweep(stop: Option<Pid>) returns (calls: map<Pid, Status>)
      requires Valid() && Enabled(state, StopSweep(stop))
      modifies this
      ensures Valid() && state == Next(old(state), StopSweep(stop))
      ensures activeBackgroundTasks == if stop.Some? then map[stop.value := Task(0x5001, true)] else map[]
      ensures calls == map p | p in old(activeBackgroundTasks) && stop != Some(p) :: Interrupted
    {
      hide Inv, Enabled;
      calls := SweepTable(activeBackgroundTasks, stop);
      StepKeeps(state, StopSweep(stop));
      state := Next(state, StopSweep(stop));
      activeBackgroundTasks := map[];
      if stop.Some? {
        activeBackgroundTasks := activeBackgroundTasks[stop.value := StopTask];
      }
    }

    /** One pass of the monitor thread over the registry. */
    method MonitorPass(wait: Pid -> Wait) returns (calls: map<Pid, Status>)
      requires Valid() && Enabled(state, Poll(wait))
      modifies this
      ensures Valid() && state == Next(old(state), Poll(wait))
      ensures activeBackgroundTasks == map p | p in old(activeBackgroundTasks) && wait(p).Running? :: old(activeBackgroundTasks)[p]
      ensures calls == map p | p in old(activeBackgroundTasks) && wait(p).Exited? && old(activeBackgroundTasks)[p].sendCallback ::
                         if wait(p).ok then Success else Failure
      ensures calls.Keys == Reported(old(state), wait)
      ensures forall p :: p in calls ==> calls[p] == Verdict(wait(p))
    {
      hide Inv, Enabled;
      StepKeeps(state, Poll(wait));
      PollRegistry(state, wait);
      activeBackgroundTasks, calls := PollTable(activeBackgroundTasks, wait);
      state := Next(state, Poll(wait));
    }
  }

  lemma PollRegistry(s: State, wait: Pid -> Wait)
    ensures Next(s, Poll(wait)).registry == map p | p in s.registry && wait(p).Running? :: s.registry[p]
  {
  }
}
