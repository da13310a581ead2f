/** What a macro thread does when nothing goes wrong, when something does, and how often: the progress
    side of MacroMachine. */
module MacroProgress {
  import opened MacroMachine

  // ----- Starting -----

  /** With the flag down and no live macro, a request starts its macro from the beginning, in five worker
      steps, joining the previous thread if there is one. */
  lemma RequestStarts(s: State, r: Request, ok: bool)
    requires OneThread(s) && s.worker.Free? && !s.flag && !Live(s)
    ensures var t := Iterate(Next(s, StartMacro(r)), Worker(ok), 5);
            && t.macro == (if r.kind == Single then Out(SeqEnter) else Out(LoopEnter)) && t.generation == s.generation + 1
            && t.sequence == r.sequence && t.kind == r.kind && t.cycle == 0 && t.steps == [] && t.joinable && t.worker.Free?
            && (t.flag <==> r.kind == Single) && Healthy(t)
  {
    var s0 := s.(worker := MacroTest(r));
    var s1 := s.(worker := MacroJoin(r));
    var s2 := s.(joinable := false, macro := Out(Idle), worker := MacroRaise(r));
    var s3 := s2.(flag := r.kind.Single?, worker := MacroSpawn(r));
    var s4 := s3.(macro := Out(if r.kind.Single? then SeqEnter else LoopEnter), sequence := r.sequence, kind := r.kind,
                  cycle := 0, steps := [], generation := s.generation + 1, worker := MacroAssign);
    FiveTimes(s0, Worker(ok));
    WorkerStep(s0, s1, ok);
    WorkerStep(s1, s2, ok);
    WorkerStep(s2, s3, ok);
    WorkerStep(s3, s4, ok);
    WorkerStep(s4, s4.(joinable := true, worker := Free), ok);
    assert Next(s, StartMacro(r)) == s0;
    hide Next, Iterate;
  }

  /** With the flag up the request is refused and nothing else changes. */
  lemma RequestRefused(s: State, r: Request, ok: bool)
    requires s.worker.Free? && s.flag
    ensures Next(Next(s, StartMacro(r)), Worker(ok)) == s
  {
  }

  // ----- When nothing goes wrong -----

  /** The cycle number agrees with the kind and its limit while a sequence is executing. */
  predicate CycleFits(s: State)
  {
    match s.kind
    case Single => true
    case Cyclic(limit) => s.cycle >= 1 && (limit == 0 || s.cycle <= limit)
  }

  /** The thread has done all it was asked to: every step, and as many cycles as wanted. */
  predicate AllDone(s: State)
  {
    s.steps == s.sequence && (s.kind == Single || (s.kind.limit > 0 && s.cycle == s.kind.limit))
  }

  predicate OnTrackOutside(s: State)
    requires s.macro.Out?
  {
    match s.macro.outer
    case LoopEnter => s.kind.Cyclic? && s.cycle == 0
    case LoopTest => s.flag && s.kind.Cyclic? && (s.kind.limit == 0 || s.cycle < s.kind.limit)
    case SeqEnter => CycleFits(s)
    case VaultSet => s.flag && s.steps == [] && CycleFits(s)
    case SeqClear(ok) => ok && s.steps == s.sequence && s.flag && CycleFits(s)
    case SeqReturn(ok) => ok && s.steps == s.sequence && s.flag && CycleFits(s)
    case LoopStop => AllDone(s)
    case ThreadEnd => AllDone(s)
    case Finished => AllDone(s)
    case _ => false
  }

  /** The steps dispatched are exactly the ones before the position, and the flag is up, except while a
      RESET_DAQ step has it down. */
  predicate OnTrackInside(s: State)
    requires s.macro.At?
  {
    var i, p := s.macro.i, s.macro.point;
    var n := Position(i, p);
    && CycleFits(s) && n <= |s.sequence| && s.steps == s.sequence[..n]
    && (p.Dispatch? || p.PulseCheck? || p.PulseDispatch? ==> n < |s.sequence|)
    && (p.PulseCheck? || p.PulseDispatch? ==> s.sequence[n] == SEND_PULSE_TRAIN)
    && (s.flag || p.ResetStart? || p.StepOk?)
  }

  predicate OnTrack(s: State)
  {
    if s.macro.Out? then OnTrackOutside(s) else OnTrackInside(s)
  }

  /** No STOP or hub reset is being executed, and the macro is on track. */
  predicate Healthy(s: State)
  {
    OneThread(s) && WorkerNotResetting(s) && !s.worker.StopLower? && OnTrack(s)
  }

  /** Where the result of a directory creation or a handler decides. */
  predicate Decides(pc: MacroPc)
  {
    pc == Out(VaultSet) || (pc.At? && (pc.point.InStep? || pc.point.ResetStart?))
  }

  /** No STOP, no hub reset, and what the macro tries succeeds. */
  predicate Calm(s: State, e: Event)
  {
    !e.Stop? && !e.HubReset? && (e.Macro? && Decides(s.macro) ==> e.ok)
  }

  lemma OuterOnTrack(s: State, ok: bool)
    requires s.macro.Out? && OnTrackOutside(s) && (Decides(s.macro) ==> ok)
    ensures OnTrack(OuterNext(s, ok))
  {
    match s.macro.outer
    case LoopEnter => case LoopTest => case SeqEnter => case VaultSet => case SeqClear(_) => case SeqReturn(_) =>
    case LoopStop => case ThreadEnd => case Finished =>
  }

  lemma DispatchOnTrack(s: State, ok: bool)
    requires s.macro.At? && Dispatching(s.macro.point) && OnTrackInside(s) && (Decides(s.macro) ==> ok)
    ensures OnTrack(DispatchNext(s, ok))
  {
    match s.macro.point
    case Check => assert s.sequence[..|s.sequence|] == s.sequence;
    case Dispatch => assert s.sequence[..s.macro.i] + [s.sequence[s.macro.i]] == s.sequence[..s.macro.i + 1];
    case ResetRead => case ResetStop(_) => case ResetStart(_) => case InStep => case StepOk =>
  }

  lemma WaitOnTrack(s: State, ok: bool)
    requires s.macro.At? && !Dispatching(s.macro.point) && OnTrackInside(s)
    ensures OnTrack(WaitNext(s, ok))
  {
    match s.macro.point
    case PulseDispatch => assert s.sequence[..s.macro.i] + [s.sequence[s.macro.i]] == s.sequence[..s.macro.i + 1];
    case AfterStep => case PulseCheck => case InPulse => case WaitTest => case WaitPoll =>
  }

  lemma MacroOnTrack(s: State, ok: bool)
    requires OnTrack(s) && (Decides(s.macro) ==> ok)
    ensures OnTrack(MacroNext(s, ok))
  {
    hide OuterNext, DispatchNext, WaitNext;
    if s.macro.Out? {
      OuterOnTrack(s, ok);
    } else if Dispatching(s.macro.point) {
      DispatchOnTrack(s, ok);
    } else {
      WaitOnTrack(s, ok);
    }
  }

  /** The worker leaves a macro alone until it has ended, and then may only join it. */
  lemma WorkerOnTrack(s: State, ok: bool)
    requires Healthy(s)
    ensures var t := WorkerNext(s, ok);
            && WorkerNotResetting(t) && !t.worker.StopLower?
            && (if t.macro == Out(Idle) then s.macro == Out(Finished)
                else t.macro == s.macro && t.flag == s.flag && t.steps == s.steps && t.sequence == s.sequence
                     && t.kind == s.kind && t.cycle == s.cycle && t.generation == s.generation)
  {
    assert s.macro != Out(Idle);
    hide OnTrack;
  }

  lemma SameMacro(s: State, t: State)
    requires OnTrack(s) && t.macro == s.macro && t.flag == s.flag && t.steps == s.steps && t.sequence == s.sequence
    requires t.kind == s.kind && t.cycle == s.cycle
    ensures OnTrack(t)
  {
  }

  lemma HealthyStep(s: State, e: Event)
    requires Healthy(s) && Calm(s, e)
    ensures var t := Next(s, e); Healthy(t) || (t.macro == Out(Idle) && s.macro == Out(Finished))
  {
    StepKeepsOneThread(s, e);
    hide OneThread, OnTrack, MacroNext, WorkerNext;
    match e
    case Macro(ok) =>
      MacroOnTrack(s, ok);
      MacroKeepsWorker(s, ok);
    case Worker(ok) =>
      WorkerOnTrack(s, ok);
      if Next(s, e).macro != Out(Idle) { SameMacro(s, Next(s, e)); }
    case StartMacro(_) => SameMacro(s, Next(s, e));
    case Stop => case HubReset =>
  }

  /** Every event of the run is calm where it happens. */
  predicate CalmRun(s: State, es: seq<Event>)
    decreases |es|
  {
    es == [] || (Calm(s, es[0]) && CalmRun(Next(s, es[0]), es[1..]))
  }

  // ----- It gets done -----

  function Left(s: State): nat
  {
    if s.kind.Cyclic? && s.cycle <= s.kind.limit then s.kind.limit - s.cycle else 0
  }

  function Weight(p: Point): nat
  {
    match p
    case Check => 11
    case Dispatch => 10
    case ResetRead => 9
    case ResetStop(_) => 8
    case ResetStart(_) => 7
    case InStep => 6
    case StepOk => 6
    case AfterStep => 5
    case PulseCheck => 4
    case PulseDispatch => 3
    case InPulse => 2
    case WaitTest => 1
    case WaitPoll => 1
  }

  /** A bound on the work left in the current pass. */
  function Inner(s: State): nat
  {
    match s.macro
    case At(i, p) => if i <= |s.sequence| then 12 * (|s.sequence| - i) + Weight(p) else 0
    case Out(o) =>
      match o
      case SeqEnter => 12 * |s.sequence| + 13
      case VaultSet => 12 * |s.sequence| + 12
      case SeqClear(_) => 3
      case SeqReturn(_) => 2
      case LoopEnter => 2
      case LoopTest => 1
      case LoopStop => 1
      case _ => 0
  }

  function PassBound(s: State): nat
  {
    12 * |s.sequence| + 14
  }

  /** A bound on the work left in the whole life of the thread. */
  function Rank(s: State): nat
  {
    Left(s) * PassBound(s) + Inner(s)
  }

  /** A macro step that gets somewhere: neither looking at the flag before a poll nor a poll that finds
      the step's processes still running. */
  predicate Works(s: State, e: Event)
  {
    e.Macro? && !(s.macro.At? && (s.macro.point.WaitTest? || (s.macro.point.WaitPoll? && e.ok)))
  }

  function Work(s: State, es: seq<Event>): nat
    decreases |es|
  {
    if es == [] then 0 else (if Works(s, es[0]) then 1 else 0) + Work(Next(s, es[0]), es[1..])
  }

  /** The thread is meant to end. */
  predicate Ends(s: State)
  {
    s.kind == Single || s.kind.limit > 0
  }

  lemma OuterInner(s: State, ok: bool)
    requires s.macro.Out? && OnTrackOutside(s) && (Decides(s.macro) ==> ok) && Ends(s)
    requires s.macro != Out(ThreadEnd) && s.macro != Out(Finished)
    ensures var t := OuterNext(s, ok);
            && t.sequence == s.sequence && t.kind == s.kind
            && (if s.macro == Out(LoopTest) then Left(s) == Left(t) + 1 && Inner(t) < PassBound(s) + Inner(s)
                else Left(t) == Left(s) && Inner(t) < Inner(s))
  {
    match s.macro.outer
    case LoopEnter => case LoopTest => case SeqEnter => case VaultSet => case SeqClear(_) => case SeqReturn(_) =>
    case LoopStop =>
  }

  lemma DispatchInner(s: State, ok: bool)
    requires s.macro.At? && Dispatching(s.macro.point) && OnTrackInside(s) && (Decides(s.macro) ==> ok)
    ensures var t := DispatchNext(s, ok);
            t.sequence == s.sequence && t.kind == s.kind && t.cycle == s.cycle && Inner(t) < Inner(s)
  {
    match s.macro.point
    case Check => case Dispatch => case ResetRead => case ResetStop(_) => case ResetStart(_) => case InStep => case StepOk =>
  }

  lemma WaitInner(s: State, ok: bool)
    requires s.macro.At? && !Dispatching(s.macro.point) && OnTrackInside(s)
    ensures var t := WaitNext(s, ok);
            && t.sequence == s.sequence && t.kind == s.kind && t.cycle == s.cycle
            && (if Works(s, Macro(ok)) then Inner(t) < Inner(s) else Inner(t) == Inner(s))
  {
    match s.macro.point
    case AfterStep => case PulseCheck => case PulseDispatch => case InPulse => case WaitTest => case WaitPoll =>
  }

  lemma RankStep(s: State, e: Event)
    requires Healthy(s) && Calm(s, e) && Ends(s) && s.macro != Out(ThreadEnd) && s.macro != Out(Finished)
    ensures var t := Next(s, e);
            && t.sequence == s.sequence && t.kind == s.kind
            && Rank(t) + (if Works(s, e) then 1 else 0) <= Rank(s)
  {
    hide OneThread, OuterNext, DispatchNext, WaitNext, Inner, Left;
    if e.Macro? {
      if s.macro.Out? {
        OuterInner(s, e.ok);
        var t := OuterNext(s, e.ok);
        assert (Left(t) + 1) * PassBound(s) == Left(t) * PassBound(s) + PassBound(s);
      } else if Dispatching(s.macro.point) {
        DispatchInner(s, e.ok);
        SameLeft(s, DispatchNext(s, e.ok));
      } else {
        WaitInner(s, e.ok);
        SameLeft(s, WaitNext(s, e.ok));
      }
    } else {
      WorkerOrRequest(s, e);
    }
  }

  lemma SameLeft(s: State, t: State)
    requires t.kind == s.kind && t.cycle == s.cycle
    ensures Left(t) == Left(s)
  {
  }

  lemma WorkerOrRequest(s: State, e: Event)
    requires Healthy(s) && Calm(s, e) && !e.Macro? && s.macro != Out(Finished)
    ensures var t := Next(s, e); t.sequence == s.sequence && t.kind == s.kind && Rank(t) == Rank(s)
  {
    if e.Worker? { WorkerOnTrack(s, e.ok); }
    hide WorkerNext, OnTrack, OneThread;
  }

  /** Without STOP, hub reset or failure, and with every wait coming to an end, a macro thread dispatches
      its whole sequence, as many times as it was asked to: however the run is interleaved, after
      enough working steps it has ended with all done. */
  lemma {:induction false} MacroCompletes(s: State, es: seq<Event>) returns (n: nat)
    requires Healthy(s) && CalmRun(s, es) && Ends(s) && s.macro != Out(Finished) && Work(s, es) >= Rank(s)
    ensures n <= |es|
    ensures var t := Run(s, es[..n]);
            && t.macro == Out(ThreadEnd) && t.steps == s.sequence
            && (s.kind.Cyclic? ==> t.cycle == s.kind.limit)
    decreases |es|
  {
    hide OneThread, Next;
    if s.macro == Out(ThreadEnd) {
      n := 0;
      assert es[..0] == [];
    } else {
      RankPositive(s);
      var u := Next(s, es[0]);
      HealthyStep(s, es[0]);
      RankStep(s, es[0]);
      NotFinishedYet(s, es[0]);
      hide Rank;
      n := MacroCompletes(u, es[1..]);
      assert es[..n + 1][1..] == es[1..][..n];
      n := n + 1;
    }
  }

  lemma RankPositive(s: State)
    requires OnTrack(s) && s.macro != Out(ThreadEnd) && s.macro != Out(Finished)
    ensures Rank(s) > 0
  {
    assert Inner(s) > 0;
    assert Left(s) * PassBound(s) >= 0;
  }

  lemma NotFinishedYet(s: State, e: Event)
    requires Healthy(s) && Calm(s, e) && s.macro != Out(ThreadEnd) && s.macro != Out(Finished)
    ensures Next(s, e).macro != Out(Finished) && Next(s, e).macro != Out(Idle)
  {
    assert s.macro != Out(Idle);
    hide OneThread, OnTrack;
    if e.Macro? {
      if s.macro.Out? { OuterFinishes(s, e.ok); } else { InsideStays(s, e.ok); }
    } else if e.Worker? {
      WorkerOnTrack(s, e.ok);
    }
    hide MacroNext, WorkerNext;
  }

  lemma OuterFinishes(s: State, ok: bool)
    requires s.macro.Out? && s.macro != Out(ThreadEnd) && s.macro != Out(Finished) && s.macro != Out(Idle)
    ensures OuterNext(s, ok).macro != Out(Finished) && OuterNext(s, ok).macro != Out(Idle)
  {
  }

  lemma InsideStays(s: State, ok: bool)
    requires s.macro.At?
    ensures MacroNext(s, ok).macro != Out(Finished) && MacroNext(s, ok).macro != Out(Idle)
  {
  }

  /** In particular no pass of a calm run ever fails, and one that returns has dispatched everything. */
  lemma {:induction false} CalmNeverFails(s: State, es: seq<Event>)
    requires Healthy(s) && CalmRun(s, es) && s.macro != Out(Finished)
    ensures var t := Run(s, es);
            || t.generation > s.generation || t.macro == Out(Idle)
            || (t.macro != Out(SeqReturn(false)) && (t.macro == Out(SeqReturn(true)) ==> t.steps == t.sequence) && Healthy(t))
    decreases |es|
  {
    TrackUntilJoined(s, es);
  }

  lemma {:induction false} TrackUntilJoined(s: State, es: seq<Event>)
    requires Healthy(s) && CalmRun(s, es)
    ensures var t := Run(s, es); Healthy(t) || t.generation > s.generation || t.macro == Out(Idle)
    decreases |es|
  {
    hide Next, Healthy, Calm;
    if es != [] {
      HealthyStep(s, es[0]);
      GenerationStep(s, es[0]);
      var u := Next(s, es[0]);
      if Healthy(u) {
        TrackUntilJoined(u, es[1..]);
      } else {
        IdleStays(u, es[1..]);
      }
    }
  }

  lemma {:induction false} IdleStays(s: State, es: seq<Event>)
    requires s.macro == Out(Idle)
    ensures var t := Run(s, es); t.generation > s.generation || t.macro == Out(Idle)
    decreases |es|
  {
    hide Next;
    if es != [] {
      IdleStep(s, es[0]);
      GenerationGrows(Next(s, es[0]), es[1..]);
      if Next(s, es[0]).macro == Out(Idle) {
        GenerationStep(s, es[0]);
        IdleStays(Next(s, es[0]), es[1..]);
      }
    }
  }

  lemma IdleStep(s: State, e: Event)
    requires s.macro == Out(Idle)
    ensures Next(s, e).macro == Out(Idle) || Next(s, e).generation > s.generation
  {
  }

  // ----- When something goes wrong -----

  /** The thread will dispatch nothing more. */
  predicate Ending(pc: MacroPc)
  {
    pc.Out? && match pc.outer
               case Idle => true
               case VaultFail => true
               case StepFail => true
               case FailFlag => true
               case SeqClear(ok) => !ok
               case SeqReturn(ok) => !ok
               case LoopStop => true
               case ThreadEnd => true
               case Finished => true
               case _ => false
  }

  /** Exactly what brings a macro thread to its end: the vault directory or a handler failed, the flag was
      seen down before a step or a cycle, or all was done. */
  lemma EndingIff(s: State, ok: bool)
    requires !Ending(s.macro)
    ensures Ending(MacroNext(s, ok).macro) <==>
            || (s.macro == Out(VaultSet) && !ok)
            || (s.macro.At? && (s.macro.point.InStep? || s.macro.point.ResetStart?) && !ok)
            || (s.macro.At? && s.macro.point.Check? && s.macro.i < |s.sequence| && !s.flag)
            || (s.macro == Out(LoopTest) && !s.flag)
            || (s.macro == Out(SeqReturn(true)) && (s.kind == Single || (s.kind.limit > 0 && s.cycle >= s.kind.limit)))
  {
    if s.macro.Out? { EndsOutside(s, ok); } else { EndsInside(s, ok); }
    hide OuterPc, DispatchPc, WaitPc, Ending;
  }

  lemma EndsOutside(s: State, ok: bool)
    requires s.macro.Out? && !Ending(s.macro)
    ensures Ending(OuterPc(s, ok)) <==>
            || (s.macro == Out(VaultSet) && !ok) || (s.macro == Out(LoopTest) && !s.flag)
            || (s.macro == Out(SeqReturn(true)) && (s.kind == Single || (s.kind.limit > 0 && s.cycle >= s.kind.limit)))
  {
    match s.macro.outer
    case LoopEnter => case LoopTest => case SeqEnter => case VaultSet => case SeqClear(_) => case SeqReturn(_) =>
  }

  lemma EndsInside(s: State, ok: bool)
    requires s.macro.At?
    ensures Ending(MacroNext(s, ok).macro) <==>
            || ((s.macro.point.InStep? || s.macro.point.ResetStart?) && !ok)
            || (s.macro.point.Check? && s.macro.i < |s.sequence| && !s.flag)
  {
    if Dispatching(s.macro.point) {
      match s.macro.point
      case Check => case Dispatch => case ResetRead => case ResetStop(_) => case ResetStart(_) => case InStep => case StepOk =>
    } else {
      hide DispatchPc;
      assert WaitPc(s, ok).At?;
    }
  }

  lemma EndingStep(s: State, e: Event)
    requires Ending(s.macro)
    ensures var t := Next(s, e);
            t.generation > s.generation || (t.generation == s.generation && Ending(t.macro) && t.steps == s.steps && t.cycle == s.cycle)
  {
    if e.Macro? {
      match s.macro.outer
      case Idle => case VaultFail => case StepFail => case FailFlag => case SeqClear(_) => case SeqReturn(_) =>
      case LoopStop => case ThreadEnd => case Finished =>
    }
  }

  /** From there on, whatever else happens, that thread dispatches nothing and starts no cycle. */
  lemma {:induction false} EndingIsFinal(s: State, es: seq<Event>)
    requires Ending(s.macro)
    ensures var t := Run(s, es);
            t.generation > s.generation || (t.generation == s.generation && Ending(t.macro) && t.steps == s.steps && t.cycle == s.cycle)
    decreases |es|
  {
    hide Next, Ending;
    if es != [] {
      EndingStep(s, es[0]);
      GenerationGrows(Next(s, es[0]), es[1..]);
      if Next(s, es[0]).generation == s.generation { EndingIsFinal(Next(s, es[0]), es[1..]); }
    }
  }

  /** A RESET_DAQ step of the macro itself: its STOP lowers the flag, a successful START restores it if the
      handle was joinable, and the sequence then raises it in any case. */
  lemma OwnReset(s: State, a: bool, b: bool, c: bool)
    requires s.macro.At? && s.macro.point == ResetRead
    ensures var i := s.macro.i;
            var s2 := MacroNext(MacroNext(s, a), b);
            var s3 := MacroNext(s2, true);
            && s2 == s.(flag := false, macro := At(i, ResetStart(s.joinable)))
            && s3 == s.(flag := s.joinable, macro := At(i, StepOk))
            && MacroNext(s3, c) == s.(flag := true, macro := At(i, AfterStep))
  {
    var i := s.macro.i;
    assert MacroNext(s, a) == s.(macro := At(i, ResetStop(s.joinable)));
  }

  // ----- The cycle limit and the fused step -----

  /** A limited macro never runs more cycles than its limit. */
  predicate WithinLimit(s: State)
  {
    s.kind.Cyclic? && s.kind.limit > 0 ==>
      s.cycle <= s.kind.limit && (s.macro == Out(LoopEnter) || s.macro == Out(LoopTest) ==> s.cycle < s.kind.limit)
  }

  /** ACQUIRE_SIPM_DATA directly followed by SEND_PULSE_TRAIN: the thread does not wait for the first
      before it dispatches the second, and the second is never dispatched on its own. */
  predicate Fused(sequence: seq<Code>, i: nat)
  {
    i + 1 < |sequence| && sequence[i] == ACQUIRE_SIPM_DATA && sequence[i + 1] == SEND_PULSE_TRAIN
  }

  predicate PulseFused(s: State)
  {
    s.macro.At? ==>
      var i, p := s.macro.i, s.macro.point;
      && (p.WaitTest? || p.WaitPoll? ==> !Fused(s.sequence, i))
      && (p.PulseCheck? || p.PulseDispatch? || p.InPulse? ==> i > 0 && Fused(s.sequence, i - 1))
      && (p.Check? || p.Dispatch? ==> i == 0 || !Fused(s.sequence, i - 1))
  }

  lemma OuterKeepsRules(s: State, ok: bool)
    requires s.macro.Out? && WithinLimit(s)
    ensures WithinLimit(OuterNext(s, ok)) && PulseFused(OuterNext(s, ok))
  {
    match s.macro.outer
    case Idle => case LoopEnter => case LoopTest => case SeqEnter => case VaultSet => case VaultFail =>
    case StepFail => case FailFlag => case SeqClear(_) => case SeqReturn(_) => case LoopStop =>
    case ThreadEnd => case Finished =>
  }

  lemma DispatchKeepsRules(s: State, ok: bool)
    requires s.macro.At? && Dispatching(s.macro.point) && WithinLimit(s) && PulseFused(s)
    ensures WithinLimit(DispatchNext(s, ok)) && PulseFused(DispatchNext(s, ok))
  {
    match s.macro.point
    case Check => case Dispatch => case ResetRead => case ResetStop(_) => case ResetStart(_) => case InStep => case StepOk =>
  }

  lemma WaitKeepsRules(s: State, ok: bool)
    requires s.macro.At? && !Dispatching(s.macro.point) && WithinLimit(s) && PulseFused(s)
    ensures WithinLimit(WaitNext(s, ok)) && PulseFused(WaitNext(s, ok))
  {
    match s.macro.point
    case AfterStep => case PulseCheck => case PulseDispatch => case InPulse => case WaitTest => case WaitPoll =>
  }

  lemma WorkerKeepsRules(s: State, ok: bool)
    requires WithinLimit(s) && PulseFused(s)
    ensures WithinLimit(WorkerNext(s, ok)) && PulseFused(WorkerNext(s, ok))
  {
    hide WorkerGo, WorkerFlag, Fused;
  }

  lemma RulesStep(s: State, e: Event)
    requires WithinLimit(s) && PulseFused(s)
    ensures WithinLimit(Next(s, e)) && PulseFused(Next(s, e))
  {
    hide OuterNext, DispatchNext, WaitNext, WorkerNext, Fused;
    match e
    case Macro(ok) =>
      if s.macro.Out? {
        OuterKeepsRules(s, ok);
      } else if Dispatching(s.macro.point) {
        DispatchKeepsRules(s, ok);
      } else {
        WaitKeepsRules(s, ok);
      }
    case Worker(ok) => WorkerKeepsRules(s, ok);
    case StartMacro(_) => case Stop => case HubReset =>
  }

  /** In every run, whatever its events. */
  lemma {:induction false} RulesHold(s: State, es: seq<Event>)
    requires WithinLimit(s) && PulseFused(s)
    ensures WithinLimit(Run(s, es)) && PulseFused(Run(s, es))
    decreases |es|
  {
    hide WithinLimit, PulseFused, Next;
    if es != [] {
      RulesStep(s, es[0]);
      RulesHold(Next(s, es[0]), es[1..]);
    }
  }

  /** From the start of the program: a limited macro runs at most its limit of cycles, and whenever the
      thread waits for a step's processes, that step is not an ACQUIRE_SIPM_DATA whose SEND_PULSE_TRAIN is
      still to come. */
  lemma LimitsAndFusion(es: seq<Event>)
    ensures var s := Run(Initial, es);
            && (s.kind.Cyclic? && s.kind.limit > 0 ==> s.cycle <= s.kind.limit)
            && (s.macro.At? && (s.macro.point == WaitTest || s.macro.point == WaitPoll) && s.macro.i + 1 < |s.sequence| ==>
                  !(s.sequence[s.macro.i] == 0x5109 && s.sequence[s.macro.i + 1] == 0x5111))
  {
    RulesHold(Initial, es);
  }

  // ----- A run that sticks -----

  lemma OneOuterStep(s: State, t: State)
    requires s.macro.Out? && t == OuterNext(s, false)
    ensures Next(s, Macro(false)) == t
  {
    hide OuterNext;
  }

  /** Its vault directory cannot be created, and the thread ends. */
  lemma EndsEarly(s: State)
    requires s.macro == Out(SeqEnter) && s.kind == Single
    ensures Iterate(s, Macro(false), 5) ==
            s.(macro := Out(Finished), flag := false, steps := [])
  {
    FiveTimes(s, Macro(false));
    var s1 := s.(flag := true, steps := [], macro := Out(VaultSet));
    var s2 := s1.(macro := Out(VaultFail));
    var s3 := s2.(flag := false, macro := Out(SeqReturn(false)));
    var s4 := s3.(macro := Out(ThreadEnd));
    OneOuterStep(s, s1);
    OneOuterStep(s1, s2);
    OneOuterStep(s2, s3);
    OneOuterStep(s3, s4);
    OneOuterStep(s4, s4.(macro := Out(Finished)));
    hide Next, Iterate;
  }

  /** A run from the start of the program: a macro starts, ends at once because its vault directory
      cannot be created, and the hub resets. */
  function StickingRun(r: Request): seq<Event>
  {
    ([StartMacro(r)] + Repeat(Worker(true), 5)) + (Repeat(Macro(false), 5) +
      ([HubReset] + ([Worker(true)] + ([Worker(true)] + ([Worker(true)] + [])))))
  }

  /** Every one-shot macro can leave the program stuck. */
  lemma StuckReachable(r: Request)
    requires r.kind.Single?
    ensures Stuck(Run(Initial, StickingRun(r)))
  {
    var start := [StartMacro(r)] + Repeat(Worker(true), 5);
    var reset := [HubReset] + ([Worker(true)] + ([Worker(true)] + ([Worker(true)] + [])));
    RequestStarts(Initial, r, true);
    AtMostOneMacro(Initial, start + Repeat(Macro(false), 5));
    hide Next, OneThread, Stuck;
    var s := Run(Initial, start);
    RunCons(Initial, StartMacro(r), Repeat(Worker(true), 5));
    RunRepeat(Next(Initial, StartMacro(r)), Worker(true), 5);
    EndsEarly(s);
    RunRepeat(s, Macro(false), 5);
    RunAppend(Initial, start, Repeat(Macro(false), 5));
    RunAppend(s, Repeat(Macro(false), 5), reset);
    RunAppend(Initial, start, Repeat(Macro(false), 5) + reset);
    ResetRaisesFlagIff(Run(s, Repeat(Macro(false), 5)), true, true, true);
  }
}
