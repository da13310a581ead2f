/** The macro thread of GRAMS_TOF_CommandDispatch and the worker thread that starts and stops it.
    Each access to the stop flag, the thread handle or the vault path is one step; the choices of
    the environment (does a handler, a fork or a directory creation succeed, is a process still
    running) are the booleans carried by the steps. */
module MacroMachine {

  type Code = nat

  const RESET_DAQ: Code := 0x5002
  const READ_TEMPERATURE_SENSORS: Code := 0x5105
  const MAKE_SIMPLE_DISC_SET_TABLE: Code := 0x5104
  const ACQUIRE_TDC_CALIBRATION: Code := 0x5107
  const ACQUIRE_QDC_CALIBRATION: Code := 0x5108
  const ACQUIRE_SIPM_DATA: Code := 0x5109
  const ACQUIRE_THRESHOLD_CALIBRATION_BN: Code := 0x510A
  const ACQUIRE_THRESHOLD_CALIBRATION_D: Code := 0x510B
  const START_ASIC_TEMP_RECORD: Code := 0x510E
  const STOP_ASIC_TEMP_RECORD: Code := 0x510F
  const READ_TEMPERATURE_SENSORS_SINGLE: Code := 0x5110
  const SEND_PULSE_TRAIN: Code := 0x5111
  const PROCESS_THRESHOLD_CALIBRATION: Code := 0x5200
  const PROCESS_TDC_CALIBRATION: Code := 0x5201
  const PROCESS_QDC_CALIBRATION: Code := 0x5202
  const CONVERT_RAW_TO_RAW: Code := 0x5203
  const CONVERT_STG1_TO_STG2: Code := 0x5300
  const PROCESS_QA_COIN: Code := 0x5301
  const PROCESS_QA_IRIDIUM: Code := 0x5302

  /** A one-shot sequence, or a cyclic run with a cycle limit (0 is unlimited). */
  datatype Kind = Single | Cyclic(limit: nat)

  datatype Request = Request(sequence: seq<Code>, kind: Kind)

  /** Where the macro thread stands outside the step loop of a sequence. */
  datatype Outer =
    | Idle                  // no thread, or the last one has been joined
    | LoopEnter             // executeMacroLoop: raise the flag
    | LoopTest              // while (macroLoopRunning_)
    | SeqEnter              // executeMacroSequence: raise the flag
    | VaultSet              // create the vault directory and publish its path
    | VaultFail             // lower the flag after a failed creation
    | StepFail              // a step failed: clear the vault path
    | FailFlag              // ... then lower the flag
    | SeqClear(ok: bool)    // end or abort: clear the vault path
    | SeqReturn(ok: bool)
    | LoopStop              // lower the flag and leave the cycle loop
    | ThreadEnd             // the thread lowers the flag a last time
    | Finished              // returned, not yet joined

  /** Where it stands in one pass of the step loop. */
  datatype Point =
    | Check                 // loop head, then test the flag
    | Dispatch              // flag seen up: about to dispatch the step
    | ResetRead             // inside a RESET_DAQ step: remember whether the handle is joinable
    | ResetStop(was: bool)  // ... its STOP lowers the flag
    | ResetStart(was: bool) // ... its START, then the flag is raised again
    | InStep                // inside any other handler
    | StepOk                // RESET_DAQ step returned: raise the flag
    | AfterStep             // is this ACQUIRE_SIPM_DATA followed by SEND_PULSE_TRAIN?
    | PulseCheck            // test the flag before the fused SEND_PULSE_TRAIN
    | PulseDispatch         // flag seen up: about to dispatch it
    | InPulse
    | WaitTest              // wait for the step's processes: test the flag
    | WaitPoll              // ... look into the registry

  datatype MacroPc = Out(outer: Outer) | At(i: nat, point: Point)

  datatype WorkerPc =
    | Free
    | MacroTest(r: Request)         // macro handler: test the flag
    | MacroJoin(r: Request)         // join a previous thread
    | MacroRaise(r: Request)        // raise the flag (one-shot macros only)
    | MacroSpawn(r: Request)        // create the thread ...
    | MacroAssign                   // ... and move it into macroLoopThread_
    | StopLower                     // STOP_DAQ: lower the flag
    | HubResetRead                  // RESET_DAQ from the hub
    | HubResetStop(was: bool)
    | HubResetStart(was: bool)

  datatype State = State(
    flag: bool,
    vault: bool,
    joinable: bool,
    macro: MacroPc,
    worker: WorkerPc,
    sequence: seq<Code>,
    kind: Kind,
    cycle: nat,
    steps: seq<Code>,    // dispatched in the current pass over the sequence
    generation: nat,     // threads created so far
    clash: bool)         // a thread was created over a live one, or a joinable handle overwritten

  const Initial := State(false, false, false, Out(Idle), Free, [], Single, 0, [], 0, false)

  datatype Event = Macro(ok: bool) | Worker(ok: bool) | StartMacro(r: Request) | Stop | HubReset

  /** A one-shot thread ends; the cycle loop stops on failure or at its limit. */
  function AfterSequence(kind: Kind, cycle: nat, done: bool): (o: Outer)
    ensures o.ThreadEnd? || o.LoopStop? || o.LoopTest?
  {
    if kind.Single? then ThreadEnd
    else if !done || (kind.limit > 0 && cycle >= kind.limit) then LoopStop
    else LoopTest
  }

  /** Starting, ending and repeating a sequence: where the thread goes next, and what it does to the flag
      and to the vault path. */
  function OuterPc(s: State, ok: bool): MacroPc
    requires s.macro.Out?
  {
    match s.macro.outer
    case Idle => Out(Idle)
    case LoopEnter => Out(LoopTest)
    case LoopTest => Out(if s.flag then SeqEnter else ThreadEnd)
    case SeqEnter => Out(VaultSet)
    case VaultSet => if ok then At(0, Check) else Out(VaultFail)
    case VaultFail => Out(SeqReturn(false))
    case StepFail => Out(FailFlag)
    case FailFlag => Out(SeqReturn(false))
    case SeqClear(done) => Out(SeqReturn(done))
    case SeqReturn(done) => Out(AfterSequence(s.kind, s.cycle, done))
    case LoopStop => Out(ThreadEnd)
    case ThreadEnd => Out(Finished)
    case Finished => Out(Finished)
  }

  function OuterFlag(s: State): bool
    requires s.macro.Out?
  {
    var o := s.macro.outer;
    if o.LoopEnter? || o.SeqEnter? then true
    else if o.VaultFail? || o.FailFlag? || o.LoopStop? || o.ThreadEnd? then false
    else s.flag
  }

  function OuterVault(s: State, ok: bool): bool
    requires s.macro.Out?
  {
    var o := s.macro.outer;
    if o.VaultSet? then ok || s.vault else if o.StepFail? || o.SeqClear? then false else s.vault
  }

  function OuterNext(s: State, ok: bool): State
    requires s.macro.Out?
  {
    s.(macro := OuterPc(s, ok), flag := OuterFlag(s), vault := OuterVault(s, ok),
       cycle := if s.macro.outer.LoopTest? && s.flag then s.cycle + 1 else s.cycle,
       steps := if s.macro.outer.SeqEnter? then [] else s.steps)
  }

  /** The first half of a pass: test the flag, dispatch the step, and what a RESET_DAQ step does to
      the flag. */
  predicate Dispatching(p: Point)
  {
    p.Check? || p.Dispatch? || p.ResetRead? || p.ResetStop? || p.ResetStart? || p.InStep? || p.StepOk?
  }

  function DispatchPc(s: State, ok: bool): MacroPc
    requires s.macro.At? && Dispatching(s.macro.point)
  {
    var i := s.macro.i;
    match s.macro.point
    case Check =>
      if i >= |s.sequence| then Out(SeqClear(true))
      else if s.flag then At(i, Dispatch) else Out(SeqClear(false))
    case Dispatch =>
      if i >= |s.sequence| then s.macro
      else At(i, if s.sequence[i] == RESET_DAQ then ResetRead else InStep)
    case ResetRead => At(i, ResetStop(s.joinable))
    case ResetStop(was) => At(i, ResetStart(was))
    case ResetStart(_) => if ok then At(i, StepOk) else Out(StepFail)
    case InStep => if ok then At(i, AfterStep) else Out(StepFail)
    case StepOk => At(i, AfterStep)
  }

  function DispatchFlag(s: State, ok: bool): bool
    requires s.macro.At? && Dispatching(s.macro.point)
  {
    match s.macro.point
    case ResetStop(_) => false
    case ResetStart(was) => s.flag || (ok && was)
    case StepOk => true
    case _ => s.flag
  }

  function DispatchNext(s: State, ok: bool): State
    requires s.macro.At? && Dispatching(s.macro.point)
  {
    s.(macro := DispatchPc(s, ok), flag := DispatchFlag(s, ok),
       steps := if s.macro.point.Dispatch? && s.macro.i < |s.sequence| then s.steps + [s.sequence[s.macro.i]] else s.steps)
  }

  /** The second half: the fused SEND_PULSE_TRAIN, and waiting for the step's processes. */
  function WaitPc(s: State, ok: bool): MacroPc
    requires s.macro.At? && !Dispatching(s.macro.point)
  {
    var i := s.macro.i;
    match s.macro.point
    case AfterStep =>
      if i + 1 < |s.sequence| && s.sequence[i] == ACQUIRE_SIPM_DATA && s.sequence[i + 1] == SEND_PULSE_TRAIN
      then At(i + 1, PulseCheck) else At(i, WaitTest)
    case PulseCheck => At(i, if s.flag then PulseDispatch else WaitTest)
    case PulseDispatch => At(i, InPulse)
    case InPulse => At(i, WaitTest)
    case WaitTest => if s.flag then At(i, WaitPoll) else At(i + 1, Check)
    case WaitPoll => if ok then At(i, WaitTest) else At(i + 1, Check)
  }

  function WaitNext(s: State, ok: bool): State
    requires s.macro.At? && !Dispatching(s.macro.point)
  {
    s.(macro := WaitPc(s, ok), steps := if s.macro.point.PulseDispatch? then s.steps + [SEND_PULSE_TRAIN] else s.steps)
  }

  function MacroNext(s: State, ok: bool): State
  {
    if s.macro.Out? then OuterNext(s, ok)
    else if Dispatching(s.macro.point) then DispatchNext(s, ok)
    else WaitNext(s, ok)
  }

  /** The worker: where it goes next, and what it does to the flag. */
  function WorkerGo(s: State): WorkerPc
  {
    match s.worker
    case Free => Free
    case MacroTest(r) => if s.flag then Free else MacroJoin(r)
    case MacroJoin(r) => if !s.joinable || s.macro == Out(Finished) then MacroRaise(r) else s.worker
    case MacroRaise(r) => MacroSpawn(r)
    case MacroSpawn(_) => MacroAssign
    case MacroAssign => Free
    case StopLower => Free
    case HubResetRead => HubResetStop(s.joinable)
    case HubResetStop(was) => HubResetStart(was)
    case HubResetStart(_) => Free
  }

  function WorkerFlag(s: State, ok: bool): bool
  {
    match s.worker
    case MacroRaise(r) => s.flag || r.kind.Single?
    case StopLower => false
    case HubResetStop(_) => false
    case HubResetStart(was) => s.flag || (ok && was)
    case _ => s.flag
  }

  function WorkerNext(s: State, ok: bool): State
  {
    match s.worker
    case MacroSpawn(r) =>
      s.(clash := s.clash || s.macro != Out(Idle), macro := Out(if r.kind.Single? then SeqEnter else LoopEnter),
         sequence := r.sequence, kind := r.kind, cycle := 0, steps := [],
         generation := s.generation + 1, worker := WorkerGo(s))
    case MacroJoin(_) =>
      if s.joinable && s.macro == Out(Finished) then s.(joinable := false, macro := Out(Idle), worker := WorkerGo(s))
      else s.(worker := WorkerGo(s))
    case MacroAssign => s.(clash := s.clash || s.joinable, joinable := true, worker := WorkerGo(s))
    case _ => s.(flag := WorkerFlag(s, ok), worker := WorkerGo(s))
  }

  /** One step of one thread; the worker takes a new command only when it is free. */
  function Next(s: State, e: Event): State
  {
    match e
    case Macro(ok) => MacroNext(s, ok)
    case Worker(ok) => WorkerNext(s, ok)
    case StartMacro(r) => if s.worker.Free? then s.(worker := MacroTest(r)) else s
    case Stop => if s.worker.Free? then s.(worker := StopLower) else s
    case HubReset => if s.worker.Free? then s.(worker := HubResetRead) else s
  }

  function Run(s: State, es: seq<Event>): State
    decreases |es|
  {
    if es == [] then s else Run(Next(s, es[0]), es[1..])
  }

  // ----- One macro thread at a time; the vault path belongs to a running sequence -----

  /** Between the publication of the vault path and its clearing. */
  predicate InVault(pc: MacroPc)
  {
    pc.At? || pc.outer.StepFail? || pc.outer.SeqClear?
  }

  predicate OneThread(s: State)
  {
    && !s.clash
    && (s.worker.MacroRaise? || s.worker.MacroSpawn? ==> s.macro == Out(Idle) && !s.joinable)
    && (s.worker.MacroAssign? ==> !s.joinable)
    && (s.macro != Out(Idle) <==> s.joinable || s.worker.MacroAssign?)
    && (s.vault <==> InVault(s.macro))
  }

  lemma OuterKeepsOneThread(s: State, ok: bool)
    requires s.macro.Out? && OneThread(s)
    ensures OneThread(OuterNext(s, ok))
  {
  }

  lemma DispatchKeepsOneThread(s: State, ok: bool)
    requires s.macro.At? && Dispatching(s.macro.point) && OneThread(s)
    ensures OneThread(DispatchNext(s, ok))
  {
  }

  lemma WaitKeepsOneThread(s: State, ok: bool)
    requires s.macro.At? && !Dispatching(s.macro.point) && OneThread(s)
    ensures OneThread(WaitNext(s, ok))
  {
  }

  lemma MacroKeepsOneThread(s: State, ok: bool)
    requires OneThread(s)
    ensures OneThread(MacroNext(s, ok))
  {
    hide OuterNext, DispatchNext, WaitNext;
    if s.macro.Out? {
      OuterKeepsOneThread(s, ok);
    } else if Dispatching(s.macro.point) {
      DispatchKeepsOneThread(s, ok);
    } else {
      WaitKeepsOneThread(s, ok);
    }
  }

  lemma WorkerKeepsOneThread(s: State, ok: bool)
    requires OneThread(s)
    ensures OneThread(WorkerNext(s, ok))
  {
  }

  lemma StepKeepsOneThread(s: State, e: Event)
    requires OneThread(s)
    ensures OneThread(Next(s, e))
  {
    hide MacroNext, WorkerNext;
    match e
    case Macro(ok) => MacroKeepsOneThread(s, ok);
    case Worker(ok) => WorkerKeepsOneThread(s, ok);
    case StartMacro(_) =>
    case Stop =>
    case HubReset =>
  }

  /** In every run, hub resets included: a macro thread is never created while another is live, the
      handle is never overwritten while joinable, and the vault path is set exactly while a
      sequence is between publishing and clearing it. */
  lemma {:induction false} AtMostOneMacro(s: State, es: seq<Event>)
    requires OneThread(s)
    ensures OneThread(Run(s, es))
    decreases |es|
  {
    hide OneThread, Next;
    if es != [] {
      StepKeepsOneThread(s, es[0]);
      AtMostOneMacro(Next(s, es[0]), es[1..]);
    }
  }

  // ----- What a macro dispatches -----

  predicate NoHubReset(es: seq<Event>)
  {
    forall i :: 0 <= i < |es| ==> !es[i].HubReset?
  }

  predicate WorkerNotResetting(s: State)
  {
    !s.worker.HubResetRead? && !s.worker.HubResetStop? && !s.worker.HubResetStart?
  }

  /** The step this point is about has not been dispatched yet. */
  predicate Before(p: Point)
  {
    p.Check? || p.Dispatch? || p.PulseCheck? || p.PulseDispatch?
  }

  /** The index of the first step not yet dispatched. */
  function Position(i: nat, p: Point): nat
  {
    if Before(p) then i else i + 1
  }

  /** The dispatched steps are the sequence up to the position, or, once the flag is down, all of
      it but a skipped SEND_PULSE_TRAIN. */
  predicate AtPosition(s: State, p: Point, n: nat)
  {
    && n <= |s.sequence|
    && (|s.steps| == n ||
        (!s.flag && (p.WaitTest? || p.Check?) && |s.steps| == n - 1 && s.sequence[n - 1] == SEND_PULSE_TRAIN))
    && (p.Dispatch? || p.PulseCheck? || p.PulseDispatch? ==> n < |s.sequence|)
    && (p.PulseCheck? || p.PulseDispatch? ==> s.sequence[n] == SEND_PULSE_TRAIN)
  }

  predicate PrefixSoFar(s: State)
  {
    && s.steps <= s.sequence
    && (s.macro == Out(VaultSet) ==> s.steps == [])
    && (s.macro.At? ==> AtPosition(s, s.macro.point, Position(s.macro.i, s.macro.point)))
    && (s.macro == Out(SeqClear(true)) || s.macro == Out(SeqReturn(true)) ==> Complete(s))
  }

  /** Every step was dispatched, or all but a last SEND_PULSE_TRAIN that was skipped with the flag down. */
  predicate Complete(s: State)
  {
    || s.steps == s.sequence
    || (!s.flag && |s.sequence| > 0 && s.sequence[|s.sequence| - 1] == SEND_PULSE_TRAIN
        && s.steps == s.sequence[..|s.sequence| - 1])
  }

  lemma OuterTarget(s: State, ok: bool)
    requires s.macro.Out?
    ensures var t := OuterNext(s, ok);
            && t.sequence == s.sequence && t.steps == (if s.macro.outer.SeqEnter? then [] else s.steps)
            && (t.macro.At? ==> s.macro == Out(VaultSet) && t.macro == At(0, Check))
            && (t.macro == Out(VaultSet) ==> s.macro == Out(SeqEnter))
            && t.macro != Out(SeqClear(true))
            && (t.macro == Out(SeqReturn(true)) ==> s.macro == Out(SeqClear(true)) && t.flag == s.flag)
  {
    match s.macro.outer
    case Idle => case LoopEnter => case LoopTest => case SeqEnter => case VaultSet => case VaultFail =>
    case StepFail => case FailFlag => case SeqClear(_) => case SeqReturn(_) => case LoopStop =>
    case ThreadEnd => case Finished =>
  }

  lemma OuterKeepsPrefix(s: State, ok: bool)
    requires s.macro.Out? && PrefixSoFar(s)
    ensures PrefixSoFar(OuterNext(s, ok))
  {
    OuterTarget(s, ok);
    hide OuterNext;
  }

  lemma DispatchKeepsPrefix(s: State, ok: bool)
    requires s.macro.At? && Dispatching(s.macro.point) && PrefixSoFar(s)
    ensures PrefixSoFar(DispatchNext(s, ok))
  {
    if s.macro.point.Dispatch? {
      assert s.steps + [s.sequence[s.macro.i]] == s.sequence[..s.macro.i + 1];
    }
  }

  lemma PulseKeepsPrefix(s: State, ok: bool)
    requires s.macro.At? && s.macro.point.PulseDispatch? && PrefixSoFar(s)
    ensures PrefixSoFar(WaitNext(s, ok))
  {
    assert s.steps + [s.sequence[s.macro.i]] == s.sequence[..s.macro.i + 1];
  }

  lemma WaitTarget(s: State, ok: bool)
    requires s.macro.At? && !Dispatching(s.macro.point) && !s.macro.point.PulseDispatch?
    ensures var t, i := WaitNext(s, ok), s.macro.i;
            && t.sequence == s.sequence && t.steps == s.steps && t.flag == s.flag && t.macro.At?
            && match s.macro.point {
                 case AfterStep => t.macro == At(i, WaitTest)
                     || (t.macro == At(i + 1, PulseCheck) && i + 1 < |s.sequence| && s.sequence[i + 1] == SEND_PULSE_TRAIN)
                 case PulseCheck => t.macro == At(i, if s.flag then PulseDispatch else WaitTest)
                 case InPulse => t.macro == At(i, WaitTest)
                 case WaitTest => t.macro == if s.flag then At(i, WaitPoll) else At(i + 1, Check)
                 case WaitPoll => t.macro == At(i, WaitTest) || t.macro == At(i + 1, Check)
               }
  {
  }

  lemma WaitKeepsPrefix(s: State, ok: bool)
    requires s.macro.At? && !Dispatching(s.macro.point) && PrefixSoFar(s)
    ensures PrefixSoFar(WaitNext(s, ok))
  {
    if s.macro.point.PulseDispatch? {
      PulseKeepsPrefix(s, ok);
    } else {
      WaitTarget(s, ok);
      hide WaitNext;
      assert s.steps <= s.sequence;
    }
  }

  lemma MacroKeepsPrefix(s: State, ok: bool)
    requires PrefixSoFar(s)
    ensures PrefixSoFar(MacroNext(s, ok))
  {
    hide OuterNext, DispatchNext, WaitNext;
    if s.macro.Out? {
      OuterKeepsPrefix(s, ok);
    } else if Dispatching(s.macro.point) {
      DispatchKeepsPrefix(s, ok);
    } else {
      WaitKeepsPrefix(s, ok);
    }
  }

  lemma WorkerKeepsPrefix(s: State, ok: bool)
    requires OneThread(s) && WorkerNotResetting(s) && PrefixSoFar(s)
    ensures PrefixSoFar(WorkerNext(s, ok)) && WorkerNotResetting(WorkerNext(s, ok))
  {
  }

  lemma OuterKeepsWorker(s: State, ok: bool)
    requires s.macro.Out?
    ensures var t := OuterNext(s, ok); t.worker == s.worker && t.generation == s.generation
  {
  }

  lemma DispatchKeepsWorker(s: State, ok: bool)
    requires s.macro.At? && Dispatching(s.macro.point)
    ensures var t := DispatchNext(s, ok); t.worker == s.worker && t.generation == s.generation
  {
  }

  lemma WaitKeepsWorker(s: State, ok: bool)
    requires s.macro.At? && !Dispatching(s.macro.point)
    ensures var t := WaitNext(s, ok); t.worker == s.worker && t.generation == s.generation
  {
  }

  lemma MacroKeepsWorker(s: State, ok: bool)
    ensures var t := MacroNext(s, ok); t.worker == s.worker && t.generation == s.generation
  {
    hide OuterNext, DispatchNext, WaitNext;
    if s.macro.Out? {
      OuterKeepsWorker(s, ok);
    } else if Dispatching(s.macro.point) {
      DispatchKeepsWorker(s, ok);
    } else {
      WaitKeepsWorker(s, ok);
    }
  }

  lemma EventKeepsPrefix(s: State, e: Event)
    requires OneThread(s) && WorkerNotResetting(s) && !e.HubReset? && PrefixSoFar(s)
    ensures PrefixSoFar(Next(s, e)) && WorkerNotResetting(Next(s, e))
  {
    MacroKeepsWorker(s, e.Macro? && e.ok);
    hide MacroNext, WorkerNext;
    match e
    case Macro(ok) => MacroKeepsPrefix(s, ok);
    case Worker(ok) => WorkerKeepsPrefix(s, ok);
    case StartMacro(_) =>
    case Stop =>
  }

  /** In every run without a hub reset, each pass of a macro dispatches a prefix of its declared
      sequence. */
  lemma {:induction false} DispatchesPrefix(s: State, es: seq<Event>)
    requires OneThread(s) && WorkerNotResetting(s) && PrefixSoFar(s) && NoHubReset(es)
    ensures var t := Run(s, es); PrefixSoFar(t) && t.steps <= t.sequence
    decreases |es|
  {
    hide OneThread, Next, WorkerNotResetting;
    if es != [] {
      StepKeepsOneThread(s, es[0]);
      EventKeepsPrefix(s, es[0]);
      assert forall i :: 0 <= i < |es[1..]| ==> es[1..][i] == es[i + 1];
      DispatchesPrefix(Next(s, es[0]), es[1..]);
    }
  }

  /** In every run without a hub reset a sequence reports success only when it has dispatched every step,
      or all but a last SEND_PULSE_TRAIN that a STOP made it skip. */
  lemma SuccessMeansComplete(es: seq<Event>)
    requires NoHubReset(es) && Run(Initial, es).macro == Out(SeqReturn(true))
    ensures var s := Run(Initial, es);
            || s.steps == s.sequence
            || (!s.flag && s.sequence == s.steps + [SEND_PULSE_TRAIN])
  {
    DispatchesPrefix(Initial, es);
    var s := Run(Initial, es);
    if s.steps != s.sequence { assert s.sequence == s.sequence[..|s.sequence| - 1] + [s.sequence[|s.sequence| - 1]]; }
  }

  /** These results, and the meaning of the flag, from the start of the program. */
  lemma MacroRuns(es: seq<Event>)
    ensures OneThread(Run(Initial, es))
    ensures NoHubReset(es) ==> Run(Initial, es).steps <= Run(Initial, es).sequence && FlagMeansMacro(Run(Initial, es))
  {
    AtMostOneMacro(Initial, es);
    if NoHubReset(es) {
      DispatchesPrefix(Initial, es);
      FlagAlwaysMeansMacro(Initial, es);
    }
  }

  // ----- STOP -----

  /** No RESET_DAQ step remains at or after index i. */
  predicate NoResetFrom(sequence: seq<Code>, i: nat)
  {
    forall k :: i <= k < |sequence| ==> sequence[k] != RESET_DAQ
  }

  /** Program points from which the flag is raised before it is next tested. */
  predicate Raises(pc: MacroPc)
  {
    if pc.Out? then pc.outer.LoopEnter? || pc.outer.SeqEnter?
    else pc.point.ResetRead? || pc.point.ResetStop? || pc.point.ResetStart? || pc.point.StepOk?
  }

  /** The thread will not raise the flag again before its sequence returns. */
  predicate NoRaiseAhead(s: State)
  {
    && !Raises(s.macro)
    && (s.macro == Out(VaultSet) ==> NoResetFrom(s.sequence, 0))
    && (s.macro.At? ==> NoResetFrom(s.sequence, Position(s.macro.i, s.macro.point)))
  }

  /** The one dispatch whose flag test has already passed. */
  function Checked(pc: MacroPc): nat
  {
    if pc.At? && (pc.point.Dispatch? || pc.point.PulseDispatch?) then 1 else 0
  }

  /** The flag is down and will stay down for as long as this thread lives. */
  predicate Stopping(s: State)
  {
    s.macro == Out(Idle) || (!s.flag && NoRaiseAhead(s))
  }

  /** t comes after s in the life of one macro thread that has been stopped. */
  predicate QuietSince(s: State, t: State)
  {
    && Stopping(t) && t.cycle == s.cycle && s.steps <= t.steps
    && |t.steps| + Checked(t.macro) <= |s.steps| + Checked(s.macro)
  }

  lemma OuterKeepsStopping(s: State, ok: bool)
    requires s.macro.Out? && Stopping(s)
    ensures QuietSince(s, OuterNext(s, ok))
  {
  }

  lemma DispatchKeepsStopping(s: State, ok: bool)
    requires s.macro.At? && Dispatching(s.macro.point) && Stopping(s)
    ensures QuietSince(s, DispatchNext(s, ok))
  {
  }

  lemma WaitKeepsStopping(s: State, ok: bool)
    requires s.macro.At? && !Dispatching(s.macro.point) && Stopping(s)
    ensures QuietSince(s, WaitNext(s, ok))
  {
    match s.macro.point
    case AfterStep => case PulseCheck => case PulseDispatch => case InPulse => case WaitTest => case WaitPoll =>
  }

  lemma MacroKeepsStopping(s: State, ok: bool)
    requires Stopping(s)
    ensures QuietSince(s, MacroNext(s, ok))
  {
    hide OuterNext, DispatchNext, WaitNext;
    if s.macro.Out? {
      OuterKeepsStopping(s, ok);
    } else if Dispatching(s.macro.point) {
      DispatchKeepsStopping(s, ok);
    } else {
      WaitKeepsStopping(s, ok);
    }
  }

  lemma WorkerKeepsStopping(s: State, ok: bool)
    requires OneThread(s) && WorkerNotResetting(s) && Stopping(s)
    ensures var t := WorkerNext(s, ok);
            t.generation >= s.generation && WorkerNotResetting(t) && (t.generation == s.generation ==> QuietSince(s, t))
  {
  }

  lemma EventKeepsStopping(s: State, e: Event)
    requires OneThread(s) && WorkerNotResetting(s) && !e.HubReset? && Stopping(s)
    ensures var t := Next(s, e);
            t.generation >= s.generation && WorkerNotResetting(t) && (t.generation == s.generation ==> QuietSince(s, t))
  {
    MacroKeepsWorker(s, e.Macro? && e.ok);
    hide MacroNext, WorkerNext;
    match e
    case Macro(ok) => MacroKeepsStopping(s, ok);
    case Worker(ok) => WorkerKeepsStopping(s, ok);
    case StartMacro(_) =>
    case Stop =>
  }

  lemma GenerationStep(s: State, e: Event)
    ensures Next(s, e).generation >= s.generation
  {
    MacroKeepsWorker(s, e.Macro? && e.ok);
    hide MacroNext;
  }

  lemma {:induction false} GenerationGrows(s: State, es: seq<Event>)
    ensures Run(s, es).generation >= s.generation
    decreases |es|
  {
    hide Next;
    if es != [] {
      GenerationStep(s, es[0]);
      GenerationGrows(Next(s, es[0]), es[1..]);
    }
  }

  lemma {:induction false} StoppedRun(s: State, es: seq<Event>)
    requires OneThread(s) && WorkerNotResetting(s) && NoHubReset(es) && Stopping(s)
    ensures var t := Run(s, es);
            t.generation >= s.generation && (t.generation == s.generation ==> QuietSince(s, t))
    decreases |es|
  {
    hide OneThread, Next, WorkerNotResetting;
    if es != [] {
      var u := Next(s, es[0]);
      StepKeepsOneThread(s, es[0]);
      EventKeepsStopping(s, es[0]);
      assert forall i :: 0 <= i < |es[1..]| ==> es[1..][i] == es[i + 1];
      GenerationGrows(u, es[1..]);
      if u.generation == s.generation { StoppedRun(u, es[1..]); }
    }
  }

  /** A STOP that lowers the flag while a macro thread is past the point where it raises it lets
      that thread dispatch at most the one step whose flag test had already passed, and start no
      new cycle, however long the run goes on. */
  lemma StopEndsMacro(s: State, ok: bool, es: seq<Event>)
    requires OneThread(s) && s.worker.StopLower? && NoRaiseAhead(s) && NoHubReset(es)
    ensures var t := Run(Next(s, Worker(ok)), es);
            t.generation == s.generation ==>
              && t.cycle == s.cycle && s.steps <= t.steps && |t.steps| <= |s.steps| + Checked(s.macro)
  {
    StepKeepsOneThread(s, Worker(ok));
    var u := Next(s, Worker(ok));
    assert WorkerNotResetting(u) && Stopping(u) && u.macro == s.macro && u.steps == s.steps && u.cycle == s.cycle;
    assert u.generation == s.generation;
    hide Next, MacroNext, WorkerNext, OneThread, WorkerNotResetting;
    StoppedRun(u, es);
  }

  // ----- The flag without a macro -----

  /** A macro thread that has been created and has not returned. */
  predicate Live(s: State)
  {
    s.macro != Out(Idle) && s.macro != Out(Finished)
  }

  /** The flag is up only for a live macro thread, or for the one the worker is about to create. */
  predicate FlagMeansMacro(s: State)
  {
    s.flag ==> Live(s) || s.worker.MacroSpawn?
  }

  lemma OuterKeepsMeaning(s: State, ok: bool)
    requires s.macro.Out? && FlagMeansMacro(s)
    ensures FlagMeansMacro(OuterNext(s, ok))
  {
  }

  lemma DispatchKeepsMeaning(s: State, ok: bool)
    requires s.macro.At? && Dispatching(s.macro.point)
    ensures FlagMeansMacro(DispatchNext(s, ok))
  {
  }

  lemma WaitKeepsMeaning(s: State, ok: bool)
    requires s.macro.At? && !Dispatching(s.macro.point)
    ensures FlagMeansMacro(WaitNext(s, ok))
  {
  }

  lemma MacroKeepsMeaning(s: State, ok: bool)
    requires FlagMeansMacro(s)
    ensures FlagMeansMacro(MacroNext(s, ok))
  {
    hide OuterNext, DispatchNext, WaitNext, FlagMeansMacro;
    if s.macro.Out? {
      OuterKeepsMeaning(s, ok);
    } else if Dispatching(s.macro.point) {
      DispatchKeepsMeaning(s, ok);
    } else {
      WaitKeepsMeaning(s, ok);
    }
  }

  lemma WorkerKeepsMeaning(s: State, ok: bool)
    requires OneThread(s) && WorkerNotResetting(s) && FlagMeansMacro(s)
    ensures FlagMeansMacro(WorkerNext(s, ok)) && WorkerNotResetting(WorkerNext(s, ok))
  {
  }

  lemma EventKeepsMeaning(s: State, e: Event)
    requires OneThread(s) && WorkerNotResetting(s) && !e.HubReset? && FlagMeansMacro(s)
    ensures FlagMeansMacro(Next(s, e)) && WorkerNotResetting(Next(s, e))
  {
    MacroKeepsWorker(s, e.Macro? && e.ok);
    hide MacroNext, WorkerNext;
    match e
    case Macro(ok) => MacroKeepsMeaning(s, ok);
    case Worker(ok) => WorkerKeepsMeaning(s, ok);
    case StartMacro(_) =>
    case Stop =>
  }

  /** In every run without a hub reset the flag means a macro: no request is refused without one. */
  lemma {:induction false} FlagAlwaysMeansMacro(s: State, es: seq<Event>)
    requires OneThread(s) && WorkerNotResetting(s) && FlagMeansMacro(s) && NoHubReset(es)
    ensures FlagMeansMacro(Run(s, es))
    decreases |es|
  {
    hide OneThread, Next, WorkerNotResetting, FlagMeansMacro;
    if es != [] {
      StepKeepsOneThread(s, es[0]);
      EventKeepsMeaning(s, es[0]);
      assert forall i :: 0 <= i < |es[1..]| ==> es[1..][i] == es[i + 1];
      FlagAlwaysMeansMacro(Next(s, es[0]), es[1..]);
    }
  }

  /** With no live macro, a hub reset leaves the flag up exactly when the handle of a finished thread
      is still joinable and START succeeds: RESET_DAQ takes a joinable handle for a running macro. */
  lemma ResetRaisesFlagIff(s: State, a: bool, b: bool, started: bool)
    requires OneThread(s) && s.worker.Free? && !Live(s)
    ensures var t := Run(s, [HubReset] + ([Worker(a)] + ([Worker(b)] + ([Worker(started)] + []))));
            && (t.flag <==> s.joinable && started)
            && (t.flag <==> Stuck(t)) && t.worker.Free? && t.macro == s.macro && t.joinable == s.joinable
  {
    ResetSteps(s, a, b, started);
    hide Next, OneThread, Stuck;
    RunCons(s, HubReset, [Worker(a)] + ([Worker(b)] + ([Worker(started)] + [])));
    RunCons(Next(s, HubReset), Worker(a), [Worker(b)] + ([Worker(started)] + []));
    RunCons(Next(Next(s, HubReset), Worker(a)), Worker(b), [Worker(started)] + []);
    RunCons(Next(Next(Next(s, HubReset), Worker(a)), Worker(b)), Worker(started), []);
  }

  lemma RunCons(s: State, e: Event, es: seq<Event>)
    ensures Run(s, [e] + es) == Run(Next(s, e), es)
  {
    hide Next;
    assert ([e] + es)[1..] == es;
  }

  lemma ResetSteps(s: State, a: bool, b: bool, started: bool)
    requires OneThread(s) && s.worker.Free? && !Live(s)
    ensures var t := Next(Next(Next(Next(s, HubReset), Worker(a)), Worker(b)), Worker(started));
            && (t.flag <==> s.joinable && started)
            && (t.flag <==> Stuck(t)) && t.worker.Free? && t.macro == s.macro && t.joinable == s.joinable
  {
    var s1 := s.(worker := HubResetRead);
    var s2 := s.(worker := HubResetStop(s.joinable));
    var s3 := s.(flag := false, worker := HubResetStart(s.joinable));
    assert Next(s, HubReset) == s1;
    WorkerStep(s1, s2, a);
    WorkerStep(s2, s3, b);
    WorkerStep(s3, s.(flag := started && s.joinable, worker := Free), started);
    hide Next;
  }

  lemma WorkerStep(s: State, t: State, ok: bool)
    requires t == WorkerNext(s, ok)
    ensures Next(s, Worker(ok)) == t
  {
    hide WorkerNext;
  }

  /** A finished thread not yet joined, and a flag that is up whenever the worker can test it: it is
      up already, or a reset in progress has seen the joinable handle and will raise it again. */
  predicate Stuck(s: State)
  {
    && s.macro == Out(Finished) && s.joinable
    && match s.worker
       case Free => s.flag
       case MacroTest(_) => s.flag
       case HubResetRead => true
       case HubResetStop(was) => was
       case HubResetStart(was) => was
       case _ => false
  }

  /** Whatever happened during a reset, its last step leaves the program stuck exactly when the macro
      thread has ended by then and the flag is up or raised. */
  lemma StuckAfterResetIff(s: State, was: bool, started: bool)
    requires OneThread(s) && s.worker == HubResetStart(was)
    ensures Stuck(Next(s, Worker(started))) <==> s.macro == Out(Finished) && (s.flag || (was && started))
  {
  }

  lemma {:induction false} RunAppend(s: State, a: seq<Event>, b: seq<Event>)
    ensures Run(s, a + b) == Run(Run(s, a), b)
    decreases |a|
  {
    hide Next;
    if a == [] {
      assert a + b == b;
    } else {
      assert (a + b)[1..] == a[1..] + b;
      RunAppend(Next(s, a[0]), a[1..], b);
    }
  }

  function Repeat(e: Event, n: nat): (es: seq<Event>)
    ensures |es| == n
  {
    if n == 0 then [] else [e] + Repeat(e, n - 1)
  }

  function Iterate(s: State, e: Event, n: nat): State
    decreases n
  {
    if n == 0 then s else Iterate(Next(s, e), e, n - 1)
  }

  lemma {:induction false} RunRepeat(s: State, e: Event, n: nat)
    ensures Run(s, Repeat(e, n)) == Iterate(s, e, n)
    decreases n
  {
    hide Next;
    if n > 0 {
      RunCons(s, e, Repeat(e, n - 1));
      RunRepeat(Next(s, e), e, n - 1);
    }
  }

  lemma FiveTimes(s: State, e: Event)
    ensures Iterate(s, e, 5) == Next(Next(Next(Next(Next(s, e), e), e), e), e)
  {
    hide Next;
    var s1 := Next(s, e);
    var s2 := Next(s1, e);
    var s3 := Next(s2, e);
    assert Iterate(s, e, 5) == Iterate(s1, e, 4) == Iterate(s2, e, 3) == Iterate(s3, e, 2) == Iterate(Next(s3, e), e, 1);
  }

  /** No STOP, and every START of a reset succeeds (no other worker step looks at its boolean). */
  predicate NoStopNoFailedStart(es: seq<Event>)
  {
    forall i :: 0 <= i < |es| ==> !es[i].Stop? && (es[i].Worker? ==> es[i].ok)
  }

  /** From there every macro request is refused, however many are made and however many successful
      resets come, until a STOP or a reset whose START fails: no thread is ever created. */
  lemma {:induction false} StuckUntilStop(s: State, es: seq<Event>)
    requires Stuck(s) && NoStopNoFailedStart(es)
    ensures Stuck(Run(s, es)) && Run(s, es).generation == s.generation
    decreases |es|
  {
    if es != [] {
      assert forall i :: 0 <= i < |es[1..]| ==> es[1..][i] == es[i + 1];
      StuckStep(s, es[0]);
      hide Stuck, Next;
      StuckUntilStop(Next(s, es[0]), es[1..]);
    }
  }

  lemma StuckStep(s: State, e: Event)
    requires Stuck(s) && !e.Stop? && (e.Worker? ==> e.ok)
    ensures Stuck(Next(s, e)) && Next(s, e).generation == s.generation
  {
  }

  /** A STOP ends it: once it has lowered the flag the flag means a macro again. */
  lemma StopUnsticks(s: State, ok: bool)
    requires OneThread(s) && s.worker.StopLower?
    ensures var t := Next(s, Worker(ok)); FlagMeansMacro(t) && WorkerNotResetting(t) && OneThread(t)
  {
    StepKeepsOneThread(s, Worker(ok));
  }

  // ----- The declared macros -----

  const ThermalCalib: seq<Code> := [
    READ_TEMPERATURE_SENSORS, ACQUIRE_THRESHOLD_CALIBRATION_BN, ACQUIRE_THRESHOLD_CALIBRATION_D,
    PROCESS_THRESHOLD_CALIBRATION, MAKE_SIMPLE_DISC_SET_TABLE, ACQUIRE_TDC_CALIBRATION,
    ACQUIRE_QDC_CALIBRATION, PROCESS_TDC_CALIBRATION, PROCESS_QDC_CALIBRATION]

  const AutoRun: seq<Code> := [
    RESET_DAQ, READ_TEMPERATURE_SENSORS, ACQUIRE_THRESHOLD_CALIBRATION_BN, PROCESS_THRESHOLD_CALIBRATION,
    MAKE_SIMPLE_DISC_SET_TABLE, ACQUIRE_SIPM_DATA, CONVERT_RAW_TO_RAW, CONVERT_STG1_TO_STG2,
    PROCESS_QA_COIN, PROCESS_QA_IRIDIUM]

  const Stage0PrebreakdownBn: seq<Code> := [
    RESET_DAQ, READ_TEMPERATURE_SENSORS, ACQUIRE_THRESHOLD_CALIBRATION_BN, PROCESS_THRESHOLD_CALIBRATION,
    MAKE_SIMPLE_DISC_SET_TABLE, READ_TEMPERATURE_SENSORS_SINGLE]

  const Stage1UnbiasedTdc: seq<Code> := [
    RESET_DAQ, READ_TEMPERATURE_SENSORS_SINGLE, ACQUIRE_TDC_CALIBRATION, PROCESS_TDC_CALIBRATION,
    READ_TEMPERATURE_SENSORS_SINGLE]

  const Stage2PrebreakdownQdc: seq<Code> := [
    RESET_DAQ, READ_TEMPERATURE_SENSORS_SINGLE, ACQUIRE_QDC_CALIBRATION, PROCESS_QDC_CALIBRATION,
    READ_TEMPERATURE_SENSORS_SINGLE]

  const Stage3OperationalD: seq<Code> := [
    RESET_DAQ, READ_TEMPERATURE_SENSORS_SINGLE, ACQUIRE_THRESHOLD_CALIBRATION_D, START_ASIC_TEMP_RECORD,
    ACQUIRE_SIPM_DATA, SEND_PULSE_TRAIN, STOP_ASIC_TEMP_RECORD, CONVERT_RAW_TO_RAW, CONVERT_STG1_TO_STG2,
    PROCESS_QA_IRIDIUM, READ_TEMPERATURE_SENSORS_SINGLE]

  const AutoRunCycle: seq<Code> := [
    RESET_DAQ, READ_TEMPERATURE_SENSORS, ACQUIRE_THRESHOLD_CALIBRATION_D, ACQUIRE_SIPM_DATA,
    CONVERT_RAW_TO_RAW, CONVERT_STG1_TO_STG2, PROCESS_QA_COIN, PROCESS_QA_IRIDIUM]

  const DeclaredMacros: seq<seq<Code>> := [
    ThermalCalib, AutoRun, Stage0PrebreakdownBn, Stage1UnbiasedTdc, Stage2PrebreakdownQdc,
    Stage3OperationalD, AutoRunCycle]

  /** In every declared macro RESET_DAQ can only be the first step, so a STOP is final as soon as
      that step is over. */
  lemma DeclaredMacrosStoppable(s: State)
    requires s.sequence in DeclaredMacros && s.macro.At? && Position(s.macro.i, s.macro.point) >= 1
    requires !Raises(s.macro)
    ensures NoRaiseAhead(s)
  {
    assert forall m :: m in DeclaredMacros ==> NoResetFrom(m, 1);
    hide DeclaredMacros;
  }
}
