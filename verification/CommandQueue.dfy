/** The command queue between the network thread and the worker thread of
    GRAMS_TOF_CommandClient: STOP and RESET jump to the front. Each locked region, each test of
    the running flag and each handler run is one step; the theorems hold for every order of steps. */
module CommandQueue {
  import opened CommandCodec

  const STOP_DAQ := 0x5001
  const RESET_DAQ := 0x5002

  predicate Urgent(p: Packet)
  {
    p.code == STOP_DAQ || p.code == RESET_DAQ
  }

  /** A queued packet together with its arrival number. */
  datatype Item = Item(id: nat, packet: Packet)

  /** The worker thread: at the head of its loop, waiting for the queue, in a handler, or returned. */
  datatype Worker = Testing | Waiting | Handling(item: Item) | Exited

  /** The queue, the flag and the worker, with the history of arrivals and of handler starts. */
  datatype State = State(queue: seq<Item>, running: bool, worker: Worker, arrived: seq<Packet>, started: seq<Item>)

  const Initial := State([], false, Exited, [], [])

  datatype Event = Enqueue(packet: Packet) | Test | Take | Done | Exit | Halt | Start

  /** The effect of one step; a step that is not possible in a state leaves it unchanged. */
  function Next(s: State, e: Event): State
  {
    match e
    case Enqueue(p) =>
      var x := Item(|s.arrived|, p);
      s.(queue := if Urgent(p) then [x] + s.queue else s.queue + [x], arrived := s.arrived + [p])
    case Test =>
      if s.worker.Testing? then s.(worker := if s.running then Waiting else Exited) else s
    case Take =>
      if s.worker.Waiting? && s.queue != []
      then s.(queue := s.queue[1..], worker := Handling(s.queue[0]), started := s.started + [s.queue[0]])
      else s
    case Done =>
      if s.worker.Handling? then s.(worker := Testing) else s
    case Exit =>
      if s.worker.Waiting? && s.queue == [] && !s.running then s.(worker := Exited) else s
    case Halt => s.(running := false)
    case Start => if !s.running && s.worker.Exited? then s.(running := true, worker := Testing) else s
  }

  function Run(s: State, es: seq<Event>): State
    decreases |es|
  {
    if es == [] then s else Run(Next(s, es[0]), es[1..])
  }

  /** The ordinary (not urgent) items of a list, in order. */
  function Ordinary(items: seq<Item>): seq<Item>
  {
    if items == [] then []
    else if Urgent(items[0].packet) then Ordinary(items[1..])
    else [items[0]] + Ordinary(items[1..])
  }

  function Tagged(arrived: seq<Packet>): (items: seq<Item>)
    ensures |items| == |arrived|
  {
    seq(|arrived|, i requires 0 <= i < |arrived| => Item(i, arrived[i]))
  }

  function Packets(items: seq<Item>): (ps: seq<Packet>)
    ensures |ps| == |items|
  {
    seq(|items|, i requires 0 <= i < |items| => items[i].packet)
  }

  /** Nothing is lost or duplicated. */
  predicate NoneLost(s: State)
  {
    multiset(Packets(s.started)) + multiset(Packets(s.queue)) == multiset(s.arrived)
  }

  /** Ordinary commands keep their arrival order. */
  predicate InOrder(s: State)
  {
    Ordinary(s.started) + Ordinary(s.queue) == Ordinary(Tagged(s.arrived))
  }

  predicate Conserved(s: State)
  {
    NoneLost(s) && InOrder(s)
  }

  lemma {:induction false} OrdinaryConcat(a: seq<Item>, b: seq<Item>)
    ensures Ordinary(a + b) == Ordinary(a) + Ordinary(b)
    decreases |a|
  {
    if a == [] {
      assert a + b == b;
    } else {
      assert (a + b)[1..] == a[1..] + b;
      OrdinaryConcat(a[1..], b);
    }
  }

  lemma EnqueueConserves(s: State, p: Packet)
    requires Conserved(s)
    ensures Conserved(Next(s, Enqueue(p)))
  {
    hide NoneLost, InOrder;
    EnqueueNoneLost(s, p);
    EnqueueInOrder(s, p);
  }

  lemma EnqueueNoneLost(s: State, p: Packet)
    requires NoneLost(s)
    ensures NoneLost(Next(s, Enqueue(p)))
  {
    var t := Next(s, Enqueue(p));
    assert Packets(t.queue) == if Urgent(p) then [p] + Packets(s.queue) else Packets(s.queue) + [p];
  }

  lemma OrdinaryOne(x: Item)
    ensures Ordinary([x]) == if Urgent(x.packet) then [] else [x]
  {
  }

  lemma EnqueueInOrder(s: State, p: Packet)
    requires InOrder(s)
    ensures InOrder(Next(s, Enqueue(p)))
  {
    var x, t := Item(|s.arrived|, p), Next(s, Enqueue(p));
    assert Tagged(t.arrived) == Tagged(s.arrived) + [x];
    OrdinaryConcat(Tagged(s.arrived), [x]);
    OrdinaryOne(x);
    OrdinaryConcat([x], s.queue);
    OrdinaryConcat(s.queue, [x]);
    hide Ordinary, Tagged;
    var a, b := Ordinary(s.started), Ordinary(s.queue);
    if Urgent(p) {
      assert [] + b == b && (a + b) + [] == a + b;
    } else {
      assert a + (b + [x]) == (a + b) + [x];
    }
  }

  lemma TakeNoneLost(s: State)
    requires NoneLost(s) && Starts(s, Take)
    ensures NoneLost(Next(s, Take))
  {
    var x, t := s.queue[0], Next(s, Take);
    assert Packets(t.started) == Packets(s.started) + [x.packet];
    assert Packets(s.queue) == [x.packet] + Packets(t.queue);
  }

  lemma TakeInOrder(s: State)
    requires InOrder(s) && Starts(s, Take)
    ensures InOrder(Next(s, Take))
  {
    var x, rest := s.queue[0], s.queue[1..];
    OrdinaryConcat(s.started, [x]);
    OrdinaryConcat([x], rest);
    assert s.queue == [x] + rest;
    assert Ordinary(s.started) + (Ordinary([x]) + Ordinary(rest)) == (Ordinary(s.started) + Ordinary([x])) + Ordinary(rest);
  }

  lemma TakeConserves(s: State)
    requires Conserved(s)
    ensures Conserved(Next(s, Take))
  {
    hide NoneLost, InOrder;
    if Starts(s, Take) {
      TakeNoneLost(s);
      TakeInOrder(s);
    }
  }

  lemma StepConserves(s: State, e: Event)
    requires Conserved(s)
    ensures Conserved(Next(s, e))
  {
    match e {
      case Enqueue(p) => EnqueueConserves(s, p);
      case Take => TakeConserves(s);
      case Test => case Done => case Exit => case Halt => case Start =>
    }
  }

  /** In every run: arrivals are exactly the commands started plus those queued, each once,
      and the ordinary ones start in the order they arrived. */
  lemma {:induction false} RunConserves(s: State, es: seq<Event>)
    requires Conserved(s)
    ensures Conserved(Run(s, es))
    decreases |es|
  {
    hide Conserved, Next;
    if es != [] {
      StepConserves(s, es[0]);
      RunConserves(Next(s, es[0]), es[1..]);
    }
  }

  lemma InitiallyConserved()
    ensures Conserved(Initial)
  {
    assert Tagged([]) == [];
  }

  /** In every run from the start: accepted packets = executed + still queued, as multisets, and
      the ordinary arrivals are the ordinary starts followed by the ordinary commands queued. */
  lemma QueueCorrect(es: seq<Event>)
    ensures var s := Run(Initial, es);
            && multiset(s.arrived) == multiset(Packets(s.started)) + multiset(Packets(s.queue))
            && Ordinary(Tagged(s.arrived)) == Ordinary(s.started) + Ordinary(s.queue)
  {
    InitiallyConserved();
    RunConserves(Initial, es);
  }

  // ----- Urgent commands -----

  predicate LaterUrgent(items: seq<Item>, x: Item)
  {
    forall i :: 0 <= i < |items| ==> Urgent(items[i].packet) && items[i].id > x.id
  }

  /** x waits behind nothing but later urgent commands. */
  predicate WaitsAt(s: State, x: Item, k: nat)
  {
    k < |s.queue| && s.queue[k] == x && LaterUrgent(s.queue[..k], x) && x.id < |s.arrived|
  }

  /** Between its arrival and its start, only STOP and RESET commands that arrived even later can
      start: the starts of any run are later urgent commands up to a point m, and either x starts
      there or x is still queued at the end. */
  lemma {:induction false} UrgentOvertakes(s: State, x: Item, k: nat, es: seq<Event>) returns (m: nat)
    requires Urgent(x.packet) && WaitsAt(s, x, k)
    ensures var t := Run(s, es);
            && |s.started| <= m <= |t.started| && s.started <= t.started
            && LaterUrgent(t.started[|s.started|..m], x)
            && if m < |t.started| then t.started[m] == x else x in t.queue
    decreases |es|
  {
    if es == [] {
      m := |s.started|;
    } else {
      var t, e := Next(s, es[0]), es[0];
      StartedGrows(t, es[1..]);
      if Starts(s, e) && k == 0 {
        m := |s.started|;
        assert t.started[m] == x;
      } else {
        m := UrgentOvertakes(t, x, WaitsOn(s, x, k, e), es[1..]);
        var u := Run(t, es[1..]);
        assert LaterUrgent(t.started[|s.started|..], x) by {
          if Starts(s, e) { assert t.started[|s.started|..] == [s.queue[..k][0]]; }
        }
        LaterUrgentJoins(u.started, |s.started|, |t.started|, m, x);
        assert u.started[|s.started|..|t.started|] == t.started[|s.started|..];
      }
    }
  }

  lemma LaterUrgentJoins(items: seq<Item>, i: nat, j: nat, m: nat, x: Item)
    requires i <= j <= m <= |items|
    ensures LaterUrgent(items[i..j], x) && LaterUrgent(items[j..m], x) ==> LaterUrgent(items[i..m], x)
  {
    assert items[i..m] == items[i..j] + items[j..m];
  }

  /** The step hands the front of the queue to the worker. */
  predicate Starts(s: State, e: Event)
  {
    e.Take? && s.worker.Waiting? && s.queue != []
  }

  /** Where x waits after a step that does not start it. */
  ghost function WaitsOn(s: State, x: Item, k: nat, e: Event): (k': nat)
    requires WaitsAt(s, x, k) && !(Starts(s, e) && k == 0)
    ensures WaitsAt(Next(s, e), x, k')
  {
    var t := Next(s, e);
    if Starts(s, e) then
      assert t.queue[..k - 1] == s.queue[..k][1..];
      k - 1
    else if e.Enqueue? && Urgent(e.packet) then
      assert t.queue[..k + 1] == [Item(|s.arrived|, e.packet)] + s.queue[..k];
      k + 1
    else
      assert t.queue[..k] == s.queue[..k];
      k
  }

  lemma {:induction false} StartedGrows(s: State, es: seq<Event>)
    ensures s.started <= Run(s, es).started
    decreases |es|
  {
    if es != [] { StartedGrows(Next(s, es[0]), es[1..]); }
  }

  /** STOP (0x5001) and RESET (0x5002) commands, and no others, go to the front the moment they arrive;
      every other command goes to the back. */
  lemma UrgentArrival(s: State, p: Packet)
    ensures Urgent(p) <==> p.code == 0x5001 || p.code == 0x5002
    ensures var t, x := Next(s, Enqueue(p)), Item(|s.arrived|, p);
            if p.code == 0x5001 || p.code == 0x5002 then t.queue == [x] + s.queue && WaitsAt(t, x, 0)
            else t.queue == s.queue + [x]
  {
  }

  // ----- Progress -----

  /** The worker takes a command, handles it and comes back to the head of its loop, n times. */
  function Rounds(n: nat): seq<Event>
  {
    if n == 0 then [] else [Test, Take, Done] + Rounds(n - 1)
  }

  lemma RunThree(s: State, a: Event, b: Event, c: Event, es: seq<Event>)
    ensures Run(s, [a, b, c] + es) == Run(Next(Next(Next(s, a), b), c), es)
  {
    hide Next;
    var all := [a, b, c] + es;
    assert all[1..] == [b, c] + es && ([b, c] + es)[1..] == [c] + es && ([c] + es)[1..] == es;
    assert Run(s, all) == Run(Next(s, a), [b, c] + es);
    assert Run(Next(s, a), [b, c] + es) == Run(Next(Next(s, a), b), [c] + es);
  }

  /** While it is running, the worker works the queue off from the front: n rounds start the first n
      commands, in queue order, and leave the rest. */
  lemma {:induction false} WorkerDrains(s: State, n: nat)
    requires s.running && s.worker.Testing? && n <= |s.queue|
    ensures var t := Run(s, Rounds(n));
            && t.started == s.started + s.queue[..n] && t.queue == s.queue[n..]
            && t.running && t.worker.Testing? && t.arrived == s.arrived
    decreases n
  {
    if n == 0 {
      assert s.queue[..0] == [] && s.queue[0..] == s.queue;
    } else {
      var u := Next(Next(Next(s, Test), Take), Done);
      assert u == s.(queue := s.queue[1..], started := s.started + [s.queue[0]]);
      RunThree(s, Test, Take, Done, Rounds(n - 1));
      WorkerDrains(u, n - 1);
      hide Next, Run;
      assert s.queue[..n] == [s.queue[0]] + s.queue[1..][..n - 1];
      assert s.queue[1..][n - 1..] == s.queue[n..];
    }
  }

  /** start() brings a stopped client there, with its queue. */
  lemma StartResumes(s: State)
    requires !s.running && s.worker.Exited?
    ensures Next(s, Start) == s.(running := true, worker := Testing)
  {
  }

  /** After stop(), and until the next start(), at most the one command the worker is already waiting
      for can still start, and once the worker has returned to its loop head it exits. */
  lemma {:induction false} HaltStops(s: State, es: seq<Event>)
    requires !s.running && forall i :: 0 <= i < |es| ==> !es[i].Start?
    ensures var t := Run(s, es);
            && !t.running && |t.started| <= |s.started| + (if s.worker.Waiting? then 1 else 0)
            && (s.worker.Testing? || s.worker.Exited? ==> t.worker.Testing? || t.worker.Exited?)
    decreases |es|
  {
    if es != [] {
      assert forall i :: 0 <= i < |es[1..]| ==> es[1..][i] == es[i + 1];
      HaltStops(Next(s, es[0]), es[1..]);
    }
  }

  lemma HaltedWorkerExits(s: State)
    requires !s.running
    ensures s.worker.Testing? ==> Next(s, Test) == s.(worker := Exited)
    ensures s.worker.Waiting? && s.queue == [] ==> Next(s, Exit) == s.(worker := Exited)
    ensures Next(s.(running := true), Halt) == s
  {
  }
}
