/** The ASIC configuration cache of daqd.Connection: registers are written, read back and only
    then cached, and a summary of the TAC refresh settings is kept beside the cache. */
module AsicCache {
  import opened Prelude
  import opened BitFields
  import B = Tofpet2b
  import C = Tofpet2c

  datatype Asic = Asic(portID: nat, slaveID: nat, chipID: nat)

  type GlobalWord = w: seq<bool> | |w| == 184 witness seq(184, i => false)
  type ChannelWord = w: seq<bool> | |w| == 125 witness seq(125, i => false)

  const CHANNELS: nat := 64

  datatype Config = Config(global: GlobalWord, channels: seq<ChannelWord>)

  type Table = map<Asic, Config>

  predicate Complete(c: Config)
  {
    |c.channels| == CHANNELS
  }

  predicate AllComplete(t: Table)
  {
    forall a :: a in t ==> Complete(t[a])
  }

  /** One configuration register of one ASIC. */
  datatype Slot = GlobalSlot | ChannelSlot(n: nat)
  datatype Register = Register(asic: Asic, slot: Slot)

  /** What one command attempt does: it succeeds with the read-back matching, it raises a
      ConfigurationError, or it raises any other error. A failed write may leave anything behind. */
  datatype Attempt = Fine | Refused(g: GlobalWord, c: ChannelWord) | Broken(g: GlobalWord, c: ChannelWord)

  datatype Outcome = Done | CommandFailed(register: Register) | KeyMissing(asic: Asic)

  // ----- TAC refresh settings, at the same bits in both ASIC versions -----

  function Period(g: GlobalWord): nat
  {
    Value([g[183 - 28], g[183 - 27], g[183 - 26], g[183 - 25]])
  }

  function MaxAge(c: ChannelWord): nat
  {
    Value([c[124 - 20], c[124 - 19], c[124 - 18], c[124 - 17], c[124 - 16]])
  }

  /** These are the tac_refresh_period and tac_max_age fields of both versions. */
  lemma TacFields(g: GlobalWord, c: ChannelWord)
    ensures FieldOk(B.GlobalField(B.TacRefreshPeriod), |g|) && FieldOk(C.GlobalField(C.TacRefreshPeriod), |g|)
    ensures FieldOk(B.ChannelField(B.TacMaxAge), |c|) && FieldOk(C.ChannelField(C.TacMaxAge), |c|)
    ensures Period(g) == GetField(g, B.GlobalField(B.TacRefreshPeriod)) == GetField(g, C.GlobalField(C.TacRefreshPeriod))
    ensures MaxAge(c) == GetField(c, B.ChannelField(B.TacMaxAge)) == GetField(c, C.ChannelField(C.TacMaxAge))
  {
    SpanIsField(Falling(25, 29), 184);
    SpanIsField(Falling(16, 21), 125);
    hide Value;
    assert Get(g, Indices(Falling(25, 29))) == [g[155], g[156], g[157], g[158]];
    assert Get(c, Indices(Falling(16, 21))) == [c[104], c[105], c[106], c[107], c[108]];
  }

  /** All pairs of settings found in a table. */
  ghost function Summary(t: Table, asics: set<Asic>): set<(nat, nat)>
    requires asics <= t.Keys && AllComplete(t)
  {
    set a, n | a in asics && 0 <= n < CHANNELS :: (Period(t[a].global), MaxAge(t[a].channels[n]))
  }

  /** The pairs that getAsicsConfig records: one per ASIC, with the age of its last channel. */
  ghost function LastPairs(t: Table, asics: set<Asic>): set<(nat, nat)>
    requires asics <= t.Keys && AllComplete(t)
  {
    set a | a in asics :: (Period(t[a].global), MaxAge(t[a].channels[CHANNELS - 1]))
  }

  /** The summary built on reading is exact when and only when every channel's pair is the pair
      of the last channel of some ASIC. */
  lemma LastPairsExact(t: Table, asics: set<Asic>)
    requires asics <= t.Keys && AllComplete(t)
    ensures LastPairs(t, asics) == Summary(t, asics) <==>
            forall a, n :: a in asics && 0 <= n < CHANNELS ==>
              exists b :: b in asics && Period(t[b].global) == Period(t[a].global)
                          && MaxAge(t[b].channels[CHANNELS - 1]) == MaxAge(t[a].channels[n])
  {
    hide Period, MaxAge;
    assert LastPairs(t, asics) <= Summary(t, asics);
    if LastPairs(t, asics) == Summary(t, asics) {
      forall a, n | a in asics && 0 <= n < CHANNELS
        ensures exists b :: b in asics && Period(t[b].global) == Period(t[a].global)
                            && MaxAge(t[b].channels[CHANNELS - 1]) == MaxAge(t[a].channels[n])
      {
        var pair := (Period(t[a].global), MaxAge(t[a].channels[n]));
        assert pair in Summary(t, asics);
        assert pair in LastPairs(t, asics);
      }
    }
  }

  /** In particular when each ASIC's channels share one age. */
  lemma UniformAgesExact(t: Table, asics: set<Asic>)
    requires asics <= t.Keys && AllComplete(t)
    requires forall a, n :: a in asics && 0 <= n < CHANNELS ==>
               MaxAge(t[a].channels[n]) == MaxAge(t[a].channels[CHANNELS - 1])
    ensures LastPairs(t, asics) == Summary(t, asics)
  {
    hide Period, MaxAge;
    LastPairsExact(t, asics);
  }

  /** For a single ASIC: exact if and only if its channels share one age. */
  lemma AsicSummaryExactIff(t: Table, a: Asic)
    requires a in t && AllComplete(t)
    ensures LastPairs(t, {a}) == Summary(t, {a}) <==>
            forall m, n :: 0 <= m < CHANNELS && 0 <= n < CHANNELS ==> MaxAge(t[a].channels[m]) == MaxAge(t[a].channels[n])
  {
    hide Period, MaxAge;
    LastPairsExact(t, {a});
    if LastPairs(t, {a}) == Summary(t, {a}) {
      forall n | 0 <= n < CHANNELS
        ensures MaxAge(t[a].channels[n]) == MaxAge(t[a].channels[CHANNELS - 1])
      {
        assert a in {a};
      }
    }
  }

  /** One ASIC whose first channel has another age than its last: the summary misses it. */
  lemma MixedAgesMissed(t: Table, a: Asic)
    requires a in t && AllComplete(t) && MaxAge(t[a].channels[0]) != MaxAge(t[a].channels[CHANNELS - 1])
    ensures LastPairs(t, {a}) < Summary(t, {a})
  {
    hide Period, MaxAge;
    var pair := (Period(t[a].global), MaxAge(t[a].channels[0]));
    assert pair in Summary(t, {a}) && pair !in LastPairs(t, {a});
  }

  // ----- Writing one ASIC -----

  /** Two views of an ASIC agree, except possibly on one register. */
  predicate AgreeExcept(c: Config, h: Config, slot: Slot)
  {
    && Complete(c) && Complete(h)
    && (slot.GlobalSlot? || c.global == h.global)
    && forall n :: 0 <= n < CHANNELS && slot != ChannelSlot(n) ==> c.channels[n] == h.channels[n]
  }

  // ----- Commands -----

  /** How a command ends: its last attempt and the clock after it. Refused attempts are repeated, up
      to five in all. */
  datatype Ending = Ending(last: Attempt, clock: nat)

  function Attempts(att: nat -> Attempt, clock: nat, tried: nat): Ending
    requires tried < 5
    decreases 5 - tried
  {
    if att(clock).Refused? && tried < 4 then Attempts(att, clock + 1, tried + 1) else Ending(att(clock), clock + 1)
  }

  function Command(att: nat -> Attempt, clock: nat): Ending
  {
    Attempts(att, clock, 0)
  }

  /** The attempts of a command: refusals are repeated, up to five attempts in all, and anything else
      ends it. */
  lemma {:induction false} AttemptsEnd(att: nat -> Attempt, clock: nat, tried: nat)
    requires tried < 5
    ensures var e := Attempts(att, clock, tried);
            && clock < e.clock <= clock + 5 - tried && e.last == att(e.clock - 1)
            && (forall j :: clock <= j < e.clock - 1 ==> att(j).Refused?)
            && (e.last.Refused? ==> e.clock == clock + 5 - tried)
    decreases 5 - tried
  {
    if att(clock).Refused? && tried < 4 { AttemptsEnd(att, clock + 1, tried + 1); }
  }

  /** A command succeeds if and only if one of its first five attempts does and all before it were
      refused; it breaks off at the first of these that breaks off; and it is given up if and only if
      five attempts are refused. */
  lemma CommandOutcome(att: nat -> Attempt, clock: nat)
    ensures var e := Command(att, clock);
            e.last.Fine? <==> exists k :: clock <= k < clock + 5 && att(k).Fine? && forall j :: clock <= j < k ==> att(j).Refused?
    ensures var e := Command(att, clock);
            e.last.Broken? <==> exists k :: clock <= k < clock + 5 && att(k).Broken? && forall j :: clock <= j < k ==> att(j).Refused?
    ensures var e := Command(att, clock);
            e.last.Refused? <==> forall j :: clock <= j < clock + 5 ==> att(j).Refused?
    ensures var e := Command(att, clock);
            && clock < e.clock <= clock + 5 && e.last == att(e.clock - 1) && (e.last.Refused? ==> e.clock == clock + 5)
            && forall j :: clock <= j < e.clock - 1 ==> att(j).Refused?
  {
    AttemptsEnd(att, clock, 0);
    hide Attempts;
    var e := Command(att, clock);
    assert e.last == att(e.clock - 1);
    if k :| clock <= k < clock + 5 && !att(k).Refused? && forall j :: clock <= j < k ==> att(j).Refused? {
      assert k == e.clock - 1;
    }
  }

  /** A series of commands that stops at the first failure: how many succeeded, the last attempt of
      the one that failed, and the clock. */
  datatype Issued = Issued(done: nat, last: Attempt, clock: nat)

  function Issue(att: nat -> Attempt, clock: nat, n: nat): (r: Issued)
    ensures r.done <= n && (r.done < n <==> !r.last.Fine?)
    decreases n
  {
    if n == 0 then Issued(0, Fine, clock)
    else
      var e := Command(att, clock);
      if !e.last.Fine? then Issued(0, e.last, e.clock)
      else var rest := Issue(att, e.clock, n - 1); rest.(done := rest.done + 1)
  }

  /** A series is its first part, then, if that succeeded, its second. */
  lemma {:induction false} IssueSplit(att: nat -> Attempt, clock: nat, m: nat, n: nat)
    ensures var first := Issue(att, clock, m);
            Issue(att, clock, m + n) ==
            if first.done < m then first else var rest := Issue(att, first.clock, n); rest.(done := m + rest.done)
    decreases m
  {
    hide Command;
    if m > 0 {
      var e := Command(att, clock);
      if e.last.Fine? { IssueSplit(att, e.clock, m - 1, n); }
    }
  }

  lemma IssueOne(att: nat -> Attempt, clock: nat)
    ensures var e := Command(att, clock); Issue(att, clock, 1) == Issued(if e.last.Fine? then 1 else 0, e.last, e.clock)
  {
    assert Issue(att, Command(att, clock).clock, 0) == Issued(0, Fine, Command(att, clock).clock);
  }

  lemma {:induction false} IssueFine(att: nat -> Attempt, clock: nat, n: nat)
    requires forall k :: clock <= k < clock + n ==> att(k).Fine?
    ensures Issue(att, clock, n) == Issued(n, Fine, clock + n)
    decreases n
  {
    if n > 0 { IssueFine(att, clock + 1, n - 1); }
  }

  /** One more part of a series that has succeeded so far. */
  lemma IssueNext(att: nat -> Attempt, start: nat, clock: nat, m: nat, n: nat, rest: nat)
    requires Issue(att, start, m) == Issued(m, Fine, clock)
    ensures var e := Issue(att, clock, n);
            if e.done == n then Issue(att, start, m + n) == Issued(m + n, Fine, e.clock)
            else Issue(att, start, m + n + rest) == Issued(m + e.done, e.last, e.clock)
  {
    hide Issue;
    IssueSplit(att, start, m, n);
    IssueSplit(att, start, m + n, rest);
  }

  lemma IssueNone(att: nat -> Attempt, clock: nat)
    ensures Issue(att, clock, 0) == Issued(0, Fine, clock)
  {
  }

  /** What a failed command leaves in its register. */
  function Left(h: Config, slot: Slot, t: Attempt): (c: Config)
    requires Complete(h) && !t.Fine?
    ensures Complete(c) && AgreeExcept(h, c, slot)
  {
    match slot
    case GlobalSlot => h.(global := t.g)
    case ChannelSlot(n) => if n < CHANNELS then WithChannel(h, n, t.c) else h
  }

  /** Clock and log before and after a list of commands was issued in order: all of them, or up to and
      including the one that failed. */
  datatype Log = Log(clock: nat, written: seq<Register>)

  ghost predicate Progress(att: nat -> Attempt, before: Log, after: Log, commands: seq<Register>, failed: Option<Register>)
  {
    var issued := Issue(att, before.clock, |commands|);
    && after.clock == issued.clock && (failed.None? <==> issued.done == |commands|)
    && match failed
       case None => after.written == before.written + commands
       case Some(r) =>
         issued.done < |commands| && commands[issued.done] == r && after.written == before.written + commands[..issued.done + 1]
  }

  /** What the failed command of a list left behind. */
  function LastAttempt(att: nat -> Attempt, clock: nat, commands: seq<Register>): Attempt
  {
    Issue(att, clock, |commands|).last
  }

  lemma ProgressNone(att: nat -> Attempt, log: Log)
    ensures Progress(att, log, log, [], None)
  {
  }

  lemma ProgressJoin(att: nat -> Attempt, x: Log, y: Log, z: Log, a: seq<Register>, b: seq<Register>, failed: Option<Register>)
    requires Progress(att, x, y, a, None) && Progress(att, y, z, b, failed)
    ensures Progress(att, x, z, a + b, failed)
    ensures failed.Some? ==> LastAttempt(att, x.clock, a + b) == LastAttempt(att, y.clock, b)
  {
    hide Issue;
    IssueSplit(att, x.clock, |a|, |b|);
    if failed.Some? {
      var done := Issue(att, y.clock, |b|).done;
      assert (a + b)[..|a| + done + 1] == a + b[..done + 1];
      assert x.written + (a + b[..done + 1]) == (x.written + a) + b[..done + 1];
    } else {
      assert x.written + (a + b) == (x.written + a) + b;
    }
  }

  lemma ProgressStops(att: nat -> Attempt, x: Log, y: Log, a: seq<Register>, b: seq<Register>, r: Register)
    requires Progress(att, x, y, a, Some(r))
    ensures Progress(att, x, y, a + b, Some(r)) && LastAttempt(att, x.clock, a + b) == LastAttempt(att, x.clock, a)
  {
    hide Issue;
    IssueSplit(att, x.clock, |a|, |b|);
    var done := Issue(att, x.clock, |a|).done;
    assert (a + b)[..done + 1] == a[..done + 1];
  }

  lemma ProgressOne(att: nat -> Attempt, x: Log, r: Register)
    ensures var e := Command(att, x.clock);
            var y := Log(e.clock, x.written + [r]);
            && Progress(att, x, y, [r], if e.last.Fine? then None else Some(r)) && LastAttempt(att, x.clock, [r]) == e.last
  {
    hide Command;
    IssueOne(att, x.clock);
    assert [r][..1] == [r];
  }

  /** The registers of an ASIC in the order they are read: the global one, then the channels. */
  function SlotNumber(k: nat): Slot
  {
    if k == 0 then GlobalSlot else ChannelSlot(k - 1)
  }

  const REGISTERS: nat := 65

  /** The number of registers of n ASICs. */
  function AllRegisters(n: nat): nat
  {
    65 * n
  }

  lemma AllRegistersNext(i: nat, n: nat)
    requires i < n
    ensures AllRegisters(0) == 0 && AllRegisters(i + 1) == AllRegisters(i) + REGISTERS && AllRegisters(i + 1) <= AllRegisters(n)
  {
  }

  /** One register has different contents in two views. */
  predicate Differs(c: Config, h: Config, slot: Slot)
    requires Complete(c) && Complete(h)
  {
    match slot
    case GlobalSlot => c.global != h.global
    case ChannelSlot(n) => n < CHANNELS && c.channels[n] != h.channels[n]
  }

  /** A cached register that is not what the hardware holds. */
  predicate StaleAt(cache: Table, hardware: Table, r: Register)
    requires AllComplete(cache) && AllComplete(hardware)
  {
    r.asic in cache && r.asic in hardware && Differs(cache[r.asic], hardware[r.asic], r.slot)
  }

  /** Stale, and the cached value is already the requested one. */
  predicate SkippedStale(was: Table, hw: Table, now: Table, r: Register)
    requires AllComplete(was) && AllComplete(hw) && AllComplete(now)
  {
    StaleAt(was, hw, r) && r.asic in now && !Differs(was[r.asic], now[r.asic], r.slot)
  }

  lemma StaleIsCached(was: Table, hw: Table, r: Register)
    requires AllComplete(was) && AllComplete(hw)
    ensures StaleAt(was, hw, r) ==> r.asic in was
  {
  }

  /** The hardware once the channels below k have been commanded: only where the cache differs from
      the request, or everywhere if forced. */
  function HardwarePartly(was: Config, h: Config, now: Config, force: bool, k: nat): (c: Config)
    requires Complete(was) && Complete(h) && Complete(now) && k <= CHANNELS
    ensures Complete(c)
  {
    Config(h.global, seq(CHANNELS, n requires 0 <= n < CHANNELS =>
      if n < k && (force || now.channels[n] != was.channels[n]) then now.channels[n] else h.channels[n]))
  }

  function GlobalCommanded(was: Config, h: Config, now: Config, force: bool): (c: Config)
    requires Complete(h)
    ensures Complete(c)
  {
    if force || now.global != was.global then h.(global := now.global) else h
  }

  /** The hardware once every command of one ASIC has succeeded. */
  function Commanded(was: Config, h: Config, now: Config, force: bool): (c: Config)
    requires Complete(was) && Complete(h) && Complete(now)
    ensures Complete(c)
  {
    HardwarePartly(was, GlobalCommanded(was, h, now, force), now, force, CHANNELS)
  }

  lemma HardwarePartlyStart(was: Config, h: Config, now: Config, force: bool)
    requires Complete(was) && Complete(h) && Complete(now)
    ensures HardwarePartly(was, h, now, force, 0) == h
  {
  }

  lemma HardwarePartlyNext(was: Config, h: Config, now: Config, force: bool, k: nat)
    requires Complete(was) && Complete(h) && Complete(now) && k < CHANNELS
    ensures var c := HardwarePartly(was, h, now, force, k);
            HardwarePartly(was, h, now, force, k + 1) ==
            if force || now.channels[k] != was.channels[k] then WithChannel(c, k, now.channels[k]) else c
  {
  }

  /** After all commands a register differs from the request exactly when it differed from the cache
      before and was skipped because the cache already held the request. */
  lemma CommandedDiffers(was: Config, h: Config, now: Config, force: bool, slot: Slot)
    requires Complete(was) && Complete(h) && Complete(now)
    ensures Differs(now, Commanded(was, h, now, force), slot) <==>
            Differs(was, h, slot) && !force && !Differs(was, now, slot)
  {
  }

  /** Cache and hardware of one ASIC went from (c, h) to (d, g), and no register became stale but one. */
  ghost predicate NewlyStaleOnly(c: Config, h: Config, d: Config, g: Config, slot: Slot)
    requires Complete(c) && Complete(h) && Complete(d) && Complete(g)
  {
    forall s :: Differs(d, g, s) ==> Differs(c, h, s) || s == slot
  }

  /** The cache of an ASIC when the command for a slot fails, and the hardware before that command. */
  function CachedUntil(was: Config, now: Config, slot: Slot): (c: Config)
    requires Complete(was) && Complete(now)
    ensures Complete(c)
  {
    match slot
    case GlobalSlot => was
    case ChannelSlot(n) => if n < CHANNELS then Partly(was, now, n) else was
  }

  function HardwareUntil(was: Config, h: Config, now: Config, force: bool, slot: Slot): (c: Config)
    requires Complete(was) && Complete(h) && Complete(now)
    ensures Complete(c)
  {
    match slot
    case GlobalSlot => h
    case ChannelSlot(n) => if n < CHANNELS then HardwarePartly(was, GlobalCommanded(was, h, now, force), now, force, n) else h
  }

  /** A failed command makes no register stale but its own. */
  lemma FailureStale(was: Config, h: Config, now: Config, force: bool, slot: Slot, t: Attempt)
    requires Complete(was) && Complete(h) && Complete(now) && !t.Fine?
    ensures NewlyStaleOnly(was, h, CachedUntil(was, now, slot), Left(HardwareUntil(was, h, now, force, slot), slot, t), slot)
  {
    match slot {
      case GlobalSlot => GlobalFailure(was, h, Left(h, slot, t));
      case ChannelSlot(n) =>
        if n < CHANNELS {
          ChannelFailure(was, h, now, force, n, Left(HardwareUntil(was, h, now, force, slot), slot, t));
        }
    }
  }

  lemma GlobalFailure(c: Config, h: Config, g: Config)
    requires Complete(c) && Complete(h) && AgreeExcept(h, g, GlobalSlot)
    ensures NewlyStaleOnly(c, h, c, g, GlobalSlot)
  {
  }

  lemma ChannelFailure(was: Config, h: Config, now: Config, force: bool, k: nat, g: Config)
    requires Complete(was) && Complete(h) && Complete(now) && k < CHANNELS
    requires AgreeExcept(HardwarePartly(was, GlobalCommanded(was, h, now, force), now, force, k), g, ChannelSlot(k))
    ensures NewlyStaleOnly(was, h, Partly(was, now, k), g, ChannelSlot(k))
  {
  }

  /** The registers of one ASIC that need a command, from channel k on. */
  function ChannelWrites(a: Asic, was: Config, now: Config, force: bool, k: nat): (rs: seq<Register>)
    requires Complete(was) && Complete(now) && k <= CHANNELS
    decreases CHANNELS - k
  {
    if k == CHANNELS then []
    else ChannelWrite(a, k, was.channels[k], now.channels[k], force) + ChannelWrites(a, was, now, force, k + 1)
  }

  function GlobalWrite(a: Asic, was: Config, now: Config, force: bool): seq<Register>
  {
    if force || now.global != was.global then [Register(a, GlobalSlot)] else []
  }

  function AsicWrites(a: Asic, was: Config, now: Config, force: bool): seq<Register>
    requires Complete(was) && Complete(now)
  {
    GlobalWrite(a, was, now, force) + ChannelWrites(a, was, now, force, 0)
  }

  /** The registers that need a command, over the first i ASICs. */
  ghost function WritesUpTo(asics: seq<Asic>, was: Table, now: Table, force: bool, i: nat): seq<Register>
    requires AllComplete(was) && AllComplete(now) && i <= |asics|
    requires First(asics, i) <= was.Keys && First(asics, i) <= now.Keys
  {
    if i == 0 then []
    else
      assert asics[i - 1] in First(asics, i);
      assert First(asics, i - 1) <= First(asics, i);
      WritesUpTo(asics, was, now, force, i - 1) + AsicWrites(asics[i - 1], was[asics[i - 1]], now[asics[i - 1]], force)
  }

  predicate SameAges(c: Config, d: Config, k: nat)
    requires Complete(c) && Complete(d) && k <= CHANNELS
  {
    forall n :: 0 <= n < k ==> MaxAge(c.channels[n]) == MaxAge(d.channels[n])
  }

  predicate SameTac(c: Config, d: Config)
  {
    Complete(c) && Complete(d) && Period(c.global) == Period(d.global) && SameAges(c, d, CHANNELS)
  }

  lemma WritesFrom(before: seq<Register>, a: Asic, was: Config, now: Config, force: bool, k: nat)
    requires Complete(was) && Complete(now) && k < CHANNELS
    ensures before + ChannelWrites(a, was, now, force, k) ==
            (before + ChannelWrite(a, k, was.channels[k], now.channels[k], force)) + ChannelWrites(a, was, now, force, k + 1)
  {
    hide ChannelWrite;
  }

  lemma NoWritesLeft(before: seq<Register>, a: Asic, was: Config, now: Config, force: bool)
    requires Complete(was) && Complete(now)
    ensures before + ChannelWrites(a, was, now, force, CHANNELS) == before
  {
  }

  function WithChannel(c: Config, n: nat, w: ChannelWord): (d: Config)
    requires Complete(c) && n < CHANNELS
    ensures Complete(d)
  {
    Config(c.global, c.channels[n := w])
  }

  /** Channels below k already rewritten. */
  function Partly(was: Config, now: Config, k: nat): (c: Config)
    requires Complete(was) && Complete(now) && k <= CHANNELS
    ensures Complete(c)
  {
    Config(now.global, now.channels[..k] + was.channels[k..])
  }

  lemma PartlyEnds(was: Config, now: Config)
    requires Complete(was) && Complete(now)
    ensures Partly(was, now, 0) == was.(global := now.global) && Partly(was, now, CHANNELS) == now
  {
  }

  lemma PartlyNext(was: Config, now: Config, k: nat)
    requires Complete(was) && Complete(now) && k < CHANNELS
    ensures Partly(was, now, k).channels[k] == was.channels[k]
    ensures WithChannel(Partly(was, now, k), k, now.channels[k]) == Partly(was, now, k + 1)
  {
  }

  function ChannelWrite(a: Asic, k: nat, was: ChannelWord, now: ChannelWord, force: bool): seq<Register>
  {
    if force || now != was then [Register(a, ChannelSlot(k))] else []
  }

  /** The first i ASICs of a list. */
  ghost function First(asics: seq<Asic>, i: nat): set<Asic>
    requires i <= |asics|
  {
    set j | 0 <= j < i :: asics[j]
  }

  lemma FirstNext(asics: seq<Asic>, i: nat)
    requires i < |asics|
    ensures First(asics, i + 1) == First(asics, i) + {asics[i]}
  {
  }

  lemma FirstHas(asics: seq<Asic>, j: nat)
    requires j < |asics|
    ensures asics[j] in First(asics, |asics|)
  {
  }

  lemma NotYet(asics: seq<Asic>, i: nat)
    requires i < |asics| && NoRepeats(asics)
    ensures asics[i] !in First(asics, i)
  {
  }

  /** The pairs of the channels of one ASIC below n. */
  ghost function Pairs(c: Config, n: nat): set<(nat, nat)>
    requires Complete(c) && n <= CHANNELS
  {
    set m | 0 <= m < n :: (Period(c.global), MaxAge(c.channels[m]))
  }

  lemma PairsNext(c: Config, n: nat)
    requires Complete(c) && n < CHANNELS
    ensures Pairs(c, n + 1) == Pairs(c, n) + {(Period(c.global), MaxAge(c.channels[n]))}
  {
    hide Period, MaxAge;
  }

  lemma SummaryNext(t: Table, asics: set<Asic>, a: Asic)
    requires AllComplete(t) && asics <= t.Keys && a in t
    ensures Summary(t, asics + {a}) == Summary(t, asics) + Pairs(t[a], CHANNELS)
  {
    hide Period, MaxAge;
    forall p | p in Summary(t, asics) + Pairs(t[a], CHANNELS)
      ensures p in Summary(t, asics + {a})
    {
    }
  }

  lemma LastPairsNext(t: Table, a: Asic, c: Config)
    requires AllComplete(t) && a !in t && Complete(c)
    ensures var u := t[a := c];
            LastPairs(u, u.Keys) == LastPairs(t, t.Keys) + {(Period(c.global), MaxAge(c.channels[CHANNELS - 1]))}
  {
    hide Period, MaxAge;
    var u, last := t[a := c], (Period(c.global), MaxAge(c.channels[CHANNELS - 1]));
    forall p | p in LastPairs(t, t.Keys) + {last}
      ensures p in LastPairs(u, u.Keys)
    {
      if p == last {
        assert a in u.Keys;
      } else {
        var b :| b in t.Keys && p == (Period(t[b].global), MaxAge(t[b].channels[CHANNELS - 1]));
        assert b in u.Keys && u[b] == t[b];
      }
    }
    forall p | p in LastPairs(u, u.Keys)
      ensures p in LastPairs(t, t.Keys) + {last}
    {
      var b :| b in u.Keys && p == (Period(u[b].global), MaxAge(u[b].channels[CHANNELS - 1]));
      if b != a { assert b in t.Keys && u[b] == t[b]; }
    }
  }

  /** A table in which the first i ASICs of a list have their new configuration. */
  ghost function Overlay(t: Table, now: Table, asics: seq<Asic>, i: nat): Table
    requires i <= |asics| && First(asics, i) <= now.Keys
  {
    map a | a in t :: if a in First(asics, i) then now[a] else t[a]
  }

  lemma OverlayNext(t: Table, now: Table, asics: seq<Asic>, i: nat)
    requires i < |asics| && First(asics, i) <= now.Keys && asics[i] in now && asics[i] in t
    requires NoRepeats(asics)
    ensures First(asics, i + 1) <= now.Keys
    ensures Overlay(t, now, asics, i)[asics[i]] == t[asics[i]]
    ensures Overlay(t, now, asics, i)[asics[i] := now[asics[i]]] == Overlay(t, now, asics, i + 1)
  {
    FirstNext(asics, i);
    assert asics[i] !in First(asics, i);
  }

  lemma InOverlay(t: Table, now: Table, asics: seq<Asic>, i: nat, a: Asic)
    requires i <= |asics| && First(asics, i) <= now.Keys
    ensures a in Overlay(t, now, asics, i) <==> a in t
  {
  }

  lemma OverlayIsConfig(t: Table, now: Table, asics: seq<Asic>)
    requires First(asics, |asics|) <= now.Keys && First(asics, |asics|) <= t.Keys <= First(asics, |asics|)
    ensures Overlay(t, now, asics, |asics|).Keys == First(asics, |asics|)
    ensures forall a :: a in First(asics, |asics|) ==> a in now && Overlay(t, now, asics, |asics|)[a] == now[a]
  {
  }

  lemma TacSummary(t: Table, now: Table, asics: set<Asic>)
    requires TacUnchanged(t, now, asics)
    ensures forall a :: a in asics ==> a in t && a in now && SameTac(t[a], now[a])
  {
  }

  /** The hardware once the commands of the first i ASICs of a list have succeeded. */
  ghost function HardwareOverlay(hw: Table, was: Table, now: Table, asics: seq<Asic>, i: nat, force: bool): (t: Table)
    requires i <= |asics| && First(asics, i) <= now.Keys && First(asics, i) <= was.Keys
    requires AllComplete(hw) && AllComplete(was) && AllComplete(now)
    ensures AllComplete(t) && t.Keys == hw.Keys
  {
    map a | a in hw :: if a in First(asics, i) then Commanded(was[a], hw[a], now[a], force) else hw[a]
  }

  lemma HardwareOverlayNext(hw: Table, was: Table, now: Table, asics: seq<Asic>, i: nat, force: bool)
    requires i < |asics| && First(asics, i) <= now.Keys && First(asics, i) <= was.Keys && NoRepeats(asics)
    requires AllComplete(hw) && AllComplete(was) && AllComplete(now)
    requires asics[i] in now && asics[i] in was && asics[i] in hw
    ensures First(asics, i + 1) <= now.Keys && First(asics, i + 1) <= was.Keys
    ensures var a, t := asics[i], HardwareOverlay(hw, was, now, asics, i, force);
            && t[a] == hw[a]
            && t[a := Commanded(was[a], hw[a], now[a], force)] == HardwareOverlay(hw, was, now, asics, i + 1, force)
  {
    hide Commanded;
    FirstNext(asics, i);
    NotYet(asics, i);
  }

  lemma HardwareOverlayStart(hw: Table, was: Table, now: Table, asics: seq<Asic>, force: bool)
    requires AllComplete(hw) && AllComplete(was) && AllComplete(now)
    ensures First(asics, 0) == {} && HardwareOverlay(hw, was, now, asics, 0, force) == hw
  {
  }

  lemma {:induction false} OverlayComplete(t: Table, now: Table, asics: seq<Asic>, i: nat)
    requires i <= |asics| && First(asics, i) <= now.Keys && AllComplete(t) && AllComplete(now)
    ensures AllComplete(Overlay(t, now, asics, i))
  {
  }

  /** What is stale after the first i ASICs: on these, the registers stale before and skipped because
      the cache already held the request; on the others, what was stale before. */
  lemma StaleAfter(hw: Table, was: Table, now: Table, asics: seq<Asic>, i: nat, force: bool, r: Register)
    requires i <= |asics| && First(asics, i) <= now.Keys && First(asics, i) <= was.Keys
    requires AllComplete(hw) && AllComplete(was) && AllComplete(now)
    ensures AllComplete(Overlay(was, now, asics, i))
    ensures StaleAt(Overlay(was, now, asics, i), HardwareOverlay(hw, was, now, asics, i, force), r) <==>
            && StaleAt(was, hw, r)
            && (r.asic in First(asics, i) ==> !force && !Differs(was[r.asic], now[r.asic], r.slot))
  {
    hide First, Commanded;
    OverlayComplete(was, now, asics, i);
    var a := r.asic;
    if a in was && a in hw && a in First(asics, i) { CommandedDiffers(was[a], hw[a], now[a], force, r.slot); }
  }

  /** A table in which one ASIC has been replaced. */
  lemma StaleAfterFailure(hw: Table, was: Table, cache: Table, hardware: Table, a: Asic, slot: Slot, c: Config, g: Config)
    requires AllComplete(hw) && AllComplete(was) && AllComplete(cache) && AllComplete(hardware) && Complete(c) && Complete(g)
    requires a in was && a in hw && NewlyStaleOnly(was[a], hw[a], c, g, slot)
    requires forall r :: StaleAt(cache, hardware, r) ==> StaleAt(was, hw, r)
    ensures AllComplete(cache[a := c]) && AllComplete(hardware[a := g])
    ensures forall r :: StaleAt(cache[a := c], hardware[a := g], r) ==> StaleAt(was, hw, r) || r == Register(a, slot)
  {
    hide Differs;
    forall r | StaleAt(cache[a := c], hardware[a := g], r)
      ensures StaleAt(was, hw, r) || r == Register(a, slot)
    {
      if r.asic != a { assert StaleAt(cache, hardware, r); }
    }
  }

  ghost predicate TacUnchanged(t: Table, now: Table, asics: set<Asic>)
  {
    forall a :: a in asics ==> a in t && a in now && SameTac(t[a], now[a])
  }

  lemma NothingYet(asics: seq<Asic>, was: Table, now: Table, force: bool)
    requires AllComplete(was) && AllComplete(now)
    ensures First(asics, 0) == {} && WritesUpTo(asics, was, now, force, 0) == [] && TacUnchanged(was, now, First(asics, 0))
    ensures Overlay(was, now, asics, 0) == was
  {
  }

  lemma WritesNext(asics: seq<Asic>, was: Table, now: Table, force: bool, i: nat)
    requires AllComplete(was) && AllComplete(now) && i < |asics| && asics[i] in was && asics[i] in now
    requires First(asics, i) <= was.Keys && First(asics, i) <= now.Keys
    ensures First(asics, i + 1) <= was.Keys && First(asics, i + 1) <= now.Keys
    ensures WritesUpTo(asics, was, now, force, i + 1) ==
            WritesUpTo(asics, was, now, force, i) + AsicWrites(asics[i], was[asics[i]], now[asics[i]], force)
  {
    hide AsicWrites;
    FirstNext(asics, i);
  }

  /** The commands for the first ASICs come first. */
  lemma {:induction false} WritesExtend(asics: seq<Asic>, was: Table, now: Table, force: bool, i: nat, n: nat)
    requires AllComplete(was) && AllComplete(now) && i <= n <= |asics|
    requires First(asics, i) <= was.Keys && First(asics, i) <= now.Keys
    requires First(asics, n) <= was.Keys && First(asics, n) <= now.Keys
    ensures var a, b := WritesUpTo(asics, was, now, force, i), WritesUpTo(asics, was, now, force, n);
            |a| <= |b| && b == a + b[|a|..]
    decreases n
  {
    hide AsicWrites;
    if i < n {
      assert First(asics, n - 1) <= First(asics, n);
      WritesExtend(asics, was, now, force, i, n - 1);
      FirstHas(asics[..n], n - 1);
      assert asics[n - 1] in First(asics, n);
      var a, b := WritesUpTo(asics, was, now, force, i), WritesUpTo(asics, was, now, force, n - 1);
      var c := AsicWrites(asics[n - 1], was[asics[n - 1]], now[asics[n - 1]], force);
      assert (a + b[|a|..]) + c == a + (b[|a|..] + c);
    }
  }

  lemma TacNext(t: Table, now: Table, asics: seq<Asic>, i: nat)
    requires i < |asics| && asics[i] in t && asics[i] in now
    ensures TacUnchanged(t, now, First(asics, i + 1)) <==>
            TacUnchanged(t, now, First(asics, i)) && SameTac(t[asics[i]], now[asics[i]])
  {
    hide SameTac;
    FirstNext(asics, i);
  }

  lemma SummaryUnchanged(t: Table, u: Table, asics: set<Asic>)
    requires AllComplete(t) && AllComplete(u) && asics <= t.Keys && asics <= u.Keys
    requires forall a :: a in asics ==> SameTac(t[a], u[a])
    ensures Summary(t, asics) == Summary(u, asics)
  {
    hide Period, MaxAge;
    forall a, n | a in asics && 0 <= n < CHANNELS
      ensures (Period(t[a].global), MaxAge(t[a].channels[n])) == (Period(u[a].global), MaxAge(u[a].channels[n]))
    {
      assert SameTac(t[a], u[a]);
    }
  }

  class Connection {
    const activeAsics: seq<Asic>
    const attempts: nat -> Attempt
    var clock: nat
    var hardware: Table
    var cached: bool
    var cache: Table
    var tacRefresh: set<(nat, nat)>
    ghost var written: seq<Register>

    ghost function Active(): set<Asic>
    {
      First(activeAsics, |activeAsics|)
    }

    ghost predicate Valid()
      reads this
    {
      && AllComplete(hardware) && Active() <= hardware.Keys && AllComplete(cache) && cache.Keys <= Active()
      && NoRepeats(activeAsics) && (!cached ==> cache == map[])
    }

    /** A cached register that is not what the hardware holds. */
    ghost predicate Stale(r: Register)
      requires Valid()
      reads this
    {
      StaleAt(cache, hardware, r)
    }

    /** The cache is what the hardware holds, for every active ASIC. */
    ghost predicate Coherent()
      reads this
    {
      Valid() && cached && cache.Keys == Active() && forall a :: a in cache ==> cache[a] == hardware[a]
    }

    /** What a request is compared with: the cache, or the hardware read first if there is none. */
    ghost function Compared(): (t: Table)
      requires Valid()
      reads this
      ensures AllComplete(t)
    {
      if cached then cache else map a | a in hardware && a in Active() :: hardware[a]
    }

    /** A new connection: nothing is cached yet. */
    constructor (activeAsics: seq<Asic>, hardware: Table, attempts: nat -> Attempt)
      requires AllComplete(hardware) && First(activeAsics, |activeAsics|) <= hardware.Keys && NoRepeats(activeAsics)
      ensures Valid() && !cached && tacRefresh == {} && Now() == Log(0, [])
      ensures this.hardware == hardware && this.activeAsics == activeAsics && this.attempts == attempts
    {
      this.activeAsics, this.attempts, this.hardware := activeAsics, attempts, hardware;
      clock, cached, cache, tacRefresh, written := 0, false, map[], {}, [];
    }

    /** __doAsicCommand for "wrGlobalCfg": up to five attempts at writing and reading back. */
    method WriteGlobal(a: Asic, value: GlobalWord) returns (ok: bool)
      requires Valid() && a in hardware
      modifies this`clock, this`hardware, this`written
      ensures Valid() && written == old(written) + [Register(a, GlobalSlot)] && a in hardware
      ensures var e := Command(attempts, old(clock));
              && clock == e.clock && ok == e.last.Fine?
              && hardware == old(hardware)[a := if ok then old(hardware[a]).(global := value) else Left(old(hardware[a]), GlobalSlot, e.last)]
      ensures ok <==> exists k :: old(clock) <= k < old(clock) + 5 && attempts(k).Fine? && forall j :: old(clock) <= j < k ==> attempts(j).Refused?
      ensures !ok ==> old(clock) < clock <= old(clock) + 5 && !attempts(clock - 1).Fine? && hardware[a].global == attempts(clock - 1).g
    {
      CommandOutcome(attempts, clock);
      ghost var e := Command(attempts, clock);
      assert e == Attempts(attempts, clock, 0);
      hide First, NoRepeats, AgreeExcept, Command;
      var nTry := 0;
      var done := false;
      ok := false;
      while !done
        invariant Valid() && 0 <= nTry <= 5 && (!done ==> nTry < 5) && (ok ==> done)
        invariant a in hardware && hardware == old(hardware)[a := hardware[a]] && written == old(written)
        invariant hardware[a].channels == old(hardware[a]).channels
        invariant !done ==> Attempts(attempts, clock, nTry) == e
        invariant done ==>
                    e.clock == clock && ok == e.last.Fine? && hardware[a].global == if ok then value else e.last.g
        decreases !done, 5 - nTry
      {
        var t := attempts(clock);
        clock := clock + 1;
        var left: GlobalWord := if t.Fine? then value else t.g;
        hardware := hardware[a := hardware[a].(global := left)];
        nTry := nTry + 1;
        ok := t.Fine?;
        done := ok || t.Broken? || nTry >= 5;
      }
      written := written + [Register(a, GlobalSlot)];
    }

    /** __doAsicCommand for "wrChCfg". */
    method WriteChannel(a: Asic, n: nat, value: ChannelWord) returns (ok: bool)
      requires Valid() && a in hardware && n < CHANNELS
      modifies this`clock, this`hardware, this`written
      ensures Valid() && written == old(written) + [Register(a, ChannelSlot(n))] && a in hardware
      ensures var e := Command(attempts, old(clock));
              && clock == e.clock && ok == e.last.Fine?
              && hardware == old(hardware)[a := if ok then WithChannel(old(hardware[a]), n, value) else Left(old(hardware[a]), ChannelSlot(n), e.last)]
      ensures ok <==> exists k :: old(clock) <= k < old(clock) + 5 && attempts(k).Fine? && forall j :: old(clock) <= j < k ==> attempts(j).Refused?
      ensures !ok ==> old(clock) < clock <= old(clock) + 5 && !attempts(clock - 1).Fine? && hardware[a].channels[n] == attempts(clock - 1).c
    {
      CommandOutcome(attempts, clock);
      ghost var e := Command(attempts, clock);
      assert e == Attempts(attempts, clock, 0);
      hide First, NoRepeats, AgreeExcept, Command;
      ghost var left: ChannelWord := hardware[a].channels[n];
      var nTry := 0;
      var done := false;
      ok := false;
      assert hardware[a] == WithChannel(hardware[a], n, left);
      while !done
        invariant Valid() && 0 <= nTry <= 5 && (!done ==> nTry < 5) && (ok ==> done)
        invariant a in hardware && hardware == old(hardware)[a := hardware[a]] && written == old(written)
        invariant hardware[a] == WithChannel(old(hardware[a]), n, left)
        invariant !done ==> Attempts(attempts, clock, nTry) == e
        invariant done ==>
                    e.clock == clock && ok == e.last.Fine? && left == if ok then value else e.last.c
        decreases !done, 5 - nTry
      {
        var t := attempts(clock);
        clock := clock + 1;
        left := if t.Fine? then value else t.c;
        var now: ChannelWord := if t.Fine? then value else t.c;
        hardware := hardware[a := WithChannel(hardware[a], n, now)];
        nTry := nTry + 1;
        ok := t.Fine?;
        done := ok || t.Broken? || nTry >= 5;
      }
      written := written + [Register(a, ChannelSlot(n))];
    }

    /** setAsicsConfig, the global register of one ASIC. */
    method SetGlobal(a: Asic, now: Config, force: bool) returns (ok: bool, tacUpdated: bool)
      requires Valid() && a in hardware && a in cache
      modifies this`clock, this`hardware, this`cache, this`written
      ensures Valid() && a in hardware && a in cache
      ensures var commands := GlobalWrite(a, old(cache[a]), now, force);
              && Progress(attempts, old(Now()), Now(), commands, if ok then None else Some(Register(a, GlobalSlot)))
              && (ok ==>
                    && cache == old(cache)[a := old(cache[a]).(global := now.global)]
                    && hardware == old(hardware)[a := GlobalCommanded(old(cache[a]), old(hardware[a]), now, force)])
              && (!ok ==>
                    var last := LastAttempt(attempts, old(clock), commands);
                    cache == old(cache) && !last.Fine? && hardware == old(hardware)[a := Left(old(hardware[a]), GlobalSlot, last)])
      ensures ok ==> (tacUpdated <==> force || Period(old(cache[a]).global) != Period(now.global))
    {
      hide Period, Command, First, NoRepeats, Progress, LastAttempt, Issue;
      tacUpdated, ok := false, true;
      if force || now.global != cache[a].global {
        ProgressOne(attempts, Now(), Register(a, GlobalSlot));
        ok := WriteGlobal(a, now.global);
        if !ok { return; }
        if force || Period(cache[a].global) != Period(now.global) { tacUpdated := true; }
        cache := cache[a := cache[a].(global := now.global)];
      } else {
        ProgressNone(attempts, Now());
        assert hardware == hardware[a := hardware[a]] && cache == cache[a := cache[a]];
      }
    }

    /** setAsicsConfig, one channel register of one ASIC. */
    method SetChannel(a: Asic, k: nat, value: ChannelWord, force: bool) returns (ok: bool, tacUpdated: bool)
      requires Valid() && a in hardware && a in cache && k < CHANNELS
      modifies this`clock, this`hardware, this`cache, this`written
      ensures Valid() && a in hardware && a in cache
      ensures var was := old(cache[a]).channels[k];
              var commands := ChannelWrite(a, k, was, value, force);
              && Progress(attempts, old(Now()), Now(), commands, if ok then None else Some(Register(a, ChannelSlot(k))))
              && (ok ==>
                    && cache == old(cache)[a := WithChannel(old(cache[a]), k, value)]
                    && hardware == old(hardware)[a := if force || value != was then WithChannel(old(hardware[a]), k, value) else old(hardware[a])])
              && (!ok ==>
                    var last := LastAttempt(attempts, old(clock), commands);
                    cache == old(cache) && !last.Fine? && hardware == old(hardware)[a := Left(old(hardware[a]), ChannelSlot(k), last)])
      ensures ok ==> (tacUpdated <==> force || MaxAge(old(cache[a]).channels[k]) != MaxAge(value))
    {
      hide MaxAge, Command, First, NoRepeats, Progress, LastAttempt, Issue;
      tacUpdated, ok := false, true;
      if force || value != cache[a].channels[k] {
        ProgressOne(attempts, Now(), Register(a, ChannelSlot(k)));
        ok := WriteChannel(a, k, value);
        if !ok { return; }
        if force || MaxAge(cache[a].channels[k]) != MaxAge(value) { tacUpdated := true; }
        cache := cache[a := WithChannel(cache[a], k, value)];
      } else {
        ProgressNone(attempts, Now());
        assert cache[a].channels[k := value] == cache[a].channels;
        assert hardware == hardware[a := hardware[a]] && cache == cache[a := cache[a]];
      }
    }

    /** setAsicsConfig, the channel registers of one ASIC, in order. */
    method SetChannels(a: Asic, now: Config, force: bool, ghost was: Config) returns (failed: Option<nat>, tacUpdated: bool)
      requires Valid() && a in hardware && a in cache && Complete(now) && Complete(was)
      requires cache[a] == Partly(was, now, 0)
      modifies this`clock, this`hardware, this`cache, this`written
      ensures Valid() && a in hardware && a in cache
      ensures hardware == old(hardware)[a := hardware[a]] && cache == old(cache)[a := cache[a]]
      ensures Progress(attempts, old(Now()), Now(), ChannelWrites(a, was, now, force, 0),
                       if failed.Some? then Some(Register(a, ChannelSlot(failed.value))) else None)
      ensures failed.None? ==>
                && cache[a] == Partly(was, now, CHANNELS)
                && hardware[a] == HardwarePartly(was, old(hardware[a]), now, force, CHANNELS)
      ensures failed.None? ==> (tacUpdated <==> force || !SameAges(was, now, CHANNELS))
      ensures failed.Some? ==>
                var last := LastAttempt(attempts, old(clock), ChannelWrites(a, was, now, force, 0));
                && failed.value < CHANNELS && cache[a] == Partly(was, now, failed.value) && !last.Fine?
                && hardware[a] == Left(HardwarePartly(was, old(hardware[a]), now, force, failed.value), ChannelSlot(failed.value), last)
    {
      hide MaxAge, Partly, HardwarePartly, WithChannel, ChannelWrite, ChannelWrites, AgreeExcept, First, NoRepeats,
        Progress, LastAttempt, Left;
      tacUpdated := false;
      var k := 0;
      ghost var start, h, soFar: seq<Register> := Now(), hardware[a], [];
      HardwarePartlyStart(was, h, now, force);
      ProgressNone(attempts, start);
      while k < CHANNELS
        invariant 0 <= k <= CHANNELS && Valid() && a in hardware && a in cache
        invariant hardware == old(hardware)[a := hardware[a]] && cache == old(cache)[a := cache[a]]
        invariant cache[a] == Partly(was, now, k) && hardware[a] == HardwarePartly(was, h, now, force, k)
        invariant soFar + ChannelWrites(a, was, now, force, k) == ChannelWrites(a, was, now, force, 0)
        invariant Progress(attempts, start, Now(), soFar, None)
        invariant tacUpdated <==> (force && k > 0) || !SameAges(was, now, k)
      {
        PartlyNext(was, now, k);
        HardwarePartlyNext(was, h, now, force, k);
        WritesFrom(soFar, a, was, now, force, k);
        ghost var before := Now();
        ghost var next := ChannelWrite(a, k, was.channels[k], now.channels[k], force);
        var ok, updated := SetChannel(a, k, now.channels[k], force);
        ProgressJoin(attempts, start, before, Now(), soFar, next, if ok then None else Some(Register(a, ChannelSlot(k))));
        soFar := soFar + next;
        if !ok {
          ProgressStops(attempts, start, Now(), soFar, ChannelWrites(a, was, now, force, k + 1), Register(a, ChannelSlot(k)));
          return Some(k), tacUpdated;
        }
        tacUpdated := tacUpdated || updated;
        k := k + 1;
      }
      NoWritesLeft(soFar, a, was, now, force);
      return None, tacUpdated;
    }

    ghost function Now(): Log
      reads this
    {
      Log(clock, written)
    }

    /** setAsicsConfig, one ASIC: the global register, then the channels. */
    method SetAsic(a: Asic, now: Config, force: bool) returns (outcome: Outcome, tacUpdated: bool)
      requires Valid() && a in hardware && a in cache && Complete(now)
      modifies this`clock, this`hardware, this`cache, this`written
      ensures Valid() && a in hardware && a in cache && (outcome == Done || outcome.CommandFailed?)
      ensures hardware == old(hardware)[a := hardware[a]] && cache == old(cache)[a := cache[a]]
      ensures Progress(attempts, old(Now()), Now(), AsicWrites(a, old(cache[a]), now, force),
                       if outcome == Done then None else Some(outcome.register))
      ensures outcome == Done ==>
                cache[a] == now && hardware[a] == Commanded(old(cache[a]), old(hardware[a]), now, force)
      ensures outcome == Done ==> (tacUpdated <==> force || !SameTac(old(cache[a]), now))
      ensures outcome != Done ==>
                var last := LastAttempt(attempts, old(clock), AsicWrites(a, old(cache[a]), now, force));
                var slot := outcome.register.slot;
                && outcome.register.asic == a && cache[a] == CachedUntil(old(cache[a]), now, slot) && !last.Fine?
                && hardware[a] == Left(HardwareUntil(old(cache[a]), old(hardware[a]), now, force, slot), slot, last)
    {
      hide Period, MaxAge, Partly, HardwarePartly, GlobalCommanded, GlobalWrite, ChannelWrites, AgreeExcept, First, NoRepeats,
        Progress, LastAttempt, Left, SameAges;
      ghost var was, start := cache[a], Now();
      ghost var g, c := GlobalWrite(a, was, now, force), ChannelWrites(a, was, now, force, 0);
      var ok;
      ok, tacUpdated := SetGlobal(a, now, force);
      if !ok {
        ProgressStops(attempts, start, Now(), g, c, Register(a, GlobalSlot));
        return CommandFailed(Register(a, GlobalSlot)), tacUpdated;
      }
      PartlyEnds(was, now);
      ghost var middle := Now();
      var failed, updated := SetChannels(a, now, force, was);
      ProgressJoin(attempts, start, middle, Now(), g, c, if failed.Some? then Some(Register(a, ChannelSlot(failed.value))) else None);
      match failed {
        case Some(k) => return CommandFailed(Register(a, ChannelSlot(k))), tacUpdated;
        case None => return Done, tacUpdated || updated;
      }
    }

    /** __doAsicCommand for a read: up to five attempts, nothing changes. */
    method TryRead() returns (ok: bool)
      modifies this`clock
      ensures clock == Command(attempts, old(clock)).clock && ok == Command(attempts, old(clock)).last.Fine?
      ensures ok <==> exists k :: old(clock) <= k < old(clock) + 5 && attempts(k).Fine? && forall j :: old(clock) <= j < k ==> attempts(j).Refused?
    {
      CommandOutcome(attempts, clock);
      var nTry := 0;
      while nTry < 5
        invariant 0 <= nTry < 5 && Attempts(attempts, clock, nTry) == Command(attempts, old(clock))
        decreases 5 - nTry
      {
        var t := attempts(clock);
        clock := clock + 1;
        if t.Fine? { return true; }
        if t.Broken? { return false; }
        nTry := nTry + 1;
        if nTry >= 5 { return false; }
      }
      return false;
    }

    /** getAsicsConfig, one ASIC: its registers are read in order, up to the first failure. */
    method ReadAsic(a: Asic) returns (failed: Option<Slot>, c: Config)
      requires Valid() && a in hardware
      modifies this`clock
      ensures Valid() && (failed.None? ==> c == hardware[a])
      ensures var issued := Issue(attempts, old(clock), REGISTERS);
              && clock == issued.clock && failed == (if issued.done == REGISTERS then None else Some(SlotNumber(issued.done)))
              && (failed.Some? ==> failed.value == if issued.done == 0 then GlobalSlot else ChannelSlot(issued.done - 1))
    {
      hide Command, First, NoRepeats, Issue;
      ghost var start := clock;
      c := Config(seq(184, i => false), []);
      IssueSplit(attempts, start, 1, CHANNELS);
      IssueOne(attempts, start);
      var ok := TryRead();
      if !ok { return Some(GlobalSlot), c; }
      ghost var after := clock;
      var channels: seq<ChannelWord> := [];
      var n := 0;
      IssueNone(attempts, after);
      while n < CHANNELS
        invariant 0 <= n <= CHANNELS && Valid() && channels == hardware[a].channels[..n]
        invariant Issue(attempts, after, n) == Issued(n, Fine, clock)
      {
        IssueNext(attempts, after, clock, n, 1, CHANNELS - n - 1);
        IssueOne(attempts, clock);
        ok := TryRead();
        if !ok { return Some(ChannelSlot(n)), c; }
        channels := channels + [hardware[a].channels[n]];
        n := n + 1;
      }
      return None, Config(hardware[a].global, channels);
    }

    /** Whatever the cache holds is what the hardware holds. */
    ghost predicate Agrees()
      reads this
    {
      Valid() && forall a :: a in cache ==> cache[a] == hardware[a]
    }

    /** getAsicsConfig, storing one ASIC that has been read. */
    method StoreAsic(a: Asic, c: Config)
      requires Agrees() && cached && a in Active() && a !in cache && c == hardware[a] && tacRefresh == LastPairs(cache, cache.Keys)
      modifies this`cache, this`tacRefresh
      ensures Agrees() && cache == old(cache)[a := c] && tacRefresh == LastPairs(cache, cache.Keys)
    {
      hide Period, MaxAge, First, LastPairs, NoRepeats;
      LastPairsNext(cache, a, c);
      cache := cache[a := c];
      tacRefresh := tacRefresh + {(Period(c.global), MaxAge(c.channels[CHANNELS - 1]))};
    }

    /** The first i ASICs have been read and cached since the clock stood at `start`. */
    ghost predicate HasRead(start: nat, i: nat)
      requires i <= |activeAsics|
      reads this
    {
      && Agrees() && cached && cache.Keys == First(activeAsics, i) && tacRefresh == LastPairs(cache, cache.Keys)
      && Issue(attempts, start, AllRegisters(i)) == Issued(AllRegisters(i), Fine, clock)
    }

    lemma NothingRead()
      requires Agrees() && cached && cache == map[] && tacRefresh == {}
      ensures HasRead(clock, 0)
    {
    }

    /** getAsicsConfig, one pass of the loop. */
    method ReadNext(i: nat, ghost start: nat) returns (outcome: Outcome)
      requires i < |activeAsics| && HasRead(start, i)
      modifies this`clock, this`cache, this`tacRefresh
      ensures Agrees() && tacRefresh == LastPairs(cache, cache.Keys)
      ensures outcome == Done ==> HasRead(start, i + 1)
      ensures outcome != Done ==>
                var issued := Issue(attempts, start, AllRegisters(|activeAsics|));
                clock == issued.clock && ReadUpTo(issued.done, outcome)
    {
      hide Period, MaxAge, First, LastPairs, NoRepeats, Issue, ReadUpTo, AllRegisters, SlotNumber;
      var a := activeAsics[i];
      FirstHas(activeAsics, i);
      AllRegistersNext(i, |activeAsics|);
      IssueNext(attempts, start, clock, AllRegisters(i), REGISTERS, AllRegisters(|activeAsics|) - AllRegisters(i) - REGISTERS);
      ghost var done := Issue(attempts, clock, REGISTERS).done;
      var failed, c := ReadAsic(a);
      if failed.Some? {
        outcome := CommandFailed(Register(a, failed.value));
        ReadStopped(i, done, outcome);
      } else {
        FirstNext(activeAsics, i);
        NotYet(activeAsics, i);
        StoreAsic(a, c);
        outcome := Done;
      }
    }

    /** getAsicsConfig, the loop over the active ASICs, into an empty cache. */
    method ReadAll() returns (outcome: Outcome)
      requires Agrees() && cached && cache == map[] && tacRefresh == {}
      modifies this`clock, this`cache, this`tacRefresh
      ensures Agrees() && tacRefresh == LastPairs(cache, cache.Keys)
      ensures var issued := Issue(attempts, old(clock), AllRegisters(|activeAsics|));
              clock == issued.clock && ReadUpTo(issued.done, outcome)
    {
      hide First, LastPairs, NoRepeats, Issue, ReadUpTo, AllRegisters;
      var i := 0;
      NothingRead();
      while i < |activeAsics|
        invariant 0 <= i <= |activeAsics| && HasRead(old(clock), i)
      {
        outcome := ReadNext(i, old(clock));
        if outcome != Done { return; }
        i := i + 1;
      }
      ReadFinished();
      return Done;
    }

    lemma ReadStopped(i: nat, done: nat, outcome: Outcome)
      requires i < |activeAsics| && done < REGISTERS && cache.Keys == First(activeAsics, i)
      requires outcome == CommandFailed(Register(activeAsics[i], SlotNumber(done)))
      ensures ReadUpTo(AllRegisters(i) + done, outcome)
    {
      hide First;
      assert (AllRegisters(i) + done) / REGISTERS == i && (AllRegisters(i) + done) % REGISTERS == done;
    }

    lemma ReadFinished()
      requires cache.Keys == First(activeAsics, |activeAsics|)
      ensures ReadUpTo(AllRegisters(|activeAsics|), Done)
    {
      hide First;
      assert AllRegisters(|activeAsics|) / REGISTERS == |activeAsics|;
    }

    /** getAsicsConfig: a read from any state, stale or not, leaves nothing stale; it reads register
        after register and stops at the first that fails. An unforced call with a cache changes
        nothing. */
    method GetAsicsConfig(force: bool) returns (outcome: Outcome)
      requires Valid()
      modifies this`clock, this`cached, this`cache, this`tacRefresh
      ensures Valid() && cached
      ensures !force && old(cached) ==> outcome == Done && cache == old(cache) && tacRefresh == old(tacRefresh) && clock == old(clock)
      ensures force || !old(cached) ==>
                var issued := Issue(attempts, old(clock), AllRegisters(|activeAsics|));
                && Agrees() && tacRefresh == LastPairs(cache, cache.Keys) && clock == issued.clock && ReadUpTo(issued.done, outcome)
      ensures (force || !old(cached)) && outcome == Done ==> Coherent()
    {
      hide First, LastPairs, NoRepeats, Issue;
      if !force && cached { return Done; }
      cached, cache, tacRefresh := true, map[], {};
      outcome := ReadAll();
      if outcome == Done { assert AllRegisters(|activeAsics|) / REGISTERS == |activeAsics|; }
    }

    /** What a read that got through `done` registers has cached, and how it ended. */
    ghost predicate ReadUpTo(done: nat, outcome: Outcome)
      reads this
    {
      && done <= AllRegisters(|activeAsics|) && cache.Keys == First(activeAsics, done / REGISTERS)
      && outcome == if done == AllRegisters(|activeAsics|) then Done
                    else CommandFailed(Register(activeAsics[done / REGISTERS], SlotNumber(done % REGISTERS)))
    }

    /** The summary rebuilt from the whole cache. */
    method RebuildTacRefresh()
      requires Valid() && cache.Keys == Active()
      modifies this`tacRefresh
      ensures tacRefresh == Summary(cache, Active())
    {
      hide Period, MaxAge;
      tacRefresh := {};
      var i := 0;
      while i < |activeAsics|
        invariant 0 <= i <= |activeAsics| && First(activeAsics, i) <= cache.Keys
        invariant tacRefresh == Summary(cache, First(activeAsics, i))
      {
        var a := activeAsics[i];
        assert a in Active();
        FirstNext(activeAsics, i);
        ghost var base := tacRefresh;
        var n := 0;
        while n < CHANNELS
          invariant 0 <= n <= CHANNELS
          invariant tacRefresh == base + Pairs(cache[a], n)
        {
          PairsNext(cache[a], n);
          tacRefresh := tacRefresh + {(Period(cache[a].global), MaxAge(cache[a].channels[n]))};
          n := n + 1;
        }
        SummaryNext(cache, First(activeAsics, i), a);
        i := i + 1;
      }
    }

    /** The first i ASICs have been given their new configuration, by exactly the commands needed. */
    ghost predicate AppliedTo(start: Table, hw: Table, log: Log, config: Table, force: bool, i: nat, tacUpdated: bool)
      requires i <= |activeAsics| && AllComplete(start) && AllComplete(hw) && AllComplete(config)
      reads this
    {
      && First(activeAsics, i) <= start.Keys && First(activeAsics, i) <= config.Keys
      && cache == Overlay(start, config, activeAsics, i)
      && hardware == HardwareOverlay(hw, start, config, activeAsics, i, force)
      && Progress(attempts, log, Now(), WritesUpTo(activeAsics, start, config, force, i), None)
      && (tacUpdated <==> (force && i > 0) || !TacUnchanged(start, config, First(activeAsics, i)))
    }

    /** The command for a register of ASIC number i failed: everything before it has been applied, the
        cache keeps the register's old value and the hardware holds what the last attempt left. */
    ghost predicate FailedAt(start: Table, hw: Table, log: Log, config: Table, force: bool, i: nat, slot: Slot)
      requires i < |activeAsics| && AllComplete(start) && AllComplete(hw) && AllComplete(config)
      reads this
    {
      var a := activeAsics[i];
      && First(activeAsics, i) <= start.Keys && First(activeAsics, i) <= config.Keys
      && First(activeAsics, i + 1) <= start.Keys && First(activeAsics, i + 1) <= config.Keys
      && a in start && a in config && a in hw
      && var commands := WritesUpTo(activeAsics, start, config, force, i + 1);
         var last := LastAttempt(attempts, log.clock, commands);
      && Progress(attempts, log, Now(), commands, Some(Register(a, slot))) && !last.Fine?
      && cache == Overlay(start, config, activeAsics, i)[a := CachedUntil(start[a], config[a], slot)]
      && hardware == HardwareOverlay(hw, start, config, activeAsics, i, force)
                       [a := Left(HardwareUntil(start[a], hw[a], config[a], force, slot), slot, last)]
    }

    /** No register has become stale, except possibly one. */
    ghost predicate NoNewStale(start: Table, hw: Table, outcome: Outcome)
      requires Valid() && AllComplete(start) && AllComplete(hw)
      reads this
    {
      forall r :: Stale(r) ==> StaleAt(start, hw, r) || outcome == CommandFailed(r)
    }

    ghost predicate OthersUntouched(hw: Table)
      reads this
    {
      hardware.Keys == hw.Keys && forall a :: a in hw && a !in Active() ==> hardware[a] == hw[a]
    }

    lemma AppliedKeepsOthers(start: Table, hw: Table, log: Log, config: Table, force: bool, i: nat, tacUpdated: bool)
      requires i <= |activeAsics| && AllComplete(start) && AllComplete(hw) && AllComplete(config)
      requires AppliedTo(start, hw, log, config, force, i, tacUpdated)
      ensures OthersUntouched(hw)
    {
      hide Commanded, WritesUpTo, TacUnchanged, Overlay, Progress;
      assert First(activeAsics, i) <= Active();
    }

    lemma AppliedStale(start: Table, hw: Table, log: Log, config: Table, force: bool, i: nat, tacUpdated: bool, r: Register)
      requires Valid() && i <= |activeAsics| && AllComplete(start) && AllComplete(hw) && AllComplete(config)
      requires AppliedTo(start, hw, log, config, force, i, tacUpdated)
      ensures Stale(r) <==>
              && StaleAt(start, hw, r)
              && (r.asic in First(activeAsics, i) ==> !force && !Differs(start[r.asic], config[r.asic], r.slot))
    {
      hide First, Overlay, HardwareOverlay, WritesUpTo, TacUnchanged, StaleAt, Progress;
      StaleAfter(hw, start, config, activeAsics, i, force, r);
    }

    lemma AppliedNoNewStale(start: Table, hw: Table, log: Log, config: Table, force: bool, i: nat, tacUpdated: bool, outcome: Outcome)
      requires Valid() && i <= |activeAsics| && AllComplete(start) && AllComplete(hw) && AllComplete(config)
      requires AppliedTo(start, hw, log, config, force, i, tacUpdated)
      ensures NoNewStale(start, hw, outcome)
    {
      hide AppliedTo, StaleAt, First;
      forall r
        ensures Stale(r) ==> StaleAt(start, hw, r)
      {
        AppliedStale(start, hw, log, config, force, i, tacUpdated, r);
      }
    }

    lemma FailureStaleOnly(start: Table, hw: Table, log: Log, config: Table, force: bool, i: nat, slot: Slot)
      requires Valid() && i < |activeAsics| && AllComplete(start) && AllComplete(hw) && AllComplete(config)
      requires FailedAt(start, hw, log, config, force, i, slot)
      ensures OthersUntouched(hw) && NoNewStale(start, hw, CommandFailed(Register(activeAsics[i], slot)))
    {
      hide WritesUpTo, Progress, LastAttempt, Left, HardwareUntil, CachedUntil, StaleAt, Differs, Overlay, Commanded, NewlyStaleOnly;
      var a, last := activeAsics[i], LastAttempt(attempts, log.clock, WritesUpTo(activeAsics, start, config, force, i + 1));
      FirstHas(activeAsics, i);
      assert First(activeAsics, i) <= Active();
      var c0, h0 := Overlay(start, config, activeAsics, i), HardwareOverlay(hw, start, config, activeAsics, i, force);
      OverlayComplete(start, config, activeAsics, i);
      forall r
        ensures StaleAt(c0, h0, r) ==> StaleAt(start, hw, r)
      {
        StaleAfter(hw, start, config, activeAsics, i, force, r);
      }
      FailureStale(start[a], hw[a], config[a], force, slot, last);
      StaleAfterFailure(hw, start, c0, h0, a, slot, cache[a], hardware[a]);
    }

    method ApplyOne(i: nat, config: Table, force: bool, before: bool, ghost start: Table, ghost hw: Table, ghost log: Log)
      returns (outcome: Outcome, tacUpdated: bool)
      requires Valid() && cached && i < |activeAsics| && AllComplete(start) && AllComplete(hw) && AllComplete(config)
      requires Active() <= hw.Keys && AppliedTo(start, hw, log, config, force, i, before)
      modifies this`clock, this`hardware, this`cache, this`written
      ensures Valid()
      ensures match outcome
              case Done => AppliedTo(start, hw, log, config, force, i + 1, tacUpdated)
              case CommandFailed(r) => r.asic == activeAsics[i] && FailedAt(start, hw, log, config, force, i, r.slot)
              case KeyMissing(a) =>
                a == activeAsics[i] && (a !in start || a !in config) && AppliedTo(start, hw, log, config, force, i, tacUpdated)
    {
      hide First, NoRepeats, Overlay, HardwareOverlay, Commanded, AsicWrites, WritesUpTo, SameTac, TacUnchanged,
        Progress, LastAttempt, Left, HardwareUntil, CachedUntil;
      var a := activeAsics[i];
      tacUpdated := before;
      FirstHas(activeAsics, i);
      InOverlay(start, config, activeAsics, i, a);
      if a !in cache || a !in config { return KeyMissing(a), before; }
      OverlayNext(start, config, activeAsics, i);
      HardwareOverlayNext(hw, start, config, activeAsics, i, force);
      WritesNext(activeAsics, start, config, force, i);
      TacNext(start, config, activeAsics, i);
      ghost var middle := Now();
      ghost var earlier, own := WritesUpTo(activeAsics, start, config, force, i), AsicWrites(a, start[a], config[a], force);
      var updated;
      outcome, updated := SetAsic(a, config[a], force);
      tacUpdated := before || updated;
      ProgressJoin(attempts, log, middle, Now(), earlier, own, if outcome == Done then None else Some(outcome.register));
    }

    /** setAsicsConfig, the loop over the active ASICs. */
    method ApplyConfig(config: Table, force: bool) returns (outcome: Outcome, tacUpdated: bool)
      requires Valid() && cached && AllComplete(config)
      modifies this`clock, this`hardware, this`cache, this`written
      ensures Valid() && Ended(old(cache), old(hardware), old(Now()), config, force, outcome, tacUpdated)
    {
      hide First, NoRepeats, Overlay, HardwareOverlay, WritesUpTo, TacUnchanged, StaleAt, Progress, LastAttempt, Left;
      ghost var start, hw, log := cache, hardware, Now();
      tacUpdated := false;
      var i := 0;
      NothingYet(activeAsics, start, config, force);
      HardwareOverlayStart(hw, start, config, activeAsics, force);
      ProgressNone(attempts, log);
      while i < |activeAsics|
        invariant 0 <= i <= |activeAsics| && Valid() && AppliedTo(start, hw, log, config, force, i, tacUpdated)
      {
        outcome, tacUpdated := ApplyOne(i, config, force, tacUpdated, start, hw, log);
        if outcome != Done { return; }
        i := i + 1;
      }
      return Done, tacUpdated;
    }

    /** How the loop ended: everything applied, a command of some ASIC failed, or an ASIC was reached that
        the cache or the request does not have. */
    ghost predicate Ended(start: Table, hw: Table, log: Log, config: Table, force: bool, outcome: Outcome, tacUpdated: bool)
      requires AllComplete(start) && AllComplete(hw) && AllComplete(config)
      reads this
    {
      match outcome
      case Done => AppliedTo(start, hw, log, config, force, |activeAsics|, tacUpdated)
      case CommandFailed(r) =>
        exists i :: 0 <= i < |activeAsics| && activeAsics[i] == r.asic && FailedAt(start, hw, log, config, force, i, r.slot)
      case KeyMissing(a) =>
        exists i, b :: 0 <= i < |activeAsics| && activeAsics[i] == a && (a !in start || a !in config)
                       && AppliedTo(start, hw, log, config, force, i, b)
    }

    lemma EndedStale(start: Table, hw: Table, log: Log, config: Table, force: bool, outcome: Outcome, tacUpdated: bool)
      requires Valid() && AllComplete(start) && AllComplete(hw) && AllComplete(config)
      requires Ended(start, hw, log, config, force, outcome, tacUpdated)
      ensures OthersUntouched(hw) && NoNewStale(start, hw, outcome)
    {
      hide AppliedTo, FailedAt, NoNewStale, OthersUntouched;
      match outcome {
        case Done =>
          AppliedKeepsOthers(start, hw, log, config, force, |activeAsics|, tacUpdated);
          AppliedNoNewStale(start, hw, log, config, force, |activeAsics|, tacUpdated, outcome);
        case CommandFailed(r) =>
          var i :| 0 <= i < |activeAsics| && activeAsics[i] == r.asic && FailedAt(start, hw, log, config, force, i, r.slot);
          FailureStaleOnly(start, hw, log, config, force, i, r.slot);
        case KeyMissing(a) =>
          var i, b :| 0 <= i < |activeAsics| && AppliedTo(start, hw, log, config, force, i, b);
          AppliedKeepsOthers(start, hw, log, config, force, i, b);
          AppliedNoNewStale(start, hw, log, config, force, i, b, outcome);
      }
    }

    /** When cache and request have every active ASIC, the call returns normally if and only if every
        command needed succeeds. */
    lemma DoneIff(start: Table, hw: Table, log: Log, config: Table, force: bool, outcome: Outcome, tacUpdated: bool)
      requires AllComplete(start) && AllComplete(hw) && AllComplete(config)
      requires Ended(start, hw, log, config, force, outcome, tacUpdated)
      requires First(activeAsics, |activeAsics|) <= start.Keys && First(activeAsics, |activeAsics|) <= config.Keys
      ensures var n := |WritesUpTo(activeAsics, start, config, force, |activeAsics|)|;
              outcome == Done <==> Issue(attempts, log.clock, n).done == n
    {
      hide First, Overlay, HardwareOverlay, WritesUpTo, TacUnchanged, Issue, Left, LastAttempt;
      match outcome {
        case Done =>
        case CommandFailed(r) =>
          var i :| 0 <= i < |activeAsics| && activeAsics[i] == r.asic && FailedAt(start, hw, log, config, force, i, r.slot);
          WritesExtend(activeAsics, start, config, force, i + 1, |activeAsics|);
          var a, b := WritesUpTo(activeAsics, start, config, force, i + 1), WritesUpTo(activeAsics, start, config, force, |activeAsics|);
          ProgressStops(attempts, log, Now(), a, b[|a|..], r);
        case KeyMissing(a) =>
          var i, b :| 0 <= i < |activeAsics| && activeAsics[i] == a && AppliedTo(start, hw, log, config, force, i, b);
          FirstHas(activeAsics, i);
      }
    }

    lemma AppliedToAll(start: Table, hw: Table, log: Log, config: Table, force: bool, tacUpdated: bool)
      requires Valid() && AllComplete(start) && AllComplete(hw) && AllComplete(config) && start.Keys <= Active()
      requires AppliedTo(start, hw, log, config, force, |activeAsics|, tacUpdated)
      ensures forall r :: Stale(r) <==> !force && SkippedStale(start, hw, config, r)
    {
      hide First, Overlay, HardwareOverlay, WritesUpTo, TacUnchanged, StaleAt, Differs, Progress;
      forall r
        ensures Stale(r) <==> !force && SkippedStale(start, hw, config, r)
      {
        AppliedStale(start, hw, log, config, force, |activeAsics|, tacUpdated, r);
        StaleIsCached(start, hw, r);
      }
    }

    /** The reads that setAsicsConfig begins with: all registers if nothing is cached. */
    ghost function FirstReads(): nat
      reads this
    {
      if cached then 0 else AllRegisters(|activeAsics|)
    }

    /** setAsicsConfig begins by reading everything if nothing is cached. */
    method EnsureCached() returns (outcome: Outcome)
      requires Valid()
      modifies this`clock, this`cached, this`cache, this`tacRefresh
      ensures Valid() && cached && clock == Issue(attempts, old(clock), old(FirstReads())).clock
      ensures outcome == Done <==> Issue(attempts, old(clock), old(FirstReads())).done == old(FirstReads())
      ensures outcome == Done ==> cache == old(Compared()) && tacRefresh == old(ComparedSummary())
      ensures outcome != Done ==> outcome.CommandFailed? && NoNewStale(old(Compared()), hardware, outcome)
      ensures old(cached) ==> outcome == Done
    {
      if cached {
        IssueNone(attempts, clock);
        return Done;
      }
      outcome := GetAsicsConfig(false);
      if outcome == Done {
        assert cache == old(Compared());
      } else {
        NothingStale();
      }
    }

    /** The TAC summary a request starts from. */
    ghost function ComparedSummary(): set<(nat, nat)>
      requires Valid()
      reads this
    {
      if cached then tacRefresh else LastPairs(Compared(), Compared().Keys)
    }

    /** The requested configuration is in place: cached on every active ASIC, having commanded exactly
        the registers whose cached value differed (all if forced). A register is stale if and only if
        it was stale before, the call was not forced and the stale cached value equals the request; on
        every other register hardware = cache = request. The TAC summary is exact if and only if it
        was, the call was forced or a TAC field changed. */
    ghost predicate Configured(was: Table, hw: Table, summary: set<(nat, nat)>, log: Log, config: Table, force: bool)
      requires AllComplete(was) && AllComplete(hw) && AllComplete(config)
      reads this
    {
      && Valid() && cached && cache.Keys == Active() && Active() <= was.Keys && Active() <= config.Keys
      && (forall a :: a in Active() ==> cache[a] == config[a])
      && hardware == HardwareOverlay(hw, was, config, activeAsics, |activeAsics|, force)
      && (forall r :: Stale(r) <==> !force && SkippedStale(was, hw, config, r))
      && (Coherent() <==> force || forall r :: !SkippedStale(was, hw, config, r))
      && Progress(attempts, log, Now(), WritesUpTo(activeAsics, was, config, force, |activeAsics|), None)
      && (tacRefresh == Summary(cache, Active()) <==>
            (force && activeAsics != []) || !TacUnchanged(was, config, Active()) || summary == Summary(was, Active()))
    }

    /** When cache and request have every active ASIC, a normal return means that every command needed
        succeeded, and conversely. */
    ghost predicate ReturnsIff(was: Table, clock: nat, config: Table, force: bool, outcome: Outcome)
      requires AllComplete(was) && AllComplete(config)
    {
      First(activeAsics, |activeAsics|) <= was.Keys && First(activeAsics, |activeAsics|) <= config.Keys ==>
        var commands := |WritesUpTo(activeAsics, was, config, force, |activeAsics|)|;
        outcome == Done <==> Issue(attempts, clock, commands).done == commands
    }

    /** setAsicsConfig, with a cache. */
    method Reconfigure(config: Table, force: bool) returns (outcome: Outcome)
      requires Valid() && cached && AllComplete(config)
      modifies this
      ensures Valid() && OthersUntouched(old(hardware)) && NoNewStale(old(cache), old(hardware), outcome)
      ensures outcome == Done ==> Configured(old(cache), old(hardware), old(tacRefresh), old(Now()), config, force)
      ensures outcome != Done ==>
                tacRefresh == old(tacRefresh) && Ended(old(cache), old(hardware), old(Now()), config, force, outcome, false)
      ensures ReturnsIff(old(cache), old(clock), config, force, outcome)
    {
      hide Period, MaxAge, First, Overlay, HardwareOverlay, WritesUpTo, AgreeExcept, SameAges, SameTac, Summary, StaleAt,
        Differs, TacUnchanged, NoRepeats, Issue, Progress, LastAttempt, FailedAt;
      ghost var start, hw, log, summary := cache, hardware, Now(), tacRefresh;
      var tacUpdated;
      outcome, tacUpdated := ApplyConfig(config, force);
      EndedStale(start, hw, log, config, force, outcome, tacUpdated);
      if First(activeAsics, |activeAsics|) <= start.Keys && First(activeAsics, |activeAsics|) <= config.Keys {
        DoneIff(start, hw, log, config, force, outcome, tacUpdated);
      }
      if outcome != Done { return; }
      FinishSummary(config, force, tacUpdated, start, hw, log, summary);
    }

    /** setAsicsConfig, after the loop: the TAC summary is rebuilt if a TAC field may have changed. */
    method FinishSummary(config: Table, force: bool, tacUpdated: bool, ghost start: Table, ghost hw: Table, ghost log: Log, ghost summary: set<(nat, nat)>)
      requires Valid() && cached && AllComplete(start) && AllComplete(hw) && AllComplete(config) && start.Keys <= Active()
      requires AppliedTo(start, hw, log, config, force, |activeAsics|, tacUpdated) && tacRefresh == summary
      modifies this`tacRefresh
      ensures Configured(start, hw, summary, log, config, force)
    {
      hide Period, MaxAge, First, Overlay, HardwareOverlay, WritesUpTo, AgreeExcept, SameAges, SameTac, Summary, StaleAt,
        Differs, TacUnchanged, NoRepeats, Progress;
      OverlayIsConfig(start, config, activeAsics);
      if tacUpdated {
        RebuildTacRefresh();
      } else {
        TacSummary(start, config, Active());
        SummaryUnchanged(start, cache, Active());
      }
      AppliedToAll(start, hw, log, config, force, tacUpdated);
      CoherentIff();
    }

    /** setAsicsConfig, from any state. A normal return leaves the requested configuration in place. An
        exception leaves the state described by Ended: no register has become stale but the one whose
        command failed, and the summary is left alone. */
    method SetAsicsConfig(config: Table, force: bool) returns (outcome: Outcome)
      requires Valid() && AllComplete(config)
      modifies this
      ensures Valid() && OthersUntouched(old(hardware)) && NoNewStale(old(Compared()), old(hardware), outcome)
      ensures var begun := Issue(attempts, old(clock), old(FirstReads()));
              if begun.done < old(FirstReads()) then outcome.CommandFailed? && hardware == old(hardware)
              else
                && ReturnsIff(old(Compared()), begun.clock, config, force, outcome)
                && (outcome == Done ==>
                      Configured(old(Compared()), old(hardware), old(ComparedSummary()), Log(begun.clock, old(written)), config, force))
                && (outcome != Done ==>
                      && tacRefresh == old(ComparedSummary())
                      && Ended(old(Compared()), old(hardware), Log(begun.clock, old(written)), config, force, outcome, false))
    {
      hide First, Issue, Ended, Configured, ReturnsIff, NoNewStale, LastPairs;
      outcome := EnsureCached();
      if outcome != Done { return; }
      outcome := Reconfigure(config, force);
    }

    /** Coherence is the absence of stale registers. */
    lemma CoherentIff()
      requires Valid() && cached && cache.Keys == Active()
      ensures Coherent() <==> forall r :: !Stale(r)
    {
      if forall r :: !Stale(r) {
        NotStaleMeansAgrees();
      }
    }

    lemma NothingStale()
      requires Agrees()
      ensures forall r :: !Stale(r)
    {
    }

    /** Without stale registers, cache and hardware agree. */
    lemma NotStaleMeansAgrees()
      requires Valid() && forall r :: !Stale(r)
      ensures Agrees()
    {
      forall a | a in cache
        ensures cache[a] == hardware[a]
      {
        assert !Stale(Register(a, GlobalSlot));
        forall n | 0 <= n < CHANNELS
          ensures cache[a].channels[n] == hardware[a].channels[n]
        {
          assert !Stale(Register(a, ChannelSlot(n)));
        }
        assert cache[a].channels == hardware[a].channels;
      }
    }
  }
}
