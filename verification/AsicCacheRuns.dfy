/** Runs of the ASIC configuration cache, from a new connection with one ASIC, in which calls that
    return normally leave the hardware or the TAC summary wrong. */
module AsicCacheRuns {
  import opened Prelude
  import opened AsicCache

  function Only(a: Asic, c: Config): Table
  {
    map[a := c]
  }

  lemma OnlyFirst(a: Asic)
    ensures First([a], 0) == {} && First([a], 1) == {a} && |[a]| == 1
  {
    FirstNext([a], 0);
  }

  lemma {:induction false} SameChannels(a: Asic, was: Config, now: Config, k: nat)
    requires Complete(was) && Complete(now) && k <= CHANNELS && forall n :: k <= n < CHANNELS ==> was.channels[n] == now.channels[n]
    ensures ChannelWrites(a, was, now, false, k) == []
    decreases CHANNELS - k
  {
    if k < CHANNELS { SameChannels(a, was, now, k + 1); }
  }

  lemma OneAsicWrites(a: Asic, was: Config, now: Config)
    requires Complete(was) && Complete(now)
    ensures AllComplete(Only(a, was)) && AllComplete(Only(a, now)) && First([a], 1) <= {a}
    ensures WritesUpTo([a], Only(a, was), Only(a, now), false, 1) == AsicWrites(a, was, now, false)
  {
    hide AsicWrites;
    OnlyFirst(a);
    assert WritesUpTo([a], Only(a, was), Only(a, now), false, 0) == [];
  }

  /** One ASIC's tables, before and after. */
  lemma OneAsicOverlay(a: Asic, was: Config, h: Config, now: Config, c: Config, g: Config)
    requires Complete(was) && Complete(h) && Complete(now)
    ensures AllComplete(Only(a, was)) && AllComplete(Only(a, h)) && AllComplete(Only(a, now)) && First([a], 0) == {} && First([a], 1) == {a}
    ensures Overlay(Only(a, was), Only(a, now), [a], 0)[a := c] == Only(a, c)
    ensures HardwareOverlay(Only(a, h), Only(a, was), Only(a, now), [a], 0, false)[a := g] == Only(a, g)
    ensures HardwareOverlay(Only(a, h), Only(a, was), Only(a, now), [a], 1, false) == Only(a, Commanded(was, h, now, false))
  {
    hide Commanded;
    OnlyFirst(a);
  }

  lemma NothingCommanded(was: Config, h: Config)
    requires Complete(was) && Complete(h)
    ensures Commanded(was, h, was, false) == h
  {
    assert Commanded(was, h, was, false).channels == h.channels;
  }

  lemma OneAsicTac(a: Asic, was: Config, now: Config)
    ensures TacUnchanged(Only(a, was), Only(a, now), {a}) <==> SameTac(was, now)
  {
    hide SameTac;
    assert a in {a};
  }

  /** A new connection to one ASIC whose configuration has been read. */
  method Begin(a: Asic, h: Config, att: nat -> Attempt) returns (conn: Connection)
    requires Complete(h) && forall k :: 0 <= k < 65 ==> att(k).Fine?
    ensures fresh(conn) && conn.Valid() && conn.cached && conn.activeAsics == [a] && conn.attempts == att
    ensures conn.cache == Only(a, h) && conn.hardware == Only(a, h) && conn.Now() == Log(65, [])
    ensures AllComplete(Only(a, h)) && conn.tacRefresh == LastPairs(Only(a, h), {a})
  {
    hide First, Issue, LastPairs;
    OnlyFirst(a);
    conn := new Connection([a], Only(a, h), att);
    IssueFine(att, 0, 65);
    var outcome := conn.GetAsicsConfig(false);
    assert conn.cache == Only(a, h);
  }

  /** How setAsicsConfig ends for a single ASIC: its commands are issued in order; if one fails, the
      earlier ones stand and the register holds what the last attempt left. */
  ghost predicate SetOne(conn: Connection, a: Asic, was: Config, h: Config, now: Config, before: Log, summary: set<(nat, nat)>, outcome: Outcome)
    requires Complete(was) && Complete(h) && Complete(now)
    reads conn
  {
    var commands := AsicWrites(a, was, now, false);
    match outcome
    case Done =>
      && Progress(conn.attempts, before, conn.Now(), commands, None)
      && conn.cache == Only(a, now) && conn.hardware == Only(a, Commanded(was, h, now, false))
      && AllComplete(Only(a, was)) && AllComplete(Only(a, now))
      && (SameTac(was, now) ==> (conn.tacRefresh == Summary(Only(a, now), {a}) <==> summary == Summary(Only(a, was), {a})))
    case CommandFailed(r) =>
      var last := LastAttempt(conn.attempts, before.clock, commands);
      && Progress(conn.attempts, before, conn.Now(), commands, Some(r)) && !last.Fine?
      && conn.cache == Only(a, CachedUntil(was, now, r.slot))
      && conn.hardware == Only(a, Left(HardwareUntil(was, h, now, false, r.slot), r.slot, last))
      && conn.tacRefresh == summary
    case KeyMissing(_) => false
  }

  method SetOneAsic(conn: Connection, a: Asic, ghost was: Config, ghost h: Config, now: Config) returns (outcome: Outcome)
    requires conn.Valid() && conn.cached && conn.activeAsics == [a] && Complete(was) && Complete(h) && Complete(now)
    requires conn.cache == Only(a, was) && conn.hardware == Only(a, h)
    modifies conn
    ensures conn.Valid() && conn.cached && SetOne(conn, a, was, h, now, old(conn.Now()), old(conn.tacRefresh), outcome)
  {
    hide First, WritesUpTo, AsicWrites, Progress, Issue, HardwareOverlay, Overlay, Commanded, Summary, TacUnchanged, LastAttempt,
      Left, CachedUntil, HardwareUntil, LastPairs;
    ghost var log := conn.Now();
    OnlyFirst(a);
    OneAsicWrites(a, was, now);
    IssueNone(conn.attempts, log.clock);
    outcome := conn.SetAsicsConfig(Only(a, now), false);
    OneAsicTac(a, was, now);
    match outcome {
      case Done =>
        OneAsicOverlay(a, was, h, now, was, h);
        assert conn.cache == Only(a, now);
      case CommandFailed(r) =>
        var slot, last := r.slot, LastAttempt(conn.attempts, log.clock, AsicWrites(a, was, now, false));
        assert conn.FailedAt(Only(a, was), Only(a, h), log, Only(a, now), false, 0, slot);
        OneAsicOverlay(a, was, h, now, CachedUntil(was, now, slot), Left(HardwareUntil(was, h, now, false, slot), slot, last));
      case KeyMissing(_) =>
    }
  }

  // ----- A retry that skips the register it should repair -----

  /** Reads work; every later attempt breaks off and leaves v in the global register. */
  function BreakingWrites(v: GlobalWord, c: ChannelWord): nat -> Attempt
  {
    k => if k < 65 then Fine else Broken(v, c)
  }

  lemma GlobalOnly(a: Asic, h: Config, g: GlobalWord)
    requires Complete(h)
    ensures AsicWrites(a, h, h.(global := g), false) == if g == h.global then [] else [Register(a, GlobalSlot)]
  {
    SameChannels(a, h, h.(global := g), 0);
  }

  /** A single command that breaks off. */
  lemma BreaksOff(att: nat -> Attempt, x: Log, y: Log, r: Register, failed: Option<Register>)
    requires Progress(att, x, y, [r], failed) && att(x.clock).Broken?
    ensures failed == Some(r) && y == Log(x.clock + 1, x.written + [r]) && LastAttempt(att, x.clock, [r]) == att(x.clock)
  {
    ProgressOne(att, x, r);
  }

  /** For every hardware state h, every new global word and every other word v that a broken write leaves
      behind: read the configuration, fail to change the global register, and set the configuration that
      was read. The last call returns normally without a single command, and the hardware still holds v. */
  method RetryLeavesStale(h: Config, wanted: GlobalWord, v: GlobalWord, c: ChannelWord)
    returns (conn: Connection, a: Asic, failure: Outcome, last: Outcome)
    requires Complete(h) && wanted != h.global && v != h.global
    ensures fresh(conn) && conn.Valid() && conn.activeAsics == [a] && failure == CommandFailed(Register(a, GlobalSlot))
    ensures last == Done && conn.cache == Only(a, h) && conn.hardware == Only(a, h.(global := v))
    ensures conn.Stale(Register(a, GlobalSlot)) && conn.written == [Register(a, GlobalSlot)]
  {
    hide AsicWrites, Progress, Commanded, Summary, LastAttempt, LastPairs, SameTac;
    a := Asic(0, 0, 0);
    ghost var g, start := Register(a, GlobalSlot), Log(65, []);
    conn := Begin(a, h, BreakingWrites(v, c));
    failure := SetOneAsic(conn, a, h, h, h.(global := wanted));
    GlobalOnly(a, h, wanted);
    BreaksOff(conn.attempts, start, conn.Now(), g, if failure == Done then None else Some(failure.register));
    ghost var stale, log := h.(global := v), conn.Now();
    assert conn.hardware == Only(a, stale);
    last := SetOneAsic(conn, a, h, stale, h);
    GlobalOnly(a, h, h.global);
    assert h.(global := h.global) == h;
    NothingIssued(conn.attempts, log, conn.Now(), if last == Done then None else Some(last.register));
    NothingCommanded(h, stale);
  }

  lemma NothingIssued(att: nat -> Attempt, x: Log, y: Log, failed: Option<Register>)
    requires Progress(att, x, y, [], failed)
    ensures failed == None && y == x
  {
  }

  // ----- A retry that keeps a wrong TAC summary -----

  /** Everything works except attempt 66. */
  function OneBreak(g: GlobalWord, c: ChannelWord): nat -> Attempt
  {
    k => if k == 66 then Broken(g, c) else Fine
  }

  lemma GlobalAndFirst(a: Asic, h: Config, now: Config)
    requires Complete(h) && Complete(now) && now.global != h.global && now.channels[0] != h.channels[0]
    requires forall n :: 1 <= n < CHANNELS ==> now.channels[n] == h.channels[n]
    ensures AsicWrites(a, h, now, false) == [Register(a, GlobalSlot), Register(a, ChannelSlot(0))]
    ensures AsicWrites(a, h.(global := now.global), now, false) == [Register(a, ChannelSlot(0))]
  {
    SameChannels(a, h, now, 1);
    SameChannels(a, h.(global := now.global), now, 1);
    assert ChannelWrites(a, h, now, false, 0) == [Register(a, ChannelSlot(0))] + [];
    assert ChannelWrites(a, h.(global := now.global), now, false, 0) == [Register(a, ChannelSlot(0))] + [];
  }

  /** Two commands, the second of which breaks off. */
  lemma SecondBreaksOff(att: nat -> Attempt, x: Log, y: Log, p: Register, q: Register, failed: Option<Register>)
    requires Progress(att, x, y, [p, q], failed) && att(x.clock).Fine? && att(x.clock + 1).Broken?
    ensures failed == Some(q) && y.clock == x.clock + 2
  {
    IssueOne(att, x.clock);
    IssueOne(att, x.clock + 1);
    IssueSplit(att, x.clock, 1, 1);
  }

  lemma Succeeds(att: nat -> Attempt, x: Log, y: Log, r: Register, failed: Option<Register>)
    requires Progress(att, x, y, [r], failed) && att(x.clock).Fine?
    ensures failed == None
  {
    IssueOne(att, x.clock);
  }

  /** For every hardware state h and every request that changes tac_refresh_period and, without changing
      its age, the first channel: the first call writes the global register and fails on the channel,
      the second returns normally, and the TAC summary still speaks of the old period only. */
  method RetryKeepsWrongSummary(h: Config, now: Config, g: GlobalWord, c: ChannelWord)
    returns (conn: Connection, a: Asic, failure: Outcome, last: Outcome)
    requires Complete(h) && Complete(now) && Period(now.global) != Period(h.global)
    requires now.channels[0] != h.channels[0] && MaxAge(now.channels[0]) == MaxAge(h.channels[0])
    requires forall n :: 1 <= n < CHANNELS ==> now.channels[n] == h.channels[n]
    ensures fresh(conn) && conn.Valid() && conn.activeAsics == [a] && failure == CommandFailed(Register(a, ChannelSlot(0)))
    ensures last == Done && conn.cache == Only(a, now) && AllComplete(Only(a, now))
    ensures conn.tacRefresh != Summary(Only(a, now), {a})
  {
    hide AsicWrites, Progress, Commanded, Summary, LastAttempt, LastPairs, SameTac, Period, MaxAge, HardwarePartly, Left;
    a := Asic(0, 0, 0);
    ghost var start, ch := Log(65, []), Register(a, ChannelSlot(0));
    conn := Begin(a, h, OneBreak(g, c));
    ghost var summary := conn.tacRefresh;
    failure := SetOneAsic(conn, a, h, h, now);
    GlobalAndFirst(a, h, now);
    SecondBreaksOff(conn.attempts, start, conn.Now(), Register(a, GlobalSlot), ch, if failure == Done then None else Some(failure.register));
    ghost var was, log, hw := h.(global := now.global), conn.Now(), conn.hardware[a];
    PartlyEnds(h, now);
    assert conn.cache == Only(a, was) && conn.hardware == Only(a, hw);
    last := SetOneAsic(conn, a, was, hw, now);
    Succeeds(conn.attempts, log, conn.Now(), ch, if last == Done then None else Some(last.register));
    OldPeriodOnly(a, h, now, was);
  }

  /** The summary read at the start is not the summary of a table with another period. */
  lemma OldPeriodOnly(a: Asic, h: Config, now: Config, was: Config)
    requires Complete(h) && Complete(now) && was == h.(global := now.global) && Period(now.global) != Period(h.global)
    requires MaxAge(now.channels[0]) == MaxAge(h.channels[0]) && forall n :: 1 <= n < CHANNELS ==> now.channels[n] == h.channels[n]
    ensures AllComplete(Only(a, h)) && AllComplete(Only(a, was)) && SameTac(was, now)
    ensures LastPairs(Only(a, h), {a}) != Summary(Only(a, was), {a})
  {
    hide Period, MaxAge;
    var pair := (Period(h.global), MaxAge(h.channels[CHANNELS - 1]));
    assert a in {a} && pair in LastPairs(Only(a, h), {a});
    assert pair !in Summary(Only(a, was), {a});
  }
}
