/** The bias DAC cache of daqd.Connection, the 32P mezzanine writes of bias.py and the power
    sequencing of fe_power.py. */
module HvPower {

  datatype Board = Board(portID: nat, slaveID: nat)
  datatype Channel = Channel(board: Board, slotID: nat, channelID: nat)

  /** Register 0x0213: bit 1 enables bias, bit 0 the front-end modules. */
  datatype Power = Power(bias: bool, fem: bool)

  /** The DAC code of the imposed one-volt minimum: 65536/60 rounded up. */
  const FLOOR: int := 1093

  function Max(a: int, b: int): int { if a >= b then a else b }

  /** What lands in the 16-bit DAC register for a requested value. */
  function DacCode(value: int): int
  {
    Max(value, FLOOR) % 0x1_0000
  }

  /** The register holds the clamped request exactly when the request fits 16 bits; above that the
      two command bytes drop the high part. */
  lemma DacCodeExact(value: int)
    ensures DacCode(value) == Max(value, FLOOR) <==> value < 0x1_0000
    ensures DacCode(0) == FLOOR && DacCode(0x1_0000) == 0
    ensures DacCode(value) == (if value < 1093 then 1093 else value) % 0x1_0000
    ensures 60 * FLOOR >= 0x1_0000 > 60 * (FLOOR - 1)
  {
  }

  /** One transfer to the DAC: echoed correctly, echoed wrongly, or aborted by an exception. What a
      bad transfer leaves in the register is arbitrary. */
  datatype Transfer = Echoed | Garbled(left: int) | Raised(left: int)

  datatype Outcome = Ok | DacFailed | KeyMissing | PowerGoodFailed | RailFailed

  /** What the environment does: DAC transfers, DC-DC rail writes of the AG7200 variant and
      power-good readings, each numbered by the clock. */
  datatype World = World(transfers: nat -> Transfer, railOk: nat -> bool, powerGood: nat -> bool)

  // ----- The DAC bank, as a value -----

  /** The registers and the cache, with the channels whose register is not known to hold its cached
      value: the last write failed, or a zero was cached without any write. */
  datatype Bank = Bank(clock: nat, dac: map<Channel, int>, cache: map<Channel, int>, unsure: set<Channel>)

  datatype Written = Written(ok: bool, left: int, clock: nat)

  /** Two attempts; an exception ends them. */
  function WriteDac(w: World, clock: nat, value: int): Written
  {
    match w.transfers(clock)
    case Echoed => Written(true, DacCode(value), clock + 1)
    case Raised(left) => Written(false, left, clock + 1)
    case Garbled(_) =>
      match w.transfers(clock + 1)
      case Echoed => Written(true, DacCode(value), clock + 2)
      case Raised(left) => Written(false, left, clock + 2)
      case Garbled(left) => Written(false, left, clock + 2)
  }

  /** A write succeeds if and only if the first transfer is echoed, or is garbled and the second is
      echoed. A register that was not written holds what the last transfer made left there. */
  lemma WriteDacIff(w: World, clock: nat, value: int)
    ensures var r, first, second := WriteDac(w, clock, value), w.transfers(clock), w.transfers(clock + 1);
            && (r.ok <==> first == Echoed || (first.Garbled? && second == Echoed))
            && (r.ok ==> r.left == (if value < 1093 then 1093 else value) % 0x1_0000)
            && (first.Raised? ==> r.left == first.left) && (first.Garbled? && second != Echoed ==> r.left == second.left)
            && r.clock == if first.Garbled? then clock + 2 else clock + 1
  {
  }

  datatype Step = Step(ok: bool, bank: Bank)

  predicate Cached(b: Bank, c: Channel, value: int)
  {
    c in b.cache && b.cache[c] == value
  }

  /** One channel: skip a cached value, cache only after a successful write. */
  function WriteOne(w: World, b: Bank, c: Channel, value: int, force: bool): Step
  {
    if !force && Cached(b, c, value) then Step(true, b)
    else
      var r := WriteDac(w, b.clock, value);
      var dac := b.dac[c := r.left];
      if r.ok then Step(true, Bank(r.clock, dac, b.cache[c := value], b.unsure - {c}))
      else Step(false, Bank(r.clock, dac, b.cache, b.unsure + {c}))
  }

  /** The first n channels in order, stopping at the first failure. */
  function WriteUpTo(w: World, b: Bank, channels: seq<Channel>, n: nat, config: map<Channel, int>, force: bool): Step
    requires n <= |channels| && forall c :: c in channels ==> c in config
  {
    if n == 0 then Step(true, b)
    else
      var s := WriteUpTo(w, b, channels, n - 1, config, force);
      if s.ok then WriteOne(w, s.bank, channels[n - 1], config[channels[n - 1]], force) else s
  }

  datatype Applied = Applied(outcome: Outcome, bank: Bank)

  /** set_hvdac_config: a missing key is noticed before anything is written, then the rail is set,
      then the channels. */
  ghost function Apply(w: World, b: Bank, channels: seq<Channel>, config: map<Channel, int>, force: bool): Applied
  {
    if exists c :: c in channels && c !in config then Applied(KeyMissing, b)
    else if !w.railOk(b.clock) then Applied(RailFailed, b.(clock := b.clock + 1))
    else
      var s := WriteUpTo(w, b.(clock := b.clock + 1), channels, |channels|, config, force);
      Applied(if s.ok then Ok else DacFailed, s.bank)
  }

  /** get_hvdac_config: an empty cache is filled with zeros without touching the hardware. */
  function Filled(b: Bank, channels: seq<Channel>): Bank
  {
    if b.cache == map[] then b.(cache := map c | c in channels :: 0, unsure := b.unsure + set c | c in channels) else b
  }

  function Zeros(b: Bank): map<Channel, int>
  {
    map c | c in b.cache :: 0
  }

  /** The DAC part of switching bias off. */
  ghost function BiasOff(w: World, b: Bank, channels: seq<Channel>): Applied
  {
    var f := Filled(b, channels);
    Apply(w, f, channels, Zeros(f), false)
  }

  // ----- What every write keeps -----

  /** Every active channel has a register, and each whose content is known holds the code of the
      cached value. */
  predicate Coherent(b: Bank, channels: seq<Channel>)
  {
    && (forall c :: c in channels ==> c in b.dac)
    && (forall c :: c in channels && c in b.cache && c !in b.unsure ==> b.dac[c] == DacCode(b.cache[c]))
  }

  lemma WriteOneKeeps(w: World, b: Bank, channels: seq<Channel>, c: Channel, value: int, force: bool)
    requires Coherent(b, channels)
    ensures Coherent(WriteOne(w, b, c, value, force).bank, channels)
  {
    hide DacCode;
  }

  /** What a finished pass did to one channel: skipped it as cached, leaving register and doubt as
      they were, or wrote it. */
  predicate Handled(b: Bank, t: Bank, c: Channel, value: int, force: bool)
  {
    && Cached(t, c, value)
    && if !force && Cached(b, c, value)
       then (c in b.dac <==> c in t.dac) && (c in b.dac ==> t.dac[c] == b.dac[c]) && (c in t.unsure <==> c in b.unsure)
       else c !in t.unsure
  }

  /** Nothing changed for a channel. */
  predicate Untouched(b: Bank, t: Bank, c: Channel)
  {
    && (c in b.dac <==> c in t.dac) && (c in b.dac ==> t.dac[c] == b.dac[c])
    && (c in b.cache <==> c in t.cache) && (c in b.cache ==> t.cache[c] == b.cache[c])
    && (c in t.unsure <==> c in b.unsure)
  }

  lemma WriteOneFacts(w: World, b: Bank, c: Channel, value: int, force: bool, d: Channel)
    ensures var s := WriteOne(w, b, c, value, force);
            && (d != c ==> Untouched(b, s.bank, d))
            && (s.ok ==> Handled(b, s.bank, c, value, force))
            && (!s.ok ==> !(!force && Cached(b, c, value)) && s.bank.cache == b.cache && c in s.bank.unsure)
  {
    hide WriteDac;
  }

  lemma {:induction false} WriteUpToKeeps(w: World, b: Bank, channels: seq<Channel>, n: nat, config: map<Channel, int>, force: bool)
    requires n <= |channels| && (forall c :: c in channels ==> c in config) && Coherent(b, channels)
    ensures Coherent(WriteUpTo(w, b, channels, n, config, force).bank, channels)
    decreases n
  {
    hide Coherent, WriteOne;
    if n > 0 {
      WriteUpToKeeps(w, b, channels, n - 1, config, force);
      var s := WriteUpTo(w, b, channels, n - 1, config, force);
      if s.ok { WriteOneKeeps(w, s.bank, channels, channels[n - 1], config[channels[n - 1]], force); }
    }
  }

  /** A pass that succeeds has handled every channel it covers and touched no other. */
  lemma {:induction false} WriteUpToFacts(w: World, b: Bank, channels: seq<Channel>, n: nat, config: map<Channel, int>, force: bool, d: Channel)
    requires n <= |channels| && (forall c :: c in channels ==> c in config)
    ensures var s := WriteUpTo(w, b, channels, n, config, force);
            s.ok ==> if d in channels[..n] then d in config && Handled(b, s.bank, d, config[d], force) else Untouched(b, s.bank, d)
    decreases n
  {
    hide WriteOne;
    if n > 0 {
      var s, c := WriteUpTo(w, b, channels, n - 1, config, force), channels[n - 1];
      WriteUpToFacts(w, b, channels, n - 1, config, force, d);
      assert channels[..n] == channels[..n - 1] + [c];
      if s.ok { WriteOneFacts(w, s.bank, c, config[c], force, d); }
    }
  }

  /** A pass that fails stopped at one channel: it had handled the ones before, that channel's cached
      value stands, its register is in doubt, and no later channel was touched. */
  lemma {:induction false} WriteUpToStops(w: World, b: Bank, channels: seq<Channel>, n: nat, config: map<Channel, int>, force: bool) returns (k: nat)
    requires n <= |channels| && (forall c :: c in channels ==> c in config)
    requires !WriteUpTo(w, b, channels, n, config, force).ok
    ensures var t := WriteUpTo(w, b, channels, n, config, force).bank;
            && k < n && WriteUpTo(w, b, channels, k, config, force).ok && channels[k] in t.unsure
            && t.cache == WriteUpTo(w, b, channels, k, config, force).bank.cache
            && forall d :: d !in channels[..k + 1] ==> Untouched(b, t, d)
    decreases n
  {
    hide WriteOne;
    var s := WriteUpTo(w, b, channels, n - 1, config, force);
    if s.ok {
      k := n - 1;
      var c := channels[k];
      WriteOneFacts(w, s.bank, c, config[c], force, c);
      assert channels[..n] == channels[..k] + [c];
      forall d | d !in channels[..n]
        ensures Untouched(b, WriteOne(w, s.bank, c, config[c], force).bank, d)
      {
        WriteUpToFacts(w, b, channels, k, config, force, d);
        WriteOneFacts(w, s.bank, c, config[c], force, d);
      }
    } else {
      k := WriteUpToStops(w, b, channels, n - 1, config, force);
    }
  }

  /** How a configuration call ends, and what it leaves alone when it ends early. */
  lemma ApplyOutcome(w: World, b: Bank, channels: seq<Channel>, config: map<Channel, int>, force: bool)
    ensures var r := Apply(w, b, channels, config, force);
            && (r.outcome == KeyMissing <==> exists c :: c in channels && c !in config)
            && (r.outcome == RailFailed <==> (forall c :: c in channels ==> c in config) && !w.railOk(b.clock))
            && (r.outcome == KeyMissing || r.outcome == RailFailed ==>
                  r.bank.dac == b.dac && r.bank.cache == b.cache && r.bank.unsure == b.unsure)
  {
    hide WriteUpTo;
  }

  /** When every transfer works, every configuration with all keys is applied. */
  lemma {:induction false} WritesSucceed(w: World, b: Bank, channels: seq<Channel>, n: nat, config: map<Channel, int>, force: bool)
    requires n <= |channels| && (forall c :: c in channels ==> c in config) && forall k :: w.transfers(k) == Echoed
    ensures WriteUpTo(w, b, channels, n, config, force).ok
    decreases n
  {
    if n > 0 { WritesSucceed(w, b, channels, n - 1, config, force); }
  }

  lemma ApplyKeeps(w: World, b: Bank, channels: seq<Channel>, config: map<Channel, int>, force: bool)
    requires Coherent(b, channels)
    ensures Coherent(Apply(w, b, channels, config, force).bank, channels)
  {
    hide WriteUpTo;
    if (forall c :: c in channels ==> c in config) {
      WriteUpToKeeps(w, b.(clock := b.clock + 1), channels, |channels|, config, force);
    }
  }

  /** A configuration applied without error is cached on every channel, and only a channel skipped
      as cached can still be in doubt. */
  lemma ApplyFacts(w: World, b: Bank, channels: seq<Channel>, config: map<Channel, int>, force: bool, c: Channel)
    requires c in channels && Apply(w, b, channels, config, force).outcome == Ok
    ensures c in config && Handled(b, Apply(w, b, channels, config, force).bank, c, config[c], force)
  {
    hide WriteUpTo;
    assert c in config;
    assert channels[..|channels|] == channels;
    WriteUpToFacts(w, b.(clock := b.clock + 1), channels, |channels|, config, force, c);
  }

  // ----- Switching bias off -----

  predicate AtFloor(b: Bank, c: Channel)
  {
    c in b.dac && b.dac[c] == FLOOR
  }

  /** Every DAC whose content is known is at the floor. */
  predicate Lowered(b: Bank, channels: seq<Channel>)
  {
    forall c :: c in channels && c !in b.unsure ==> AtFloor(b, c)
  }

  lemma FilledKeeps(b: Bank, channels: seq<Channel>)
    requires Coherent(b, channels)
    ensures Coherent(Filled(b, channels), channels)
  {
  }

  /** Switching bias off without error leaves every known DAC at the floor and zero cached on every
      channel. All DACs really are at the floor if and only if those in doubt for which a zero was
      already cached happened to be there: these are skipped. */
  lemma BiasOffFacts(w: World, b: Bank, channels: seq<Channel>)
    requires Coherent(b, channels)
    ensures var off := BiasOff(w, b, channels);
            && Coherent(off.bank, channels) && off.outcome != PowerGoodFailed
            && (off.outcome == Ok ==> Lowered(off.bank, channels) && forall c :: c in channels ==> Cached(off.bank, c, 0))
            && (off.outcome == Ok ==>
                  ((forall c :: c in channels ==> AtFloor(off.bank, c)) <==>
                   (forall c :: c in channels && SkippedInDoubt(b, channels, c) ==> AtFloor(b, c))))
  {
    hide Apply, WriteDac;
    var f := Filled(b, channels);
    var off := Apply(w, f, channels, Zeros(f), false);
    FilledKeeps(b, channels);
    ApplyKeeps(w, f, channels, Zeros(f), false);
    NeverPowerGood(w, f, channels, Zeros(f), false);
    if off.outcome == Ok {
      forall c | c in channels
        ensures Cached(off.bank, c, 0) && (c !in off.bank.unsure ==> AtFloor(off.bank, c))
        ensures AtFloor(off.bank, c) <==> (SkippedInDoubt(b, channels, c) ==> AtFloor(b, c))
      {
        ApplyFacts(w, f, channels, Zeros(f), false, c);
        DacCodeExact(0);
      }
    }
  }

  /** A zero is cached for the channel, or will be without a write, and its register is in doubt. */
  predicate SkippedInDoubt(b: Bank, channels: seq<Channel>, c: Channel)
  {
    Cached(Filled(b, channels), c, 0) && c in Filled(b, channels).unsure
  }

  lemma NeverPowerGood(w: World, b: Bank, channels: seq<Channel>, config: map<Channel, int>, force: bool)
    ensures Apply(w, b, channels, config, force).outcome != PowerGoodFailed
  {
    hide WriteUpTo;
  }

  // ----- The crate -----

  class Crate {
    const channels: seq<Channel>           // active bias channels, all on 32P mezzanines
    const world: World
    var clock: nat
    var dac: map<Channel, int>
    var cache: map<Channel, int>
    var power: map<Board, Power>
    ghost var unsure: set<Channel>
    ghost var fellSafely: bool             // every fall of a bias bit found the known DACs at the floor

    ghost function Now(): Bank
      reads this
    {
      Bank(clock, dac, cache, unsure)
    }

    /** Cache and known registers agree, no board has bias without front-end power, and bias never
        fell with a known DAC above the floor. */
    ghost predicate Valid()
      reads this
    {
      && Coherent(Now(), channels)
      && (forall b :: b in power && power[b].bias ==> power[b].fem)
      && fellSafely
    }

    /** Power-up state: unknown DACs, empty cache. */
    constructor (channels: seq<Channel>, dac: map<Channel, int>, power: map<Board, Power>, world: World)
      requires forall c :: c in channels ==> c in dac
      requires forall b :: b in power && power[b].bias ==> power[b].fem
      ensures Valid() && Now() == Bank(0, dac, map[], {})
      ensures this.channels == channels && this.power == power && this.world == world
    {
      this.channels, this.dac, this.power, this.world := channels, dac, power, world;
      clock, cache, unsure, fellSafely := 0, map[], {}, true;
    }

    /** bias.set_channel with ltc2668_set_channel: impose the minimum, try twice. */
    method SetChannel(c: Channel, value: int) returns (ok: bool)
      modifies this`clock, this`dac
      ensures c in dac && dac == old(dac)[c := dac[c]]
      ensures Written(ok, dac[c], clock) == WriteDac(world, old(clock), value)
    {
      var v := Max(value, FLOOR);
      var attempt := 0;
      ok := false;
      var raised := false;
      while attempt < 2 && !ok && !raised
        invariant 0 <= attempt <= 2 && clock == old(clock) + attempt
        invariant attempt == 0 ==> dac == old(dac) && !ok && !raised
        invariant attempt > 0 ==> c in dac && dac == old(dac)[c := dac[c]]
        invariant attempt == 1 ==> ok == world.transfers(old(clock)).Echoed? && raised == world.transfers(old(clock)).Raised?
        invariant attempt == 1 && raised ==> dac[c] == world.transfers(old(clock)).left
        invariant attempt == 2 ==> world.transfers(old(clock)).Garbled?
        invariant ok ==> dac[c] == DacCode(value)
        invariant attempt == 2 ==> Written(ok, dac[c], clock) == WriteDac(world, old(clock), value)
        decreases 2 - attempt
      {
        var t := world.transfers(clock);
        clock := clock + 1;
        match t {
          case Echoed =>
            dac := dac[c := v % 0x1_0000];
            ok := true;
          case Garbled(left) =>
            dac := dac[c := left];
          case Raised(left) =>
            dac := dac[c := left];
            raised := true;
        }
        attempt := attempt + 1;
      }
    }

    /** __write_hv_channel. */
    method WriteHvChannel(c: Channel, value: int, force: bool) returns (ok: bool)
      requires Valid()
      modifies this`clock, this`dac, this`cache, this`unsure
      ensures Valid() && Step(ok, Now()) == WriteOne(world, old(Now()), c, value, force)
    {
      WriteOneKeeps(world, Now(), channels, c, value, force);
      hide WriteDac, Coherent;
      if !force && c in cache && cache[c] == value { return true; }
      ok := SetChannel(c, value);
      if ok { cache := cache[c := value]; }
      unsure := if ok then unsure - {c} else unsure + {c};
    }

    /** get_hvdac_config. */
    method GetHvdacConfig() returns (config: map<Channel, int>)
      requires Valid()
      modifies this`cache, this`unsure
      ensures Valid() && Now() == Filled(old(Now()), channels) && config == cache && dac == old(dac)
      ensures if old(cache) == map[] then cache == map c | c in channels :: 0 else cache == old(cache)
    {
      FilledKeeps(Now(), channels);
      hide Coherent;
      if cache == map[] {
        cache := map c | c in channels :: 0;
        unsure := unsure + set c | c in channels;
      }
      config := cache;
    }

    /** set_hvdac_config. */
    method SetHvdacConfig(config: map<Channel, int>, force: bool) returns (outcome: Outcome)
      requires Valid()
      modifies this`clock, this`dac, this`cache, this`unsure
      ensures Valid() && Applied(outcome, Now()) == Apply(world, old(Now()), channels, config, force)
    {
      hide Coherent, WriteUpTo;
      var known := HasAll(config);
      if !known { return KeyMissing; }
      var rail := world.railOk(clock);
      ClockIrrelevant(Now(), clock + 1);
      clock := clock + 1;
      if !rail { return RailFailed; }
      var ok := WriteAll(config, force);
      return if ok then Ok else DacFailed;
    }

    lemma ClockIrrelevant(b: Bank, clock: nat)
      ensures Coherent(b.(clock := clock), channels) <==> Coherent(b, channels)
    {
    }

    /** The lookup of every channel's value. */
    method HasAll(config: map<Channel, int>) returns (known: bool)
      ensures known <==> forall c :: c in channels ==> c in config
    {
      var i := 0;
      while i < |channels|
        invariant 0 <= i <= |channels| && forall j :: 0 <= j < i ==> channels[j] in config
      {
        if channels[i] !in config { return false; }
        i := i + 1;
      }
      return true;
    }

    /** The channel writes, stopping at the first that fails. */
    method WriteAll(config: map<Channel, int>, force: bool) returns (ok: bool)
      requires Valid() && forall c :: c in channels ==> c in config
      modifies this`clock, this`dac, this`cache, this`unsure
      ensures Valid() && Step(ok, Now()) == WriteUpTo(world, old(Now()), channels, |channels|, config, force)
    {
      hide Coherent, WriteOne;
      var i := 0;
      while i < |channels|
        invariant 0 <= i <= |channels| && Valid()
        invariant Step(true, Now()) == WriteUpTo(world, old(Now()), channels, i, config, force)
      {
        ok := WriteHvChannel(channels[i], config[channels[i]], force);
        if !ok {
          Stopped(old(Now()), config, force, i + 1, |channels|);
          return false;
        }
        i := i + 1;
      }
      return true;
    }

    lemma {:induction false} Stopped(b: Bank, config: map<Channel, int>, force: bool, i: nat, n: nat)
      requires i <= n <= |channels| && forall c :: c in channels ==> c in config
      requires !WriteUpTo(world, b, channels, i, config, force).ok
      ensures WriteUpTo(world, b, channels, n, config, force) == WriteUpTo(world, b, channels, i, config, force)
      decreases n
    {
      hide WriteOne;
      if i < n { Stopped(b, config, force, i, n - 1); }
    }

    /** The DAC-minimum pass of initializeSystem. */
    method SetAllToMinimum() returns (ok: bool)
      requires Valid()
      modifies this`clock, this`dac, this`cache, this`unsure
      ensures Valid()
      ensures Step(ok, Now()) == WriteUpTo(world, old(Now()), channels, |channels|, map c | c in channels :: 0, true)
      ensures ok ==> forall c :: c in channels ==> AtFloor(Now(), c) && c !in unsure && Cached(Now(), c, 0)
    {
      ghost var start := Now();
      var zeros := map c | c in channels :: 0;
      ok := WriteAll(zeros, true);
      if ok {
        forall c | c in channels
          ensures AtFloor(Now(), c) && c !in unsure && Cached(Now(), c, 0)
        {
          assert channels[..|channels|] == channels;
          WriteUpToFacts(world, start, channels, |channels|, zeros, true, c);
          DacCodeExact(0);
        }
      }
    }

    /** write_config_register(0x0213): the only place where a board's power bits change. */
    method WritePower(b: Board, p: Power)
      requires Valid() && b in power && (p.bias ==> p.fem)
      requires power[b].bias && !p.bias ==> Lowered(Now(), channels)
      modifies this`power, this`fellSafely
      ensures Valid() && power == old(power)[b := p]
    {
      fellSafely := fellSafely && (power[b].bias && !p.bias ==> Lowered(Now(), channels));
      power := power[b := p];
    }

    /** set_bias_power. On touches no DAC. Off first brings every DAC of the crate to the floor through
        the cache and keeps the power bits if that fails. */
    method SetBiasPower(b: Board, on: bool) returns (outcome: Outcome)
      requires Valid() && b in power
      modifies this`clock, this`dac, this`cache, this`unsure, this`power, this`fellSafely
      ensures Valid() && b in power && power == old(power)[b := power[b]]
      ensures outcome == Ok && on ==>
                power[b] == Power(true, true) && Now() == old(if power[b].fem then Now() else Now().(clock := clock + 1))
      ensures on && old(power[b].fem) ==> outcome == Ok
      ensures on && old(!power[b].fem) && world.powerGood(old(clock)) ==> outcome == Ok
      ensures on && old(!power[b].fem) && !world.powerGood(old(clock)) ==>
                var off := BiasOff(world, old(Now().(clock := clock + 1)), channels);
                && Now() == off.bank && outcome == (if off.outcome == Ok then PowerGoodFailed else off.outcome)
                && power[b] == Power(false, off.outcome != Ok)
      ensures !on ==> Applied(outcome, Now()) == BiasOff(world, old(Now()), channels)
      ensures !on ==> power[b] == if outcome == Ok then Power(false, old(power[b].fem)) else old(power[b])
      ensures !on && outcome == Ok ==> Lowered(Now(), channels) && forall c :: c in channels ==> Cached(Now(), c, 0)
      ensures !on && outcome == Ok ==>
                ((forall c :: c in channels ==> AtFloor(Now(), c)) <==>
                 (forall c :: c in channels && SkippedInDoubt(old(Now()), channels, c) ==> AtFloor(old(Now()), c)))
      decreases if on then 3 else 0
    {
      hide Coherent, Apply, Lowered, AtFloor, Cached, SkippedInDoubt;
      var fem := power[b].fem;
      if on {
        if !fem {
          outcome := SetFemPower(b, true);
          if outcome != Ok { return; }
        }
        WritePower(b, Power(true, true));
      } else {
        BiasOffFacts(world, Now(), channels);
        var current := GetHvdacConfig();
        var config := map c | c in current :: 0;
        assert config == Zeros(Now());
        outcome := SetHvdacConfig(config, false);
        if outcome != Ok { return; }
        WritePower(b, Power(false, fem));
      }
      return Ok;
    }

    /** set_fem_power on a board with set_fem_power_original. */
    method SetFemPower(b: Board, on: bool) returns (outcome: Outcome)
      requires Valid() && b in power
      modifies this`clock, this`dac, this`cache, this`unsure, this`power, this`fellSafely
      ensures Valid() && b in power && power == old(power)[b := power[b]]
      ensures on && world.powerGood(old(clock)) ==>
                outcome == Ok && power[b] == Power(old(power[b].bias), true) && Now() == old(Now().(clock := clock + 1))
      ensures on && !world.powerGood(old(clock)) ==>
                var off := BiasOff(world, old(Now().(clock := clock + 1)), channels);
                && Now() == off.bank && outcome == (if off.outcome == Ok then PowerGoodFailed else off.outcome)
                && power[b] == (if off.outcome == Ok then Power(false, false) else Power(old(power[b].bias), true))
      ensures !on ==> Applied(outcome, Now()) == BiasOff(world, old(Now()), channels)
      ensures !on ==> power[b] == if outcome == Ok then Power(false, false) else old(power[b])
      ensures outcome == PowerGoodFailed || (!on && outcome == Ok) ==> Lowered(Now(), channels)
      ensures !on && outcome == Ok ==>
                ((forall c :: c in channels ==> AtFloor(Now(), c)) <==>
                 (forall c :: c in channels && SkippedInDoubt(old(Now()), channels, c) ==> AtFloor(old(Now()), c)))
      decreases if on then 2 else 1
    {
      hide Coherent, BiasOff, Lowered, AtFloor, Cached, SkippedInDoubt;
      var bias := power[b].bias;
      if on {
        WritePower(b, Power(bias, true));
        var good := world.powerGood(clock);
        ClockIrrelevant(Now(), clock + 1);
        clock := clock + 1;
        if !good {
          BiasOffFacts(world, Now(), channels);
          outcome := SetFemPower(b, false);
          if outcome != Ok { return; }
          return PowerGoodFailed;
        }
      } else {
        BiasOffFacts(world, Now(), channels);
        outcome := SetBiasPower(b, false);
        if outcome != Ok { return; }
        WritePower(b, Power(false, false));
      }
      return Ok;
    }
  }

  // ----- A run that switches bias off above the floor -----

  /** The first transfer works, all later ones are garbled and leave v behind. */
  function FailingWorld(v: int): World
  {
    World(k => if k == 0 then Echoed else Garbled(v), k => true, k => true)
  }

  /** From power-up, for every v: initialise, switch bias on, fail to set a voltage, switch bias off.
      The last call reports no error, yet the DAC still holds v. */
  method BiasOffAboveFloor(v: int) returns (crate: Crate, c: Channel, before: Power, failure: Outcome, last: Outcome)
    ensures fresh(crate) && crate.Valid() && crate.channels == [c] && c.board in crate.power
    ensures before == Power(true, true) && failure == DacFailed
    ensures last == Ok && crate.power[c.board] == Power(false, true)
    ensures c in crate.dac && crate.dac[c] == v && Cached(crate.Now(), c, 0)
  {
    var b := Board(0, 0);
    c := Channel(b, 0, 0);
    crate := new Crate([c], map[c := 0], map[b := Power(false, false)], FailingWorld(v));
    var ready := crate.SetAllToMinimum();
    FirstWrite(v, c, map[c := 0]);
    var on := crate.SetBiasPower(b, true);
    before := crate.power[b];
    ghost var start := crate.Now();
    failure := crate.SetHvdacConfig(map[c := 5000], false);
    SecondWrite(v, c, start);
    ghost var stale := crate.Now();
    last := crate.SetBiasPower(b, false);
    ZeroSkipped(v, c, stale);
  }

  lemma OneChannel(w: World, b: Bank, c: Channel, config: map<Channel, int>, force: bool)
    requires c in config
    ensures WriteUpTo(w, b, [c], 1, config, force) == WriteOne(w, b, c, config[c], force)
  {
    assert WriteUpTo(w, b, [c], 0, config, force) == Step(true, b);
  }

  lemma FirstWrite(v: int, c: Channel, dac: map<Channel, int>)
    ensures WriteUpTo(FailingWorld(v), Bank(0, dac, map[], {}), [c], |[c]|, map d | d in [c] :: 0, true)
            == Step(true, Bank(1, dac[c := FLOOR], map[c := 0], {}))
  {
    var zeros := map d | d in [c] :: 0;
    OneChannel(FailingWorld(v), Bank(0, dac, map[], {}), c, zeros, true);
    DacCodeExact(0);
  }

  lemma SecondWrite(v: int, c: Channel, b: Bank)
    requires Cached(b, c, 0)
    ensures Apply(FailingWorld(v), b, [c], map[c := 5000], false)
            == Applied(DacFailed, Bank(b.clock + 3, b.dac[c := v], b.cache, b.unsure + {c}))
  {
    OneChannel(FailingWorld(v), b.(clock := b.clock + 1), c, map[c := 5000], false);
    assert |[c]| == 1;
  }

  lemma ZeroSkipped(v: int, c: Channel, b: Bank)
    requires b.cache == map[c := 0]
    ensures BiasOff(FailingWorld(v), b, [c]) == Applied(Ok, b.(clock := b.clock + 1))
  {
    OneChannel(FailingWorld(v), b.(clock := b.clock + 1), c, Zeros(b), false);
    assert |[c]| == 1;
  }
}
