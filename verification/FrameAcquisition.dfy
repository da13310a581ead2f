/** Connection.acquire: consuming data frames from the ring that daqd fills in shared memory.
    The ring has bs slots and its pointers run modulo 2*bs. */
module FrameAcquisition {

  /** Frame identifiers number a up to b of a stream of consecutive identifiers. */
  function Ids(firstId: int, a: nat, b: nat): (ids: seq<int>)
    requires a <= b
    ensures |ids| == b - a
  {
    seq(b - a, i => firstId + a + i)
  }

  lemma IdsJoin(firstId: int, a: nat, b: nat, c: nat)
    requires a <= b <= c
    ensures Ids(firstId, a, c) == Ids(firstId, a, b) + Ids(firstId, b, c)
  {
  }

  // ----- Pointers modulo 2*bs -----

  lemma MulAtLeast(n: int, k: int, m: int)
    requires n >= k && m >= 0
    ensures n * m >= k * m
  {
    assert (n - k) * m >= 0;
    assert n * m == (n - k) * m + k * m;
  }

  /** A multiple of m strictly between -m and m is zero. */
  lemma SmallMultiple(d: int, m: int)
    requires -m < d * m < m
    ensures d == 0
  {
    if d >= 1 {
      MulAtLeast(d, 1, m);
      assert false;
    } else if d <= -1 {
      MulAtLeast(-d, 1, m);
      assert false;
    }
  }

  lemma ModShift(x: int, q: int, m: int)
    requires m > 0 && 0 <= x < m
    ensures (q * m + x) % m == x
  {
    var v := q * m + x;
    var d := v / m - q;
    assert v == (v / m) * m + v % m;
    assert d * m == (v / m) * m - q * m;
    SmallMultiple(d, m);
  }

  /** The quotients of two positions at most one ring apart differ by at most one. */
  lemma Laps(r: nat, w: nat, bs: nat) returns (lap: bool)
    requires bs >= 1 && r <= w <= r + bs
    ensures w % (2 * bs) - r % (2 * bs) == w - r - if lap then 2 * bs else 0
  {
    var m := 2 * bs;
    var d := w / m - r / m;
    assert r == (r / m) * m + r % m && w == (w / m) * m + w % m;
    assert d * m == (w / m) * m - (r / m) * m;
    LapCount(d, m);
    lap := d == 1;
  }

  lemma LapCount(d: int, m: int)
    requires m > 0 && -m < d * m < 2 * m
    ensures d == 0 || d == 1
  {
    if d >= 2 {
      MulAtLeast(d, 2, m);
      assert false;
    } else if d <= -1 {
      MulAtLeast(-d, 1, m);
      assert false;
    }
  }

  lemma PointersTell(r: nat, w: nat, bs: nat)
    requires bs >= 1 && r <= w <= r + bs
    ensures w % (2 * bs) == r % (2 * bs) <==> w == r
  {
    var lap := Laps(r, w, bs);
  }

  /** The frame count computed from the two pointers: their distance, folded at bs. */
  function Distance(wr: nat, rd: nat, bs: nat): int
  {
    var d := if wr >= rd then wr - rd else rd - wr;
    if d > bs then 2 * bs - d else d
  }

  lemma DistanceIsAvailable(r: nat, w: nat, bs: nat)
    requires bs >= 1 && r <= w <= r + bs
    ensures Distance(w % (2 * bs), r % (2 * bs), bs) == w - r
  {
    var lap := Laps(r, w, bs);
  }

  lemma PointerPlus(r: nat, n: nat, m: nat)
    requires m >= 1
    ensures (r % m + n) % m == (r + n) % m
  {
    var x, k := (r % m + n) % m, (r % m + n) / m;
    assert r == (r / m) * m + r % m;
    assert r % m + n == k * m + x;
    assert (r / m) * m + k * m == (r / m + k) * m;
    ModShift(x, r / m + k, m);
  }

  lemma SlotOfPointer(r: nat, bs: nat)
    requires bs >= 1
    ensures r % (2 * bs) % bs == r % bs
  {
    var m := 2 * bs;
    var y := r % m;
    assert r == (r / m) * m + y && y == (y / bs) * bs + y % bs;
    assert (r / m) * m == (2 * (r / m)) * bs;
    assert (2 * (r / m)) * bs + (y / bs) * bs == (2 * (r / m) + y / bs) * bs;
    ModShift(y % bs, 2 * (r / m) + y / bs, bs);
  }

  lemma SlotBefore(r: nat, bs: nat)
    requires bs >= 1 && r >= 1
    ensures (r % (2 * bs) + bs - 1) % bs == (r - 1) % bs
  {
    var p := r % (2 * bs);
    SlotOfPointer(r, bs);
    PointerPlus(p, bs - 1, bs);
    PointerPlus(r, bs - 1, bs);
    assert (p + (bs - 1)) % bs == (r + (bs - 1)) % bs;
    var x := (r - 1) % bs;
    assert r - 1 == ((r - 1) / bs) * bs + x;
    assert ((r - 1) / bs) * bs + bs == ((r - 1) / bs + 1) * bs;
    ModShift(x, (r - 1) / bs + 1, bs);
  }

  lemma SlotsDiffer(k: nat, hi: nat, bs: nat)
    requires bs >= 1 && k < hi < k + bs
    ensures k % bs != hi % bs
  {
    if k % bs == hi % bs {
      var d := hi / bs - k / bs;
      assert hi == (hi / bs) * bs + hi % bs && k == (k / bs) * bs + k % bs;
      assert d * bs == (hi / bs) * bs - (k / bs) * bs;
      SmallMultiple(d, bs);
    }
  }

  // ----- The ring -----

  predicate Holds(slots: seq<int>, firstId: int, bs: nat, lo: nat, hi: nat)
  {
    |slots| == bs && bs >= 1 && forall k :: lo <= k < hi ==> slots[k % bs] == firstId + k
  }

  lemma FillsFreeSlot(slots: seq<int>, firstId: int, bs: nat, lo: nat, hi: nat)
    requires lo <= hi < lo + bs && Holds(slots, firstId, bs, lo, hi)
    ensures Holds(slots[hi % bs := firstId + hi], firstId, bs, lo, hi + 1)
  {
    var s := slots[hi % bs := firstId + hi];
    forall k | lo <= k < hi + 1
      ensures s[k % bs] == firstId + k
    {
      if k < hi { SlotsDiffer(k, hi, bs); }
    }
  }

  datatype Outcome = Completed | AcquisitionStopped

  /** daqd and its shared memory: which frames it emits, and when, is arbitrary. */
  class Daqd {
    const bs: nat
    const firstId: int
    const schedule: nat -> nat
    var slots: seq<int>
    var produced: nat
    var readPointer: nat
    var clock: nat
    ghost var published: nat

    ghost predicate Valid()
      reads this
    {
      && bs >= 1 && Holds(slots, firstId, bs, published, produced)
      && published <= produced <= published + bs && readPointer == published % (2 * bs)
    }

    /** An empty ring. */
    constructor (bs: nat, firstId: int, schedule: nat -> nat)
      requires bs >= 1
      ensures Valid() && published == produced == 0 && this.bs == bs && this.firstId == firstId
    {
      this.bs, this.firstId, this.schedule := bs, firstId, schedule;
      slots := seq(bs, i => 0);
      produced, readPointer, clock, published := 0, 0, 0, 0;
    }

    /** daqd emits at least one frame whenever it runs and has room. */
    ghost predicate Steady()
    {
      forall t :: schedule(t) >= 1
    }

    /** daqd runs for a moment and fills free slots. */
    method Tick()
      requires Valid()
      modifies this`slots, this`produced, this`clock
      ensures Valid() && produced >= old(produced) && (Steady() ==> produced > published)
      ensures produced == if old(produced) + schedule(old(clock)) <= published + bs then old(produced) + schedule(old(clock)) else published + bs
    {
      hide Holds, Distance;
      var n := schedule(clock);
      clock := clock + 1;
      DistanceIsAvailable(published, produced, bs);
      while n > 0 && Distance(produced % (2 * bs), readPointer, bs) < bs
        invariant Valid() && produced >= old(produced)
        invariant n == 0 && Steady() ==> produced > published
        invariant produced + n == old(produced) + schedule(old(clock))
        invariant Distance(produced % (2 * bs), readPointer, bs) == produced - published
        decreases n
      {
        FillsFreeSlot(slots, firstId, bs, published, produced);
        SlotInRange(produced);
        slots := slots[produced % bs := firstId + produced];
        produced := produced + 1;
        n := n - 1;
        DistanceIsAvailable(published, produced, bs);
      }
    }

    lemma SlotInRange(k: nat)
      requires Valid()
      ensures 0 <= k % bs < |slots|
    {
    }

    /** The value of the frame identifier at a slot. */
    method FrameId(index: nat, ghost k: nat) returns (id: int)
      requires Valid() && index == k % bs && published <= k < produced
      ensures id == firstId + k
    {
      SlotInRange(k);
      id := slots[index];
    }

    /** write_raw: read the frames between the two pointers while daqd keeps running. */
    method ConsumeBlock(rd: nat, wr: nat, ghost hi: nat) returns (ids: seq<int>, rdPointer: nat)
      requires Valid() && published <= hi <= produced
      requires rd == published % (2 * bs) && wr == hi % (2 * bs)
      modifies this`slots, this`produced, this`clock
      ensures Valid() && produced >= old(produced)
      ensures ids == Ids(firstId, published, hi) && rdPointer == wr
    {
      hide Holds;
      ids, rdPointer := [], rd;
      ghost var at := published;
      PointersTell(at, hi, bs);
      while rdPointer != wr
        invariant Valid() && produced >= old(produced) && published <= at <= hi <= produced
        invariant rdPointer == at % (2 * bs) && ids == Ids(firstId, published, at)
        invariant rdPointer == wr <==> at == hi
        decreases hi - at
      {
        Tick();
        SlotOfPointer(at, bs);
        var id := FrameId(rdPointer % bs, at);
        IdsJoin(firstId, published, at, at + 1);
        ids := ids + [id];
        PointerPlus(at, 1, 2 * bs);
        rdPointer := (rdPointer + 1) % (2 * bs);
        at := at + 1;
        PointersTell(at, hi, bs);
      }
    }

    /** One block: how many frames to hand to the writer, given how many are still wanted. */
    method AcquireBlock(wanted: nat) returns (ids: seq<int>, currentFrame: int)
      requires Valid() && bs >= 2 && produced > published && wanted >= 1
      modifies this
      ensures Valid() && old(published) < published <= old(produced)
      ensures published - old(published) <= bs / 2 && published - old(published) <= wanted
      ensures published == old(produced) || published == old(published) + wanted || published == old(published) + bs / 2
      ensures ids == Ids(firstId, old(published), published) && currentFrame == firstId + published - 1
    {
      hide Holds, Distance;
      DistanceIsAvailable(published, produced, bs);
      var nFramesInBlock := Distance(produced % (2 * bs), readPointer, bs);
      if nFramesInBlock > wanted { nFramesInBlock := wanted; }
      if nFramesInBlock > bs / 2 { nFramesInBlock := bs / 2; }
      var wrPointer := (readPointer + nFramesInBlock) % (2 * bs);
      ghost var hi := published + nFramesInBlock;
      PointerPlus(published, nFramesInBlock, 2 * bs);
      var rdPointer;
      ids, rdPointer := ConsumeBlock(readPointer, wrPointer, hi);
      SlotBefore(hi, bs);
      currentFrame := FrameId((rdPointer + bs - 1) % bs, hi - 1);
      HoldsFrom(slots, firstId, bs, published, hi, produced);
      readPointer := rdPointer;
      published := hi;
    }

    /** The blocks that mark the start and the end of a step: equal pointers, so the writer reads
        nothing and returns the read pointer. */
    method StepBlock()
      requires Valid()
      modifies this`slots, this`produced, this`clock, this`readPointer
      ensures Valid() && produced >= old(produced) && readPointer == old(readPointer)
    {
      hide Holds;
      var ids, rdPointer := ConsumeBlock(readPointer, readPointer, published);
      assert ids == [];
      readPointer := rdPointer;
    }

    /** Wait until the two pointers differ; daqd answers at most `polls` queries before it reports
        that acquisition has stopped. */
    method Await(polls: nat) returns (more: bool, left: nat)
      requires Valid()
      modifies this`slots, this`produced, this`clock
      ensures Valid() && left <= polls && (more ==> produced > published && left < polls)
      ensures !more ==> left == 0
      ensures Steady() && polls > 0 ==> more && left == polls - 1
    {
      hide Holds;
      left := polls;
      while left > 0
        invariant Valid() && left <= polls && (Steady() ==> left == polls)
      {
        left := left - 1;
        Tick();
        PointersTell(published, produced, bs);
        if produced % (2 * bs) != readPointer { return true, left; }
      }
      return false, 0;
    }

    /** acquire: for every schedule of the producer, a completed acquisition has handed over every
        frame from startFrame to startFrame + nRequiredFrames inclusive, each once and in order, in
        blocks of at most bs/2, without ever passing the producer; an acquisition that daqd stopped
        has handed over a shorter run of the same frames. With a steady producer it completes within
        nRequiredFrames + 2 queries. */
    method Acquire(nRequiredFrames: nat, polls: nat) returns (outcome: Outcome, frames: seq<int>, blocks: seq<nat>)
      requires Valid() && bs >= 2
      modifies this
      ensures Valid() && published >= old(published)
      ensures frames == Ids(firstId, old(published), published)
      ensures forall i :: 0 <= i < |blocks| ==> 1 <= blocks[i] <= bs / 2
      ensures outcome == Completed ==> |frames| == if nRequiredFrames == 0 then 0 else nRequiredFrames + 1
      ensures outcome == AcquisitionStopped ==> |frames| <= nRequiredFrames
      ensures Steady() && polls >= nRequiredFrames + 2 ==> outcome == Completed
    {
      hide Holds;
      frames, blocks := [], [];
      var more: bool, left: nat := Await(polls);
      if !more { return AcquisitionStopped, frames, blocks; }
      SlotOfPointer(published, bs);
      var startFrame := FrameId(readPointer % bs, published);
      var stopFrame := startFrame + nRequiredFrames;
      StepBlock();
      var currentFrame := startFrame;
      while currentFrame < stopFrame
        invariant Valid() && published >= old(published) && frames == Ids(firstId, old(published), published)
        invariant currentFrame == if frames == [] then startFrame else firstId + published - 1
        invariant startFrame == firstId + old(published) && stopFrame == startFrame + nRequiredFrames
        invariant frames != [] ==> currentFrame <= stopFrame && nRequiredFrames >= 1
        invariant forall i :: 0 <= i < |blocks| ==> 1 <= blocks[i] <= bs / 2
        invariant |blocks| <= |frames| && (Steady() && polls >= nRequiredFrames + 2 ==> left + |blocks| + 1 == polls)
        decreases left
      {
        more, left := Await(left);
        if !more { return AcquisitionStopped, frames, blocks; }
        ghost var from := published;
        var ids;
        ids, currentFrame := AcquireBlock(stopFrame - currentFrame);
        IdsJoin(firstId, old(published), from, published);
        frames := frames + ids;
        blocks := blocks + [|ids|];
      }
      StepBlock();
      return Completed, frames, blocks;
    }
  }

  lemma HoldsFrom(slots: seq<int>, firstId: int, bs: nat, lo: nat, mid: nat, hi: nat)
    requires lo <= mid && Holds(slots, firstId, bs, lo, hi)
    ensures Holds(slots, firstId, bs, mid, hi)
  {
  }
}
