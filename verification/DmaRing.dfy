/** psdaq_file_read: the driver side of the DMA ring. Pointers run modulo twice the number of
    partitions so that full and empty differ; unbounded counters say which frames are meant. */
module DmaRing {

  const NUM_PARTITION: nat := 32
  const PARTITION_BYTES: nat := 4096 * 8

  /** One DMA partition, as 64-bit words; the first is the frame header. */
  type Partition = p: seq<nat> | |p| > 0 witness [0]

  /** The length field of the header: 15 bits at bit 36. */
  function Nwords(p: Partition): nat
  {
    p[0] / 0x10_0000_0000 % 0x8000
  }

  function FrameBytes(p: Partition): nat
  {
    Nwords(p) * 8
  }

  /** A frame's size: eight bytes for each word counted by the 15-bit field at bit 36 of its header. */
  lemma FrameSize(p: Partition)
    ensures FrameBytes(p) == 8 * (p[0] / 0x10_0000_0000 % 0x8000)
    ensures Fits(p) <==> p[0] / 0x10_0000_0000 % 0x8000 <= 4096
  {
  }

  predicate Fits(p: Partition)
  {
    FrameBytes(p) <= PARTITION_BYTES
  }

  /** Frames number a up to b of what the card produces. */
  function Frames(stream: nat -> Partition, a: nat, b: nat): (fs: seq<Partition>)
    requires a <= b
    ensures |fs| == b - a
  {
    seq(b - a, i requires 0 <= i < b - a => stream(a + i))
  }

  function Bytes(fs: seq<Partition>): nat
  {
    if fs == [] then 0 else Bytes(fs[..|fs| - 1]) + FrameBytes(fs[|fs| - 1])
  }

  /** Two positions at most one ring apart have equal pointers only if they are equal. */
  lemma PointersTell(r: nat, w: nat)
    requires r <= w <= r + NUM_PARTITION
    ensures w % (2 * NUM_PARTITION) == r % (2 * NUM_PARTITION) <==> w == r
  {
  }

  /** How far the card's write pointer is ahead of the read pointer it was given. */
  function Used(rd: nat, wr: nat): nat
  {
    (wr + 2 * NUM_PARTITION - rd % (2 * NUM_PARTITION)) % (2 * NUM_PARTITION)
  }

  lemma UsedPartitions(r: nat, w: nat)
    requires r <= w <= r + NUM_PARTITION
    ensures Used(r % (2 * NUM_PARTITION), w % (2 * NUM_PARTITION)) == w - r
  {
    var x, d := r % 64, w - r;
    assert w % 64 == if x + d < 64 then x + d else x + d - 64;
  }

  /** A pointer is enough to find the slot. */
  lemma SlotOfPointer(r: nat)
    ensures r % (2 * NUM_PARTITION) % NUM_PARTITION == r % NUM_PARTITION
  {
    var q, x := r / 64, r % 64;
    assert r == 32 * (2 * q) + x;
  }

  lemma PointerAdvances(r: nat)
    ensures (r % (2 * NUM_PARTITION) + 1) % (2 * NUM_PARTITION) == (r + 1) % (2 * NUM_PARTITION)
  {
  }

  /** Frames lo up to hi sit in their slots. */
  predicate Holds(buffer: seq<Partition>, stream: nat -> Partition, lo: nat, hi: nat)
  {
    |buffer| == NUM_PARTITION && forall k :: lo <= k < hi ==> buffer[k % NUM_PARTITION] == stream(k)
  }

  /** Filling the next free slot disturbs none of the frames still unread. */
  lemma FillsFreeSlot(buffer: seq<Partition>, stream: nat -> Partition, lo: nat, hi: nat)
    requires lo <= hi < lo + NUM_PARTITION && Holds(buffer, stream, lo, hi)
    ensures Holds(buffer[hi % NUM_PARTITION := stream(hi)], stream, lo, hi + 1)
  {
    forall k | lo <= k < hi
      ensures k % NUM_PARTITION != hi % NUM_PARTITION
    {
    }
  }

  lemma FramesNone(stream: nat -> Partition, a: nat)
    ensures Frames(stream, a, a) == [] && Bytes([]) == 0
  {
  }

  lemma FramesSnoc(stream: nat -> Partition, a: nat, b: nat)
    requires a <= b
    ensures Frames(stream, a, b + 1) == Frames(stream, a, b) + [stream(b)]
  {
  }

  lemma BytesSnoc(fs: seq<Partition>, f: Partition)
    ensures Bytes(fs + [f]) == Bytes(fs) + FrameBytes(f)
  {
    assert (fs + [f])[..|fs|] == fs;
  }

  /** The driver and the card it drives. What the card will produce, and when, are arbitrary. */
  class Device {
    const stream: nat -> Partition
    const schedule: nat -> nat

    // the card
    var buffer: seq<Partition>
    var produced: nat
    var clock: nat

    // the driver
    var dmaWrPointer: nat
    var dmaRdPointer: nat
    var readPointerRegister: nat
    ghost var published: nat    // the position readPointerRegister stands for
    ghost var consumed: nat     // the position dmaRdPointer stands for
    ghost var seen: nat         // the position dmaWrPointer stands for
    ghost var delivered: seq<Partition>

    /** Each pointer is its position modulo twice the ring. */
    ghost predicate PointersMatch()
      reads this
    {
      && dmaRdPointer == consumed % (2 * NUM_PARTITION)
      && dmaWrPointer == seen % (2 * NUM_PARTITION)
      && readPointerRegister == published % (2 * NUM_PARTITION)
    }

    ghost predicate Valid()
      reads this
    {
      && |buffer| == NUM_PARTITION
      && published <= consumed <= seen <= produced <= published + NUM_PARTITION
      && PointersMatch()
      && delivered == Frames(stream, 0, consumed)
      && Holds(buffer, stream, published, produced)
    }

    /** Between reads everything consumed has been published. */
    ghost predicate Idle()
      reads this
    {
      Valid() && published == consumed
    }

    /** psdaq_dev_probe and psdaq_initcard. */
    constructor (stream: nat -> Partition, schedule: nat -> nat)
      ensures Idle() && delivered == [] && this.stream == stream && this.schedule == schedule
    {
      this.stream, this.schedule := stream, schedule;
      buffer := seq(NUM_PARTITION, i => [0]);
      produced, clock := 0, 0;
      dmaWrPointer, dmaRdPointer, readPointerRegister := 0, 0, 0;
      published, consumed, seen, delivered := 0, 0, 0, [];
    }

    /** The card runs for a moment: it fills as many free partitions as its schedule says. */
    method Tick()
      requires Valid()
      modifies this`buffer, this`produced, this`clock
      ensures Valid() && produced >= old(produced) && clock == old(clock) + 1
      ensures produced == if old(produced) + schedule(old(clock)) <= published + 32 then old(produced) + schedule(old(clock)) else published + 32
    {
      hide Holds, Used, Frames;
      var n := schedule(clock);
      clock := clock + 1;
      UsedPartitions(published, produced);
      while n > 0 && Used(readPointerRegister, produced % (2 * NUM_PARTITION)) < NUM_PARTITION
        invariant Used(readPointerRegister, produced % (2 * NUM_PARTITION)) == produced - published
        invariant Valid() && produced >= old(produced) && clock == old(clock) + 1
        invariant produced + n == old(produced) + schedule(old(clock))
        decreases n
      {
        FillsFreeSlot(buffer, stream, published, produced);
        buffer := buffer[produced % NUM_PARTITION := stream(produced)];
        produced := produced + 1;
        n := n - 1;
        UsedPartitions(published, produced);
      }
    }

    /** READ_BAR0_REG(29): the card's write pointer. */
    method ReadWritePointer()
      requires Valid()
      modifies this`buffer, this`produced, this`clock, this`dmaWrPointer, this`seen
      ensures Valid() && seen == produced && produced >= old(produced) && clock == old(clock) + 1
    {
      Tick();
      dmaWrPointer := produced % (2 * NUM_PARTITION);
      seen := produced;
    }

    /** WRITE_BAR0_REG(29, dma_rd_pointer). */
    method PublishReadPointer()
      requires Valid()
      modifies this`published, this`readPointerRegister
      ensures Idle() && readPointerRegister == dmaRdPointer
    {
      readPointerRegister := dmaRdPointer;
      published := consumed;
    }

    /** Wait while the ring looks empty, polling at most nine times. */
    method WaitForData() returns (empty: bool)
      requires Valid()
      modifies this`buffer, this`produced, this`clock, this`dmaWrPointer, this`seen
      ensures Valid() && empty == (seen == consumed) && (old(produced) > consumed ==> !empty)
      ensures produced >= old(produced) && (old(seen > consumed) ==> seen == old(seen))
      ensures clock <= old(clock) + 9 && (empty ==> clock == old(clock) + 9)
    {
      var i := 0;
      PointersTell(consumed, seen);
      while dmaWrPointer == dmaRdPointer
        invariant Valid() && 0 <= i <= 9 && produced >= old(produced) && (i > 0 ==> seen >= old(produced))
        invariant dmaWrPointer == dmaRdPointer <==> seen == consumed
        invariant old(seen > consumed) ==> seen == old(seen)
        invariant clock == old(clock) + i
        decreases 10 - i
      {
        i := i + 1;
        if i >= 10 { return true; }
        ReadWritePointer();
        PointersTell(consumed, seen);
      }
      return false;
    }

    lemma NothingRead()
      requires Idle()
      ensures readPointerRegister == dmaRdPointer
    {
    }

    /** Copy the next frame to the user, or fault. */
    method CopyFrame(fault: bool) returns (frame: Partition)
      requires Valid() && consumed < seen
      modifies this`buffer, this`produced, this`clock, this`dmaRdPointer, this`consumed, this`delivered
      ensures Valid() && frame == stream(old(consumed))
      ensures if fault then consumed == old(consumed) && delivered == old(delivered)
              else consumed == old(consumed) + 1 && delivered == old(delivered) + [frame]
      ensures produced >= old(produced) && (dmaWrPointer == dmaRdPointer <==> seen == consumed)
    {
      Tick();
      FramesSnoc(stream, 0, consumed);
      SlotOfPointer(consumed);
      PointerAdvances(consumed);
      var offset := dmaRdPointer % NUM_PARTITION;
      frame := buffer[offset];
      if !fault {
        dmaRdPointer := (dmaRdPointer + 1) % (2 * NUM_PARTITION);
        delivered := delivered + [frame];
        consumed := consumed + 1;
      }
      PointersTell(consumed, seen);
    }

    /** psdaq_file_read: fault(k) says whether copying the k-th frame of this call faults.
        The frames handed over are the next ones of the stream, none lost or repeated, whatever
        the card does meanwhile; every return publishes the read pointer; a call that finds data
        and room delivers or faults; and the byte count stays within the request unless the last
        frame is longer than its partition. */
    method Read(count: nat, fault: nat -> bool) returns (ok: bool, n: nat, frames: seq<Partition>)
      requires Idle()
      modifies this
      ensures Idle() && readPointerRegister == dmaRdPointer
      ensures consumed >= old(consumed) && frames == Frames(stream, old(consumed), consumed)
      ensures delivered == old(delivered) + frames && n == Bytes(frames)
      ensures (forall k :: 0 <= k < |frames| ==> !fault(k)) && (!ok ==> fault(|frames|) && consumed < produced)
      ensures ok && count >= PARTITION_BYTES && old(produced > consumed) ==> frames != []
      ensures n <= count || (frames != [] && !Fits(frames[|frames| - 1]))
      ensures ok ==> consumed == seen || n + 32768 > count
    {
      hide Holds, Frames, Bytes, FrameBytes, PointersMatch;
      n, frames, ok := 0, [], true;
      FramesNone(stream, consumed);
      ghost var first := true;
      while n < count
        invariant Valid() && ok && published == old(published) && consumed >= old(consumed) && produced >= old(produced)
        invariant frames == Frames(stream, old(consumed), consumed) && delivered == old(delivered) + frames
        invariant n == Bytes(frames) && forall k :: 0 <= k < |frames| ==> !fault(k)
        invariant n <= count || (frames != [] && !Fits(frames[|frames| - 1]))
        invariant first ==> frames == [] && consumed == old(consumed)
        invariant !first ==> consumed < seen && frames != []
        decreases first, seen - consumed
      {
        if n + PARTITION_BYTES > count { break; }
        var empty := WaitForData();
        if empty {
          NothingRead();
          return;
        }
        first := false;
        var faulted := fault(|frames|);
        FramesSnoc(stream, old(consumed), consumed);
        var frame := CopyFrame(faulted);
        if faulted {
          ok := false;
          break;
        }
        BytesSnoc(frames, frame);
        n := n + FrameBytes(frame);
        frames := frames + [frame];
        if dmaWrPointer == dmaRdPointer { break; }
      }
      PublishReadPointer();
    }
  }
}
