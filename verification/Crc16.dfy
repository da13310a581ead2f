/** The bit-serial CRC of GRAMS_TOF_CommandCodec (polynomial 0x8408, least significant
    bit first, initial value 0, no final complement) and what it detects. */
module Crc16 {
  import opened Prelude
  import opened Bytes

  const POLY: nat := 0x8408

  /** Exclusive or of two unsigned integers of any width. */
  function Xor(a: nat, b: nat): nat
  {
    if a == 0 && b == 0 then 0 else (if a % 2 == b % 2 then 0 else 1) + 2 * Xor(a / 2, b / 2)
  }

  /** Bit j of an unsigned integer. */
  predicate Bit(a: nat, j: nat)
  {
    if j == 0 then a % 2 == 1 else Bit(a / 2, j - 1)
  }

  lemma {:induction false} XorBit(a: nat, b: nat, j: nat)
    ensures Bit(Xor(a, b), j) == (Bit(a, j) != Bit(b, j))
    decreases j
  {
    XorHalf(a, b);
    if j > 0 { XorBit(a / 2, b / 2, j - 1); }
  }

  lemma XorHalf(a: nat, b: nat)
    ensures Xor(a, b) % 2 == if a % 2 == b % 2 then 0 else 1
    ensures Xor(a, b) / 2 == Xor(a / 2, b / 2)
  {
  }

  lemma {:induction false} XorComm(a: nat, b: nat)
    ensures Xor(a, b) == Xor(b, a)
    decreases a + b
  {
    if a != 0 || b != 0 { XorComm(a / 2, b / 2); }
  }

  lemma {:induction false} XorZero(a: nat)
    ensures Xor(a, 0) == a && Xor(0, a) == a
  {
    if a != 0 { XorZero(a / 2); }
  }

  lemma {:induction false} XorAssoc(a: nat, b: nat, c: nat)
    ensures Xor(Xor(a, b), c) == Xor(a, Xor(b, c))
    decreases a + b + c
  {
    if a != 0 || b != 0 || c != 0 {
      var l, r := Xor(Xor(a, b), c), Xor(a, Xor(b, c));
      assert l / 2 == r / 2 by {
        XorHalf(a, b);
        XorHalf(b, c);
        XorHalf(Xor(a, b), c);
        XorHalf(a, Xor(b, c));
        XorAssoc(a / 2, b / 2, c / 2);
      }
      assert l % 2 == r % 2 by {
        XorHalf(a, b);
        XorHalf(b, c);
        XorHalf(Xor(a, b), c);
        XorHalf(a, Xor(b, c));
      }
    }
  }

  lemma {:induction false} XorCancels(a: nat, b: nat)
    ensures Xor(a, b) == 0 <==> a == b
    decreases a + b
  {
    if a != 0 || b != 0 { XorCancels(a / 2, b / 2); }
  }

  /** (a ^ b) ^ (c ^ d) == (a ^ c) ^ (b ^ d) */
  lemma XorSwap(a: nat, b: nat, c: nat, d: nat)
    ensures Xor(Xor(a, b), Xor(c, d)) == Xor(Xor(a, c), Xor(b, d))
  {
    XorAssoc(a, b, Xor(c, d));
    XorAssoc(b, c, d);
    XorComm(b, c);
    XorAssoc(c, b, d);
    XorAssoc(a, c, Xor(b, d));
  }

  lemma {:induction false} XorBelow(a: nat, b: nat, n: nat)
    requires a < Pow2(n) && b < Pow2(n)
    ensures Xor(a, b) < Pow2(n)
    decreases n
  {
    if n > 0 && (a != 0 || b != 0) { XorBelow(a / 2, b / 2, n - 1); }
  }

  /** One pass of the inner loop: shift right, feed the polynomial back. */
  function Clock(c: nat): nat
  {
    if c % 2 == 1 then Xor(c / 2, POLY) else c / 2
  }

  function Clocks(c: nat, n: nat): nat
    decreases n
  {
    if n == 0 then c else Clocks(Clock(c), n - 1)
  }

  lemma Pow2Of16()
    ensures Pow2(8) == 0x100 && Pow2(15) == 0x8000 && Pow2(16) == 0x1_0000
  {
    assert Pow2(4) == 16;
    assert Pow2(8) == 256;
    assert Pow2(12) == 4096;
    assert Pow2(16) == 0x1_0000;
  }

  lemma ClockBelow(c: nat)
    requires c < 0x1_0000
    ensures Clock(c) < 0x1_0000
  {
    Pow2Of16();
    XorBelow(c / 2, POLY, 16);
  }

  lemma {:induction false} ClocksBelow(c: nat, n: nat)
    requires c < 0x1_0000
    ensures Clocks(c, n) < 0x1_0000
    decreases n
  {
    if n > 0 {
      ClockBelow(c);
      ClocksBelow(Clock(c), n - 1);
    }
  }

  /** The register after one byte. */
  function ByteStep(c: nat, b: byte): nat
  {
    Clocks(Xor(c, b), 8)
  }

  function CrcFrom(c: nat, data: seq<byte>): nat
    decreases |data|
  {
    if data == [] then c else CrcFrom(ByteStep(c, data[0]), data[1..])
  }

  lemma {:induction false} CrcFromBelow(c: nat, data: seq<byte>)
    requires c < 0x1_0000
    ensures CrcFrom(c, data) < 0x1_0000
    decreases |data|
  {
    if data != [] {
      Pow2Of16();
      XorBelow(c, data[0], 16);
      ClocksBelow(Xor(c, data[0]), 8);
      CrcFromBelow(ByteStep(c, data[0]), data[1..]);
    }
  }

  function Crc(data: seq<byte>): word16
  {
    CrcFromBelow(0, data);
    CrcFrom(0, data)
  }

  /** computeCRC16_CCITT_8408. */
  method ComputeCrc(data: seq<byte>) returns (crc: word16)
    ensures crc == Crc(data)
  {
    var c: nat := 0;
    var i := 0;
    while i < |data|
      invariant 0 <= i <= |data|
      invariant CrcFrom(c, data[i..]) == CrcFrom(0, data)
    {
      var entry := c;
      c := Xor(c, data[i]);
      var j := 0;
      while j < 8
        invariant 0 <= j <= 8
        invariant Clocks(c, 8 - j) == ByteStep(entry, data[i])
      {
        if c % 2 == 1 { c := Xor(c / 2, POLY); } else { c := c / 2; }
        j := j + 1;
      }
      assert data[i..][1..] == data[i + 1..];
      i := i + 1;
    }
    CrcFromBelow(0, data);
    crc := c;
  }

  // ----- Linearity over exclusive or -----

  lemma ClockParts(x: nat, y: nat, q: nat)
    ensures Xor(Xor(x, q), Xor(y, q)) == Xor(x, y)
    ensures Xor(Xor(x, q), y) == Xor(Xor(x, y), q) == Xor(x, Xor(y, q))
  {
    XorSwap(x, q, y, q);
    XorCancels(q, q);
    XorZero(Xor(x, y));
    XorAssoc(x, y, q);
    XorAssoc(x, q, y);
    XorComm(y, q);
  }

  lemma ClockLinear(a: nat, b: nat)
    ensures Clock(Xor(a, b)) == Xor(Clock(a), Clock(b))
  {
    XorHalf(a, b);
    ClockParts(a / 2, b / 2, POLY);
  }

  lemma {:induction false} ClocksLinear(a: nat, b: nat, n: nat)
    ensures Clocks(Xor(a, b), n) == Xor(Clocks(a, n), Clocks(b, n))
    decreases n
  {
    if n > 0 {
      ClockLinear(a, b);
      ClocksLinear(Clock(a), Clock(b), n - 1);
    }
  }

  function XorByte(a: byte, b: byte): (r: byte)
    ensures r == Xor(a, b)
  {
    Pow2Of16();
    XorBelow(a, b, 8);
    Xor(a, b)
  }

  /** Byte-wise exclusive or: the damage that turns a into b. */
  function XorBytes(a: seq<byte>, b: seq<byte>): (r: seq<byte>)
    requires |a| == |b|
    ensures |r| == |a|
  {
    seq(|a|, i requires 0 <= i < |a| => XorByte(a[i], b[i]))
  }

  lemma {:induction false} CrcLinear(c: nat, d: nat, a: seq<byte>, b: seq<byte>)
    requires |a| == |b|
    ensures CrcFrom(Xor(c, d), XorBytes(a, b)) == Xor(CrcFrom(c, a), CrcFrom(d, b))
    decreases |a|
  {
    if a != [] {
      var m := XorBytes(a, b);
      assert m[1..] == XorBytes(a[1..], b[1..]);
      XorSwap(c, d, a[0], b[0]);
      ClocksLinear(Xor(c, a[0]), Xor(d, b[0]), 8);
      CrcLinear(ByteStep(c, a[0]), ByteStep(d, b[0]), a[1..], b[1..]);
    }
  }

  // ----- The same register fed bit by bit -----

  /** The little-endian integer spelt by a bit list. */
  function Word(bits: seq<bool>): nat
  {
    if bits == [] then 0 else BitValue(bits[0]) + 2 * Word(bits[1..])
  }

  function Feed(c: nat, bits: seq<bool>): nat
    decreases |bits|
  {
    if bits == [] then c else Feed(Clock(Xor(c, BitValue(bits[0]))), bits[1..])
  }

  lemma XorLowBit(w: nat, low: nat)
    requires low < 2
    ensures Xor(low, 2 * w) == low + 2 * w
  {
    XorZero(w);
  }

  lemma ClockEven(w: nat)
    ensures Clock(2 * w) == w
  {
  }

  /** Feeding n bits is exclusive-oring their word and clocking n times. */
  lemma {:induction false} FeedIsClocks(c: nat, bits: seq<bool>)
    ensures Feed(c, bits) == Clocks(Xor(c, Word(bits)), |bits|)
    decreases |bits|
  {
    hide Xor, Clock;
    if bits == [] {
      XorZero(c);
    } else {
      var low, rest := BitValue(bits[0]), Word(bits[1..]);
      XorLowBit(rest, low);
      XorAssoc(c, low, 2 * rest);
      ClockLinear(Xor(c, low), 2 * rest);
      ClockEven(rest);
      FeedIsClocks(Clock(Xor(c, low)), bits[1..]);
    }
  }

  lemma {:induction false} FeedConcat(c: nat, a: seq<bool>, b: seq<bool>)
    ensures Feed(c, a + b) == Feed(Feed(c, a), b)
    decreases |a|
  {
    if a == [] {
      assert a + b == b;
    } else {
      assert (a + b)[1..] == a[1..] + b;
      FeedConcat(Clock(Xor(c, BitValue(a[0]))), a[1..], b);
    }
  }

  function BitsOf(w: nat, n: nat): (bits: seq<bool>)
    ensures |bits| == n
    ensures forall j :: 0 <= j < n ==> bits[j] == Bit(w, j)
  {
    seq(n, j requires 0 <= j < n => Bit(w, j))
  }

  lemma {:induction false} WordOfBits(w: nat, n: nat)
    requires w < Pow2(n)
    ensures Word(BitsOf(w, n)) == w
    decreases n
  {
    if n > 0 {
      WordOfBits(w / 2, n - 1);
      assert BitsOf(w, n)[1..] == BitsOf(w / 2, n - 1);
    }
  }

  /** All bits of a message, least significant bit of each byte first. */
  function MessageBits(data: seq<byte>): (bits: seq<bool>)
    ensures |bits| == 8 * |data|
  {
    if data == [] then [] else BitsOf(data[0], 8) + MessageBits(data[1..])
  }

  predicate BitAt(data: seq<byte>, k: nat)
    requires k < 8 * |data|
  {
    Bit(data[k / 8], k % 8)
  }

  lemma {:induction false} MessageBitsAt(data: seq<byte>, k: nat)
    requires k < 8 * |data|
    ensures MessageBits(data)[k] == BitAt(data, k)
    decreases |data|
  {
    if k >= 8 {
      MessageBitsAt(data[1..], k - 8);
      assert (k - 8) / 8 == k / 8 - 1 && (k - 8) % 8 == k % 8;
    }
  }

  lemma {:induction false} CrcIsFeed(c: nat, data: seq<byte>)
    ensures CrcFrom(c, data) == Feed(c, MessageBits(data))
    decreases |data|
  {
    if data != [] {
      Pow2Of16();
      WordOfBits(data[0], 8);
      FeedIsClocks(c, BitsOf(data[0], 8));
      FeedConcat(c, BitsOf(data[0], 8), MessageBits(data[1..]));
      CrcIsFeed(ByteStep(c, data[0]), data[1..]);
    }
  }

  // ----- Burst detection -----

  lemma ClockKeepsNonzero(c: nat)
    requires 0 < c < 0x1_0000
    ensures 0 < Clock(c) < 0x1_0000
  {
    ClockBelow(c);
    if c % 2 == 1 { XorCancels(c / 2, POLY); }
  }

  lemma {:induction false} ClocksKeepNonzero(c: nat, n: nat)
    requires 0 < c < 0x1_0000
    ensures 0 < Clocks(c, n) < 0x1_0000
    decreases n
  {
    if n > 0 {
      ClockKeepsNonzero(c);
      ClocksKeepNonzero(Clock(c), n - 1);
    }
  }

  lemma {:induction false} WordOfZeros(bits: seq<bool>)
    requires forall j :: 0 <= j < |bits| ==> !bits[j]
    ensures Word(bits) == 0
  {
    if bits != [] { WordOfZeros(bits[1..]); }
  }

  lemma {:induction false} WordBounds(bits: seq<bool>)
    ensures Word(bits) < Pow2(|bits|)
    ensures (exists j :: 0 <= j < |bits| && bits[j]) ==> Word(bits) > 0
  {
    if bits != [] {
      WordBounds(bits[1..]);
      if Word(bits[1..]) == 0 {
        assert forall j :: 0 <= j < |bits[1..]| ==> !bits[1..][j];
        assert forall j :: 1 <= j < |bits| ==> bits[j] == bits[1..][j - 1];
      }
    }
  }

  /** A nonzero pattern of at most 16 bits, preceded and followed by zeros, leaves a nonzero register. */
  lemma BurstFeed(before: seq<bool>, burst: seq<bool>, after: seq<bool>)
    requires forall j :: 0 <= j < |before| ==> !before[j]
    requires forall j :: 0 <= j < |after| ==> !after[j]
    requires |burst| <= 16 && exists j :: 0 <= j < |burst| && burst[j]
    ensures Feed(0, before + burst + after) != 0
  {
    FeedConcat(0, before + burst, after);
    FeedConcat(0, before, burst);
    WordOfZeros(before);
    FeedIsClocks(0, before);
    ClocksOfZero(|before|);
    FeedIsClocks(0, burst);
    XorZero(Word(burst));
    WordBounds(burst);
    Pow2Monotone(|burst|, 16);
    Pow2Of16();
    ClocksKeepNonzero(Word(burst), |burst|);
    var c := Feed(0, before + burst);
    WordOfZeros(after);
    FeedIsClocks(c, after);
    XorZero(c);
    ClocksKeepNonzero(c, |after|);
  }

  lemma {:induction false} ClocksOfZero(n: nat)
    ensures Clocks(0, n) == 0
  {
    if n > 0 { ClocksOfZero(n - 1); }
  }

  lemma {:induction false} Pow2Monotone(m: nat, n: nat)
    requires m <= n
    ensures Pow2(m) <= Pow2(n)
    decreases n
  {
    if m < n { Pow2Monotone(m, n - 1); }
  }

  /** The two messages differ only inside the 16 bit positions starting at p. */
  predicate DifferOnlyInBurst(a: seq<byte>, b: seq<byte>, p: nat)
    requires |a| == |b|
  {
    forall k :: 0 <= k < 8 * |a| && BitAt(a, k) != BitAt(b, k) ==> p <= k < p + 16
  }

  lemma XorBytesAt(a: seq<byte>, b: seq<byte>, k: nat)
    requires |a| == |b| && k < 8 * |a|
    ensures BitAt(XorBytes(a, b), k) == (BitAt(a, k) != BitAt(b, k))
  {
    XorBit(a[k / 8], b[k / 8], k % 8);
  }

  lemma BitsEqual(x: nat, y: nat, n: nat)
    requires forall i :: 0 <= i < n ==> Bit(x, i) == Bit(y, i)
    ensures BitsOf(x, n) == BitsOf(y, n)
  {
  }

  /** Distinct bytes differ in one of their eight bits. */
  lemma DistinctBytes(x: byte, y: byte) returns (j: nat)
    requires x != y
    ensures j < 8 && Bit(x, j) != Bit(y, j)
  {
    if forall i :: 0 <= i < 8 ==> Bit(x, i) == Bit(y, i) {
      Pow2Of16();
      WordOfBits(x, 8);
      WordOfBits(y, 8);
      BitsEqual(x, y, 8);
      assert false;
    }
    j :| 0 <= j < 8 && Bit(x, j) != Bit(y, j);
  }

  /** Burst detection: any nonzero damage confined to 16 consecutive bits changes the CRC. */
  lemma BurstDetected(a: seq<byte>, b: seq<byte>, p: nat)
    requires |a| == |b| && a != b
    requires DifferOnlyInBurst(a, b, p)
    ensures Crc(a) != Crc(b)
  {
    var e := XorBytes(a, b);
    var bits := MessageBits(e);
    forall k | 0 <= k < |bits|
      ensures bits[k] == (BitAt(a, k) != BitAt(b, k))
    {
      MessageBitsAt(e, k);
      XorBytesAt(a, b, k);
    }
    var i :| 0 <= i < |a| && a[i] != b[i];
    var j := DistinctBytes(a[i], b[i]);
    var hit := 8 * i + j;
    assert BitAt(a, hit) != BitAt(b, hit) by { assert hit / 8 == i && hit % 8 == j; }
    assert bits[hit];
    var hi := if p + 16 <= |bits| then p + 16 else |bits|;
    assert p <= hit < hi;
    var before, burst, after := bits[..p], bits[p..hi], bits[hi..];
    assert burst[hit - p];
    assert bits == before + burst + after;
    BurstFeed(before, burst, after);
    CrcIsFeed(0, e);
    XorZero(0);
    CrcLinear(0, 0, a, b);
    XorCancels(Crc(a), Crc(b));
  }
}
