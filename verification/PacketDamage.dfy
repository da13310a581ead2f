/** What the packet CRC does and does not catch, once the packet framing is taken into account. */
module PacketDamage {
  import opened Prelude
  import opened Bytes
  import opened Crc16
  import opened CommandCodec

  /** Same length as the image of p, and intact where the frame is recognised:
      headers, argument count and footers. */
  predicate FrameIntact(p: Packet, d: seq<byte>)
    requires WellFormed(p)
  {
    var s, n := Serialize(p), 8 + 4 * p.argc;
    |d| == |s| && d[..4] == s[..4] && d[6..8] == s[6..8] && d[n + 2..] == s[n + 2..]
  }

  function Shl(x: nat, n: nat): nat
  {
    if n == 0 then x else 2 * Shl(x, n - 1)
  }

  lemma XorDouble(u: nat, v: nat, i: nat, j: nat)
    requires i < 2 && j < 2
    ensures Xor(2 * u + i, 2 * v + j) == 2 * Xor(u, v) + if i == j then 0 else 1
  {
    XorHalf(2 * u + i, 2 * v + j);
  }

  lemma {:induction false} XorJoin(x: nat, y: nat, a: nat, b: nat, n: nat)
    requires a < Pow2(n) && b < Pow2(n)
    ensures Xor(Shl(x, n) + a, Shl(y, n) + b) == Shl(Xor(x, y), n) + Xor(a, b)
    decreases n
  {
    hide Xor;
    XorZero(0);
    if n > 0 {
      XorJoin(x, y, a / 2, b / 2, n - 1);
      XorDouble(Shl(x, n - 1) + a / 2, Shl(y, n - 1) + b / 2, a % 2, b % 2);
      XorDouble(a / 2, b / 2, a % 2, b % 2);
    }
  }

  lemma Shl8(x: nat)
    ensures Shl(x, 8) == 0x100 * x
  {
    assert Shl(x, 1) == 2 * x;
    assert Shl(x, 2) == 4 * x;
    assert Shl(x, 3) == 8 * x;
    assert Shl(x, 4) == 16 * x;
    assert Shl(x, 5) == 32 * x;
    assert Shl(x, 6) == 64 * x;
    assert Shl(x, 7) == 128 * x;
  }

  lemma XorRead16(a: seq<byte>, b: seq<byte>, at: nat)
    requires |a| == |b| && at + 2 <= |a|
    ensures Read16(XorBytes(a, b), at) == Xor(Read16(a, at), Read16(b, at))
  {
    Pow2Of16();
    Shl8(a[at]);
    Shl8(b[at]);
    Shl8(Xor(a[at], b[at]));
    XorJoin(a[at], b[at], a[at + 1], b[at + 1], 8);
  }

  /** Once headers, count and footers are right, parse comes down to the CRC comparison. */
  lemma ParseIsCrcCheck(d: seq<byte>, n: nat)
    requires 8 <= n && |d| == n + 6 && n == 8 + 4 * Read16(d, 6)
    requires Read16(d, 0) == HEADER1 && Read16(d, 2) == HEADER2
    requires Read16(d, n + 2) == FOOTER1 && Read16(d, n + 4) == FOOTER2
    ensures Parse(d).Some? <==> Read16(d, n) == Crc(d[..n])
  {
  }

  lemma BadCrcRejected(d: seq<byte>, n: nat)
    requires 8 <= n && |d| == n + 6 && n == 8 + 4 * Read16(d, 6) && Read16(d, n) != Crc(d[..n])
    ensures Parse(d) == None
  {
  }

  lemma ParsedFields(d: seq<byte>, n: nat)
    requires 8 <= n && |d| == n + 6 && n == 8 + 4 * Read16(d, 6) && Parse(d).Some?
    ensures Read16(d, n) == Crc(d[..n]) && Read16(d, n + 2) == FOOTER1 && Read16(d, n + 4) == FOOTER2
  {
  }

  lemma ImageFields(p: Packet)
    requires WellFormed(p)
    ensures var s, n := Serialize(p), 8 + 4 * p.argc as int;
            && Read16(s, 0) == HEADER1 && Read16(s, 2) == HEADER2 && Read16(s, 6) == p.argc
            && Read16(s, n + 2) == FOOTER1 && Read16(s, n + 4) == FOOTER2
            && Read16(s, n) == Crc(s[..n]) && s[..n] == Payload(p)
  {
    hide Crc;
    var s, payload := Serialize(p), Payload(p);
    var tail := Tail(Crc(payload));
    assert s == Head(p.code, p.argc) + (WriteAll32(p.argv[..p.argc]) + tail);
    HeadFields(p.code, p.argc, WriteAll32(p.argv[..p.argc]) + tail);
    assert s == payload + (tail + []);
    TailFields(payload, Crc(payload), []);
    assert s[..|payload|] == payload;
  }

  /** With the frame intact, the receiver accepts damage exactly when the damage itself is
      a CRC codeword: the CRC of its payload part equals its CRC field. */
  lemma AcceptedIffCodeword(p: Packet, d: seq<byte>)
    requires WellFormed(p) && FrameIntact(p, d)
    ensures var e, n := XorBytes(Serialize(p), d), 8 + 4 * p.argc;
            Parse(d).Some? <==> Crc(e[..n]) == Read16(e, n)
  {
    var s: seq<byte>, n: int := Serialize(p), 8 + 4 * p.argc as int;
    ImageFields(p);
    FrameFields(s, d, n);
    ParseIsCrcCheck(d, n);
    CrcDifference(s, d, n);
  }

  lemma FrameFields(s: seq<byte>, d: seq<byte>, n: nat)
    requires 8 <= n && |s| == |d| == n + 6
    requires d[..4] == s[..4] && d[6..8] == s[6..8] && d[n + 2..] == s[n + 2..]
    ensures Read16(d, 0) == Read16(s, 0) && Read16(d, 2) == Read16(s, 2) && Read16(d, 6) == Read16(s, 6)
    ensures Read16(d, n + 2) == Read16(s, n + 2) && Read16(d, n + 4) == Read16(s, n + 4)
  {
    assert d[0] == d[..4][0] && d[1] == d[..4][1] && d[2] == d[..4][2] && d[3] == d[..4][3];
    assert d[6] == d[6..8][0] && d[7] == d[6..8][1];
    assert s[6] == s[6..8][0] && s[7] == s[6..8][1];
    var dt, st := d[n + 2..], s[n + 2..];
    assert d[n + 2] == dt[0] && d[n + 3] == dt[1] && d[n + 4] == dt[2] && d[n + 5] == dt[3];
    assert s[n + 2] == st[0] && s[n + 3] == st[1] && s[n + 4] == st[2] && s[n + 5] == st[3];
  }

  lemma CrcDifference(s: seq<byte>, d: seq<byte>, n: nat)
    requires |s| == |d| && n + 2 <= |s|
    requires Read16(s, n) == Crc(s[..n])
    ensures var e := XorBytes(s, d); Read16(d, n) == Crc(d[..n]) <==> Crc(e[..n]) == Read16(e, n)
  {
    var e := XorBytes(s, d);
    assert e[..n] == XorBytes(s[..n], d[..n]);
    XorZero(0);
    CrcLinear(0, 0, s[..n], d[..n]);
    XorRead16(s, d, n);
    XorInjective(Crc(s[..n]), Crc(d[..n]), Read16(d, n));
  }

  lemma XorInjective(a: nat, b: nat, c: nat)
    ensures Xor(a, b) == Xor(a, c) <==> b == c
  {
    XorCancels(a, a);
    XorAssoc(a, a, b);
    XorAssoc(a, a, c);
    XorZero(b);
    XorZero(c);
  }

  lemma BurstOfPrefix(s: seq<byte>, d: seq<byte>, n: nat, bit: nat)
    requires |s| == |d| && n <= |s| && DifferOnlyInBurst(s, d, bit)
    ensures DifferOnlyInBurst(s[..n], d[..n], bit)
  {
    forall k | 0 <= k < 8 * n && BitAt(s[..n], k) != BitAt(d[..n], k)
      ensures bit <= k < bit + 16
    {
      assert BitAt(s, k) != BitAt(d, k);
    }
  }

  /** Damage to the content of a packet (anything before the CRC field, the argument count
      excepted) that is confined to 16 consecutive bits is always rejected. */
  lemma ContentBurstRejected(p: Packet, d: seq<byte>, bit: nat)
    requires WellFormed(p) && |d| == PacketSize(p) && d != Serialize(p)
    requires DifferOnlyInBurst(Serialize(p), d, bit)
    requires d[6..8] == Serialize(p)[6..8]
    requires d[8 + 4 * p.argc..] == Serialize(p)[8 + 4 * p.argc..]
    ensures Parse(d) == None
  {
    ImageFields(p);
    FramedBurstRejected(Serialize(p), d, 8 + 4 * p.argc as int, bit);
  }

  lemma FramedBurstRejected(s: seq<byte>, d: seq<byte>, n: nat, bit: nat)
    requires 8 <= n && |s| == |d| == n + 6 && d != s && n == 8 + 4 * Read16(s, 6) && Read16(s, n) == Crc(s[..n])
    requires DifferOnlyInBurst(s, d, bit) && d[6..8] == s[6..8] && d[n..] == s[n..]
    ensures Parse(d) == None
  {
    hide Crc, Parse, DifferOnlyInBurst;
    assert d[6] == d[6..8][0] && d[7] == d[6..8][1] && s[6] == s[6..8][0] && s[7] == s[6..8][1];
    assert s == s[..n] + s[n..] && d == d[..n] + d[n..];
    BurstOfPrefix(s, d, n, bit);
    BurstDetected(s[..n], d[..n], bit);
    assert d[n] == d[n..][0] && d[n + 1] == d[n..][1] && s[n] == s[n..][0] && s[n + 1] == s[n..][1];
    BadCrcRejected(d, n);
  }

  /** Damage confined to the CRC and footer fields is always rejected, whatever its shape. */
  lemma TailDamageRejected(p: Packet, d: seq<byte>)
    requires WellFormed(p) && |d| == PacketSize(p) && d != Serialize(p)
    requires d[..8 + 4 * p.argc] == Serialize(p)[..8 + 4 * p.argc]
    ensures Parse(d) == None
  {
    if Parse(d).Some? { PayloadDeterminesImage(p, d); }
  }

  lemma PayloadDeterminesImage(p: Packet, d: seq<byte>)
    requires WellFormed(p) && |d| == PacketSize(p) && Parse(d).Some?
    requires d[..8 + 4 * p.argc] == Serialize(p)[..8 + 4 * p.argc]
    ensures d == Serialize(p)
  {
    var s: seq<byte>, n: int := Serialize(p), 8 + 4 * p.argc as int;
    ImageFields(p);
    assert d[6] == d[..n][6] && d[7] == d[..n][7] && s[6] == s[..n][6] && s[7] == s[..n][7];
    assert Read16(d, 6) == p.argc;
    ParsedFields(d, n);
    TailDetermined(d, n);
    TailDetermined(s, n);
    assert d == d[..n] + d[n..] && s == s[..n] + s[n..];
  }

  lemma TailDetermined(d: seq<byte>, n: nat)
    requires |d| == n + 6 && Read16(d, n) == Crc(d[..n])
    requires Read16(d, n + 2) == FOOTER1 && Read16(d, n + 4) == FOOTER2
    ensures d[n..] == Tail(Crc(d[..n]))
  {
    WriteOfRead16(d, n);
    WriteOfRead16(d, n + 2);
    WriteOfRead16(d, n + 4);
    assert d[n..] == d[n..n + 2] + d[n + 2..n + 4] + d[n + 4..n + 6];
  }

  /** The damage that flips the top bit of the last argument byte and the CRC bits it feeds. */
  function StraddlingMask(n: nat): (e: seq<byte>)
    requires n >= 1
    ensures |e| == n + 6
  {
    seq(n - 1, i => 0 as byte) + [0x80, 0x84, 0x08, 0, 0, 0, 0]
  }

  lemma {:induction false} CrcOfZeros(z: seq<byte>, rest: seq<byte>)
    requires forall i :: 0 <= i < |z| ==> z[i] == 0
    ensures CrcFrom(0, z + rest) == CrcFrom(0, rest)
    decreases |z|
  {
    if z == [] {
      assert z + rest == rest;
    } else {
      XorZero(0);
      ClocksOfZero(8);
      assert (z + rest)[1..] == z[1..] + rest;
      CrcOfZeros(z[1..], rest);
    }
  }

  lemma {:induction false} ClocksSplit(c: nat, m: nat, n: nat)
    ensures Clocks(c, m + n) == Clocks(Clocks(c, m), n)
    decreases m
  {
    if m > 0 { ClocksSplit(Clock(c), m - 1, n); }
  }

  lemma {:induction false} ClocksPow2(k: nat)
    ensures Clocks(Pow2(k), k) == 1
  {
    if k > 0 {
      ClockEven(Pow2(k - 1));
      ClocksPow2(k - 1);
    }
  }

  lemma CrcOfTopBit()
    ensures CrcFrom(0, [0x80]) == 0x8408
  {
    hide Xor;
    XorZero(0x80);
    XorZero(POLY);
    Pow2Of16();
    assert 0x80 == Pow2(7);
    ClocksPow2(7);
    ClocksSplit(0x80, 7, 1);
    assert Clocks(1, 1) == Clocks(Clock(1), 0) == Clock(1) == POLY;
    assert CrcFrom(0, [0x80]) == CrcFrom(ByteStep(0, 0x80), []);
  }

  lemma XorBytesTwice(s: seq<byte>, e: seq<byte>)
    requires |s| == |e|
    ensures XorBytes(s, XorBytes(s, e)) == e
  {
    forall i | 0 <= i < |s|
      ensures XorBytes(s, XorBytes(s, e))[i] == e[i]
    {
      XorAssoc(s[i], s[i], e[i]);
      XorCancels(s[i], s[i]);
      XorZero(e[i]);
    }
  }

  lemma MaskBits(n: nat, k: nat)
    requires n >= 1 && k < 8 * (n + 6) && BitAt(StraddlingMask(n), k)
    ensures 8 * n - 1 <= k < 8 * n + 12
  {
    var e := StraddlingMask(n);
    ZeroBits(k % 8);
    var i, j := k / 8, k % 8;
    assert e[i] != 0;
    if i == n - 1 {
      assert Bit(0x80, j) && j < 8;
      TopBitOnly(j);
    } else if i == n + 1 {
      assert Bit(0x08, j) && j < 8;
      BitThreeOnly(j);
    } else {
      assert i == n;
    }
  }

  lemma {:induction false} ZeroBits(j: nat)
    ensures !Bit(0, j)
  {
    if j > 0 { ZeroBits(j - 1); }
  }

  lemma TopBitOnly(j: nat)
    requires j < 8 && Bit(0x80, j)
    ensures j == 7
  {
    assert !Bit(0x80, 0) && !Bit(0x80, 1) && !Bit(0x80, 2) && !Bit(0x80, 3);
    assert !Bit(0x80, 4) && !Bit(0x80, 5) && !Bit(0x80, 6);
  }

  lemma BitThreeOnly(j: nat)
    requires j < 8 && Bit(0x08, j)
    ensures j == 3
  {
    assert !Bit(0x08, 0) && !Bit(0x08, 1) && !Bit(0x08, 2) && !Bit(0x08, 4);
    assert !Bit(0x08, 5) && !Bit(0x08, 6) && !Bit(0x08, 7);
  }

  /** Exclusive or with the mask: what it touches and what it leaves alone. */
  lemma MaskedImage(s: seq<byte>, n: nat)
    requires n >= 9 && |s| == n + 6
    ensures var d := XorBytes(s, StraddlingMask(n));
            && d[..4] == s[..4] && d[6..8] == s[6..8] && d[n + 2..] == s[n + 2..]
            && d[n - 1] != s[n - 1] && DifferOnlyInBurst(s, d, 8 * n - 1)
  {
    var e := StraddlingMask(n);
    var d := XorBytes(s, e);
    forall i | 0 <= i < |s| && e[i] == 0
      ensures d[i] == s[i]
    {
      XorZero(s[i]);
    }
    XorInjective(s[n - 1], 0x80, 0);
    XorZero(s[n - 1]);
    XorBytesTwice(s, e);
    forall k | 0 <= k < 8 * |s| && BitAt(s, k) != BitAt(d, k)
      ensures 8 * n - 1 <= k < 8 * n - 1 + 16
    {
      XorBytesAt(s, d, k);
      MaskBits(n, k);
    }
  }

  lemma MaskIsCodeword(n: nat)
    requires n >= 1
    ensures var e := StraddlingMask(n); Crc(e[..n]) == Read16(e, n)
  {
    var e, z := StraddlingMask(n), seq(n - 1, i => 0 as byte);
    assert e[..n] == z + [0x80];
    CrcOfZeros(z, [0x80]);
    CrcOfTopBit();
    assert e[n] == 0x84 && e[n + 1] == 0x08;
  }

  /** Because the CRC travels high byte first while it is computed low bit first, the burst
      guarantee stops at the CRC field: every packet with an argument has a 13-bit burst across
      that boundary which the receiver accepts as a different packet. */
  lemma StraddlingBurstAccepted(p: Packet) returns (d: seq<byte>)
    requires WellFormed(p) && p.argc >= 1
    ensures |d| == PacketSize(p) && d != Serialize(p)
    ensures DifferOnlyInBurst(Serialize(p), d, 8 * (8 + 4 * p.argc) - 1)
    ensures Parse(d).Some? && Parse(d).value != p
  {
    var s: seq<byte>, n: int := Serialize(p), 8 + 4 * p.argc as int;
    d := XorBytes(s, StraddlingMask(n));
    MaskedImage(s, n);
    XorBytesTwice(s, StraddlingMask(n));
    MaskIsCodeword(n);
    AcceptedIffCodeword(p, d);
    DistinctImages(p, d);
  }

  lemma DistinctImages(p: Packet, d: seq<byte>)
    requires WellFormed(p) && |d| == PacketSize(p) && d != Serialize(p) && Parse(d).Some?
    ensures Parse(d).value != p
  {
    assert d[..PacketSize(p)] == d;
    if Parse(d) == Some(p) { ParseExact(d, p); }
  }
}
