/** Copies between byte buffers and word arrays on the flight computer, whose words are
    little-endian in memory. */
module HostMemory {
  import opened Bytes

  function ByteAt(b: seq<byte>, i: nat): byte
  {
    if i < |b| then b[i] else 0
  }

  /** Up to four bytes copied over a zeroed word. */
  function WordOf(b: seq<byte>): word32
    requires |b| <= 4
  {
    (ByteAt(b, 0) + 0x100 * ByteAt(b, 1)) + 0x1_0000 * (ByteAt(b, 2) + 0x100 * ByteAt(b, 3))
  }

  /** The four bytes of a word in memory. */
  function BytesOf(w: word32): (b: seq<byte>)
    ensures |b| == 4 && WordOf(b) == w
  {
    var lo, hi := w % 0x1_0000, w / 0x1_0000;
    [lo % 0x100, lo / 0x100, hi % 0x100, hi / 0x100]
  }

  lemma BytesOfWord(b: seq<byte>)
    requires |b| <= 4
    ensures BytesOf(WordOf(b)) == [ByteAt(b, 0), ByteAt(b, 1), ByteAt(b, 2), ByteAt(b, 3)]
  {
    var b0: int, b1: int, b2: int, b3: int := ByteAt(b, 0), ByteAt(b, 1), ByteAt(b, 2), ByteAt(b, 3);
    var lo, hi := b0 + 0x100 * b1, b2 + 0x100 * b3;
    assert WordOf(b) % 0x1_0000 == lo && WordOf(b) / 0x1_0000 == hi;
  }

  /** The wire order of a word is its memory order reversed. */
  lemma WireIsReversed(w: word32)
    ensures Write32(w) == [BytesOf(w)[3], BytesOf(w)[2], BytesOf(w)[1], BytesOf(w)[0]]
  {
  }

  /** A byte buffer copied into words, the last one padded with zeros. */
  function Pack(b: seq<byte>): (ws: seq<word32>)
    ensures |ws| == (|b| + 3) / 4
  {
    if |b| == 0 then []
    else if |b| <= 4 then [WordOf(b)]
    else [WordOf(b[..4])] + Pack(b[4..])
  }

  /** The memory of a word array. */
  function Unpack(ws: seq<word32>): (b: seq<byte>)
    ensures |b| == 4 * |ws|
  {
    if |ws| == 0 then [] else BytesOf(ws[0]) + Unpack(ws[1..])
  }

  function Chunk(b: seq<byte>, i: nat): (c: seq<byte>)
    requires 4 * i < |b|
    ensures 1 <= |c| <= 4
  {
    if |b| - 4 * i < 4 then b[4 * i..] else b[4 * i..4 * i + 4]
  }

  lemma {:induction false} PackAt(b: seq<byte>, i: nat)
    requires 4 * i < |b|
    ensures i < |Pack(b)| && Pack(b)[i] == WordOf(Chunk(b, i))
    decreases i
  {
    hide WordOf;
    if |b| <= 4 {
      assert Chunk(b, i) == b;
    } else if i == 0 {
      assert Chunk(b, i) == b[..4];
    } else {
      PackAt(b[4..], i - 1);
      var c, k := b[4..], i - 1;
      assert |c| - 4 * k == |b| - 4 * i;
      assert |c| - 4 * k < 4 ==> c[4 * k..] == b[4 * i..];
      assert |c| - 4 * k >= 4 ==> c[4 * k..4 * k + 4] == b[4 * i..4 * i + 4];
      assert Chunk(b, i) == Chunk(c, k);
    }
  }

  /** Copying the bytes back out of the words gives the buffer, followed by zeros. */
  lemma {:induction false} UnpackOfPack(b: seq<byte>)
    ensures |b| <= 4 * |Pack(b)| && Unpack(Pack(b))[..|b|] == b
    ensures forall i :: |b| <= i < 4 * |Pack(b)| ==> Unpack(Pack(b))[i] == 0
  {
    hide WordOf, BytesOf;
    if |b| == 0 {
    } else if |b| <= 4 {
      BytesOfWord(b);
      assert Unpack(Pack(b)) == BytesOf(WordOf(b));
    } else {
      BytesOfWord(b[..4]);
      UnpackOfPack(b[4..]);
      assert BytesOf(WordOf(b[..4])) == b[..4];
      assert Unpack(Pack(b)) == b[..4] + Unpack(Pack(b[4..]));
      assert Unpack(Pack(b))[..|b|] == b[..4] + Unpack(Pack(b[4..]))[..|b| - 4];
    }
  }

  lemma {:induction false} UnpackConcat(a: seq<word32>, b: seq<word32>)
    ensures Unpack(a + b) == Unpack(a) + Unpack(b)
  {
    hide BytesOf;
    if |a| == 0 {
      assert a + b == b;
    } else {
      UnpackConcat(a[1..], b);
      assert (a + b)[1..] == a[1..] + b;
    }
  }

  // ----- Text fields of 16 bytes -----

  type Name = s: seq<byte> | |s| == 16 witness [0, 0, 0, 0, 0, 0, 0, 0, 0, 0, 0, 0, 0, 0, 0, 0]

  function CopyName(argv: seq<word32>, at: nat): Name
    requires at + 4 <= |argv|
  {
    Unpack(argv[at..at + 4])
  }

  lemma NameRoundTrip(pre: seq<word32>, n: Name, post: seq<word32>)
    ensures |Pack(n)| == 4 && CopyName(pre + Pack(n) + post, |pre|) == n
  {
    UnpackOfPack(n);
    assert (pre + Pack(n) + post)[|pre|..|pre| + 4] == Pack(n);
  }

  /** pushName: a 16-byte buffer of words, pushed one by one. */
  method PushName(argv: seq<word32>, name: Name) returns (r: seq<word32>)
    ensures r == argv + Pack(name)
  {
    var buf := Pack(name);
    r := argv;
    for i := 0 to 4
      invariant r == argv + buf[..i]
    {
      r := r + [buf[i]];
    }
  }

  /** A 64-bit value as its high and low words, and back. */
  function High(v: word64): word32
  {
    v / 0x1_0000_0000
  }

  function Low(v: word64): word32
  {
    v % 0x1_0000_0000
  }

  function Join(hi: word32, lo: word32): (v: word64)
    ensures High(v) == hi && Low(v) == lo
  {
    hi * 0x1_0000_0000 + lo
  }

  lemma JoinOfSplit(v: word64)
    ensures Join(High(v), Low(v)) == v && v == High(v) * 0x1_0000_0000 + Low(v)
  {
  }

  /** What a decoder does with a packet: refuse it, run past the end of its arguments, or fill the record. */
  datatype Decoded<T> = Rejected | Overrun | Done(value: T)
}
