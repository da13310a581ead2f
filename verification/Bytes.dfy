/** Byte strings as the wire code sees them: big-endian words on the wire,
    little-endian words where the flight computer copies memory into words. */
module Bytes {

  type byte = b: int | 0 <= b < 0x100
  type word16 = w: int | 0 <= w < 0x1_0000
  type word32 = w: int | 0 <= w < 0x1_0000_0000
  type word64 = w: int | 0 <= w < 0x1_0000_0000_0000_0000

  function Read16(d: seq<byte>, at: nat): word16
    requires at + 2 <= |d|
  {
    var hi: int, lo: int := d[at], d[at + 1];
    hi * 0x100 + lo
  }

  function Read32(d: seq<byte>, at: nat): word32
    requires at + 4 <= |d|
  {
    var hi: int, lo: int := Read16(d, at), Read16(d, at + 2);
    hi * 0x1_0000 + lo
  }

  function Write16(v: word16): (d: seq<byte>)
    ensures |d| == 2 && Read16(d, 0) == v
  {
    [v / 0x100, v % 0x100]
  }

  function Write32(v: word32): (d: seq<byte>)
    ensures |d| == 4 && Read32(d, 0) == v
  {
    Write16(v / 0x1_0000) + Write16(v % 0x1_0000)
  }

  /** High byte first. */
  lemma ReadsHighFirst(d: seq<byte>, at: nat)
    requires at + 4 <= |d|
    ensures var a: int, b: int, c: int, e: int := d[at], d[at + 1], d[at + 2], d[at + 3];
            Read16(d, at) == 0x100 * a + b && Read32(d, at) == 0x100_0000 * a + 0x1_0000 * b + 0x100 * c + e
  {
  }

  lemma WriteOfRead16(d: seq<byte>, at: nat)
    requires at + 2 <= |d|
    ensures Write16(Read16(d, at)) == d[at..at + 2]
  {
  }

  lemma WriteOfRead32(d: seq<byte>, at: nat)
    requires at + 4 <= |d|
    ensures Write32(Read32(d, at)) == d[at..at + 4]
  {
    WriteOfRead16(d, at);
    WriteOfRead16(d, at + 2);
    assert d[at..at + 4] == d[at..at + 2] + d[at + 2..at + 4];
  }

  /** The big-endian image of a word list. */
  function WriteAll32(ws: seq<word32>): (d: seq<byte>)
    ensures |d| == 4 * |ws|
  {
    if ws == [] then [] else Write32(ws[0]) + WriteAll32(ws[1..])
  }

  function ReadAll32(d: seq<byte>, at: nat, n: nat): (ws: seq<word32>)
    requires at + 4 * n <= |d|
    ensures |ws| == n
    ensures forall i :: 0 <= i < n ==> ws[i] == Read32(d, at + 4 * i)
  {
    seq(n, i requires 0 <= i < n => Read32(d, at + 4 * i))
  }

  lemma {:induction false} WriteAll32At(ws: seq<word32>, i: nat)
    requires i < |ws|
    ensures WriteAll32(ws)[4 * i..4 * i + 4] == Write32(ws[i])
  {
    hide Write32;
    if i > 0 {
      WriteAll32At(ws[1..], i - 1);
      assert WriteAll32(ws)[4 * i..4 * i + 4] == WriteAll32(ws[1..])[4 * (i - 1)..4 * (i - 1) + 4];
    }
  }

  lemma {:induction false} WriteAll32Concat(a: seq<word32>, b: seq<word32>)
    ensures WriteAll32(a + b) == WriteAll32(a) + WriteAll32(b)
  {
    hide Write32;
    if a == [] {
      assert a + b == b;
    } else {
      WriteAll32Concat(a[1..], b);
      assert (a + b)[1..] == a[1..] + b;
    }
  }

  /** Reading back the image of a word list, wherever it sits in a message. */
  lemma {:induction false} ReadOfWriteAll32(pre: seq<byte>, ws: seq<word32>, post: seq<byte>)
    ensures ReadAll32(pre + WriteAll32(ws) + post, |pre|, |ws|) == ws
  {
    var d := pre + WriteAll32(ws) + post;
    forall i | 0 <= i < |ws|
      ensures Read32(d, |pre| + 4 * i) == ws[i]
    {
      WriteAll32At(ws, i);
      assert d[|pre| + 4 * i..|pre| + 4 * i + 4] == WriteAll32(ws)[4 * i..4 * i + 4];
      Read32Local(d, |pre| + 4 * i, Write32(ws[i]));
    }
  }

  lemma Read32Local(d: seq<byte>, at: nat, w: seq<byte>)
    requires at + 4 <= |d| && |w| == 4 && d[at..at + 4] == w
    ensures Read32(d, at) == Read32(w, 0)
  {
    assert d[at] == w[0] && d[at + 1] == w[1] && d[at + 2] == w[2] && d[at + 3] == w[3];
  }

  /** Conversely the bytes read are exactly the image of the words. */
  lemma {:induction false} WriteOfReadAll32(d: seq<byte>, at: nat, n: nat)
    requires at + 4 * n <= |d|
    ensures WriteAll32(ReadAll32(d, at, n)) == d[at..at + 4 * n]
    decreases n
  {
    hide Write32, Read32;
    if n > 0 {
      WriteOfReadAll32(d, at + 4, n - 1);
      assert ReadAll32(d, at, n)[1..] == ReadAll32(d, at + 4, n - 1);
      WriteOfRead32(d, at);
      assert d[at..at + 4 * n] == d[at..at + 4] + d[at + 4..at + 4 * n];
    }
  }
}
