/** Configuration words: named integer fields spread over the bits of one word, as in
    AsicGlobalConfig and AsicChannelConfig, with bitarray_utils underneath. */
module BitFields {
  import opened Prelude

  /** The value actually stored in n bits for any integer. */
  function Clamp(v: int, n: nat): (c: nat)
    ensures c < Pow2(n) && (0 <= v < Pow2(n) ==> c == v)
  {
    if v < 0 then 0 else if v > Pow2(n) - 1 then Pow2(n) - 1 else v
  }

  /** Most significant bit first. */
  function ToBits(c: nat, n: nat): (s: seq<bool>)
    ensures |s| == n
  {
    if n == 0 then [] else ToBits(c / 2, n - 1) + [c % 2 == 1]
  }

  function Value(s: seq<bool>): nat
  {
    if s == [] then 0 else 2 * Value(s[..|s| - 1]) + BitValue(s[|s| - 1])
  }

  lemma {:induction false} ValueOfBits(c: nat, n: nat)
    requires c < Pow2(n)
    ensures Value(ToBits(c, n)) == c
    decreases n
  {
    if n > 0 {
      ValueOfBits(c / 2, n - 1);
      assert ToBits(c, n)[..n - 1] == ToBits(c / 2, n - 1);
    }
  }

  lemma {:induction false} ValueBelow(s: seq<bool>)
    ensures Value(s) < Pow2(|s|)
  {
    if s != [] { ValueBelow(s[..|s| - 1]); }
  }

  lemma {:induction false} BitsOfValue(s: seq<bool>)
    ensures ToBits(Value(s), |s|) == s
  {
    if s != [] {
      hide ToBits, Value;
      var init, last := s[..|s| - 1], s[|s| - 1];
      assert s == init + [last];
      BitsOfValue(init);
      ValueSnoc(init, last);
      BitsSnoc(Value(init), last, |init|);
    }
  }

  lemma ValueSnoc(s: seq<bool>, b: bool)
    ensures Value(s + [b]) == 2 * Value(s) + BitValue(b)
  {
    assert (s + [b])[..|s|] == s;
  }

  lemma BitsSnoc(v: nat, b: bool, n: nat)
    ensures ToBits(2 * v + BitValue(b), n + 1) == ToBits(v, n) + [b]
  {
    assert (2 * v + BitValue(b)) / 2 == v && ((2 * v + BitValue(b)) % 2 == 1) == b;
  }

  /** Halving i times, which is v >> i. */
  function Shr(c: nat, i: nat): nat
  {
    if i == 0 then c else Shr(c / 2, i - 1)
  }

  lemma {:induction false} BitsAt(c: nat, n: nat, i: nat)
    requires i < n
    ensures ToBits(c, n)[n - i - 1] == (Shr(c, i) % 2 == 1)
    decreases n
  {
    if i > 0 { BitsAt(c / 2, n - 1, i - 1); }
  }

  /** intToBin. */
  method IntToBin(value: int, n: nat) returns (s: seq<bool>)
    ensures s == ToBits(Clamp(value, n), n)
  {
    var v := value;
    if v < 0 { v := 0; }
    if v > Pow2(n) - 1 { v := Pow2(n) - 1; }
    s := seq(n, k => false);
    var i := 0;
    while i < n
      invariant 0 <= i <= n && |s| == n
      invariant forall j :: n - i <= j < n ==> s[j] == ToBits(v, n)[j]
    {
      BitsAt(v, n, i);
      s := s[n - i - 1 := Shr(v, i) % 2 != 0];
      i := i + 1;
    }
    assert s == ToBits(v, n);
  }

  /** binToInt. */
  method BinToInt(s: seq<bool>) returns (r: nat)
    ensures r == Value(s)
  {
    r := 0;
    var i, n := 0, |s|;
    while i < n
      invariant 0 <= i <= n && r == Value(s[..i]) * Pow2(n - i)
    {
      assert s[..i + 1][..i] == s[..i];
      Horner(Value(s[..i]), BitValue(s[i]), n - i);
      r := r + BitValue(s[i]) * Pow2(n - i - 1);
      i := i + 1;
    }
    assert s[..n] == s;
  }

  lemma Horner(v: nat, b: nat, k: nat)
    requires k >= 1
    ensures v * Pow2(k) + b * Pow2(k - 1) == (2 * v + b) * Pow2(k - 1)
  {
    var p := Pow2(k - 1);
    assert v * (2 * p) == (2 * v) * p;
    assert (2 * v) * p + b * p == (2 * v + b) * p;
  }

  // ----- Fields of a word -----

  predicate FieldOk(idx: seq<nat>, width: nat)
  {
    (forall a :: 0 <= a < |idx| ==> idx[a] < width) && NoRepeats(idx)
  }

  predicate Disjoint(x: seq<nat>, y: seq<nat>)
  {
    forall a, b :: 0 <= a < |x| && 0 <= b < |y| ==> x[a] != y[b]
  }

  /** A table of fields that share no bit. */
  ghost predicate LaidOut<K(!new)>(layout: K -> seq<nat>, width: nat)
  {
    && (forall k :: FieldOk(layout(k), width))
    && (forall k, l :: k != l ==> Disjoint(layout(k), layout(l)))
  }

  /** setBits: bit b of the word lives at position width-1-b. */
  function Put(word: seq<bool>, idx: seq<nat>, value: seq<bool>): (r: seq<bool>)
    requires FieldOk(idx, |word|) && |value| == |idx|
    ensures |r| == |word|
    decreases |idx|
  {
    if idx == [] then word
    else
      assert FieldOk(idx[1..], |word|);
      Put(word[|word| - 1 - idx[0] := value[0]], idx[1..], value[1..])
  }

  function Get(word: seq<bool>, idx: seq<nat>): (v: seq<bool>)
    requires FieldOk(idx, |word|)
    ensures |v| == |idx|
  {
    seq(|idx|, a requires 0 <= a < |idx| => word[|word| - 1 - idx[a]])
  }

  /** Bits outside the field are untouched. */
  lemma {:induction false} PutElsewhere(word: seq<bool>, idx: seq<nat>, value: seq<bool>, p: nat)
    requires FieldOk(idx, |word|) && |value| == |idx| && p < |word|
    requires forall a :: 0 <= a < |idx| ==> idx[a] != |word| - 1 - p
    ensures Put(word, idx, value)[p] == word[p]
    decreases |idx|
  {
    if idx != [] {
      PutElsewhere(word[|word| - 1 - idx[0] := value[0]], idx[1..], value[1..], p);
    }
  }

  lemma {:induction false} PutAt(word: seq<bool>, idx: seq<nat>, value: seq<bool>, a: nat)
    requires FieldOk(idx, |word|) && |value| == |idx| && a < |idx|
    ensures Put(word, idx, value)[|word| - 1 - idx[a]] == value[a]
    decreases |idx|
  {
    var w := word[|word| - 1 - idx[0] := value[0]];
    if a == 0 {
      PutElsewhere(w, idx[1..], value[1..], |word| - 1 - idx[0]);
    } else {
      PutAt(w, idx[1..], value[1..], a - 1);
    }
  }

  lemma GetOfPut(word: seq<bool>, idx: seq<nat>, value: seq<bool>)
    requires FieldOk(idx, |word|) && |value| == |idx|
    ensures Get(Put(word, idx, value), idx) == value
  {
    hide Put, NoRepeats;
    var r := Put(word, idx, value);
    forall a | 0 <= a < |idx|
      ensures r[|word| - 1 - idx[a]] == value[a]
    {
      PutAt(word, idx, value, a);
    }
    assert Get(r, idx) == value;
  }

  lemma GetElsewhere(word: seq<bool>, idx: seq<nat>, value: seq<bool>, other: seq<nat>)
    requires FieldOk(idx, |word|) && |value| == |idx| && FieldOk(other, |word|) && Disjoint(idx, other)
    ensures Get(Put(word, idx, value), other) == Get(word, other)
  {
    hide Put, NoRepeats;
    var r := Put(word, idx, value);
    forall a | 0 <= a < |other|
      ensures r[|word| - 1 - other[a]] == word[|word| - 1 - other[a]]
    {
      PutElsewhere(word, idx, value, |word| - 1 - other[a]);
    }
    assert Get(r, other) == Get(word, other);
  }

  // ----- Any sequence of setValue calls -----

  datatype Write<K> = Write(key: K, value: int)
  function SetField(word: seq<bool>, idx: seq<nat>, value: int): (r: seq<bool>)
    requires FieldOk(idx, |word|)
    ensures |r| == |word|
  {
    Put(word, idx, ToBits(Clamp(value, |idx|), |idx|))
  }

  function GetField(word: seq<bool>, idx: seq<nat>): nat
    requires FieldOk(idx, |word|)
  {
    Value(Get(word, idx))
  }

  ghost function Writes<K(!new)>(word: seq<bool>, layout: K -> seq<nat>, ws: seq<Write<K>>): (r: seq<bool>)
    requires LaidOut(layout, |word|)
    ensures |r| == |word|
    decreases |ws|
  {
    if ws == [] then word
    else
      var last := ws[|ws| - 1];
      SetField(Writes(word, layout, ws[..|ws| - 1]), layout(last.key), last.value)
  }

  /** The last value written to a key, if any: the value of the last entry with that key. */
  function LastWrite<K(==)>(ws: seq<Write<K>>, k: K): Option<int>
    decreases |ws|
  {
    if ws == [] then None
    else if ws[|ws| - 1].key == k then Some(ws[|ws| - 1].value)
    else LastWrite(ws[..|ws| - 1], k)
  }

  /** What the last write is, without recursion. */
  lemma {:induction false} LastWriteIs<K>(ws: seq<Write<K>>, k: K)
    ensures LastWrite(ws, k).None? <==> forall i :: 0 <= i < |ws| ==> ws[i].key != k
    ensures LastWrite(ws, k).Some? ==>
              exists i :: 0 <= i < |ws| && ws[i] == Write(k, LastWrite(ws, k).value) && forall j :: i < j < |ws| ==> ws[j].key != k
    decreases |ws|
  {
    if ws != [] {
      var rest := ws[..|ws| - 1];
      LastWriteIs(rest, k);
      if ws[|ws| - 1].key != k && LastWrite(rest, k).Some? {
        var i :| 0 <= i < |rest| && rest[i] == Write(k, LastWrite(rest, k).value) && forall j :: i < j < |rest| ==> rest[j].key != k;
        assert ws[i] == rest[i];
      } else if ws[|ws| - 1].key == k {
        assert ws[|ws| - 1] == Write(k, LastWrite(ws, k).value);
      }
    }
  }

  /** After any sequence of writes, with any integers, every key reads back its last written value
      clamped to its width; keys never written keep their initial value. */
  lemma {:induction false} ReadsLastWrite<K(!new)>(word: seq<bool>, layout: K -> seq<nat>, ws: seq<Write<K>>, k: K)
    requires LaidOut(layout, |word|)
    ensures var idx, top := layout(k), Pow2(|layout(k)|) - 1;
            LastWrite(ws, k).Some? ==>
              var v := LastWrite(ws, k).value;
              GetField(Writes(word, layout, ws), idx) == if v < 0 then 0 else if v > top then top else v
    ensures var idx := layout(k);
            GetField(Writes(word, layout, ws), idx) ==
            if LastWrite(ws, k).Some? then Clamp(LastWrite(ws, k).value, |idx|) else GetField(word, idx)
    decreases |ws|
  {
    if ws != [] {
      var last, rest := ws[|ws| - 1], ws[..|ws| - 1];
      var w := Writes(word, layout, rest);
      var bits := ToBits(Clamp(last.value, |layout(last.key)|), |layout(last.key)|);
      if last.key == k {
        GetOfPut(w, layout(k), bits);
        ValueOfBits(Clamp(last.value, |layout(k)|), |layout(k)|);
      } else {
        GetElsewhere(w, layout(last.key), bits, layout(k));
        ReadsLastWrite(word, layout, rest, k);
      }
    }
  }

  /** A configuration word updated in place. */
  class ConfigWord<K(!new)> {
    const layout: K -> seq<nat>
    const bits: array<bool>

    ghost predicate Valid()
      reads this
    {
      LaidOut(layout, bits.Length)
    }

    constructor (layout: K -> seq<nat>, initial: seq<bool>)
      requires LaidOut(layout, |initial|)
      ensures Valid() && fresh(bits) && bits[..] == initial && this.layout == layout
    {
      this.layout := layout;
      bits := new bool[|initial|](i requires 0 <= i < |initial| => initial[i]);
    }

    /** setBits. */
    method SetBits(key: K, value: seq<bool>)
      requires Valid() && |value| == |layout(key)|
      modifies bits
      ensures bits[..] == Put(old(bits[..]), layout(key), value)
    {
      var index := layout(key);
      ghost var start := bits[..];
      var a := 0;
      while a < |index|
        invariant 0 <= a <= |index| && FieldOk(index[a..], bits.Length)
        invariant Put(bits[..], index[a..], value[a..]) == Put(start, index, value)
      {
        ghost var before := bits[..];
        bits[bits.Length - 1 - index[a]] := value[a];
        assert bits[..] == before[bits.Length - 1 - index[a] := value[a]];
        assert index[a..][1..] == index[a + 1..] && value[a..][1..] == value[a + 1..];
        a := a + 1;
      }
    }

    /** getBits. */
    method GetBits(key: K) returns (value: seq<bool>)
      requires Valid()
      ensures value == Get(bits[..], layout(key))
    {
      var index := layout(key);
      value := [];
      var a := 0;
      while a < |index|
        invariant 0 <= a <= |index| && value == Get(bits[..], layout(key))[..a]
      {
        value := value + [bits[bits.Length - 1 - index[a]]];
        a := a + 1;
      }
    }

    /** setValue. */
    method SetValue(key: K, value: int)
      requires Valid()
      modifies bits
      ensures bits[..] == SetField(old(bits[..]), layout(key), value)
    {
      var b := IntToBin(value, |layout(key)|);
      SetBits(key, b);
    }

    /** getValue. */
    method GetValue(key: K) returns (value: nat)
      requires Valid()
      ensures value == GetField(bits[..], layout(key))
    {
      var b := GetBits(key);
      value := BinToInt(b);
    }
  }

  // ----- Field tables -----

  /** Where a field's bits sit, most significant first: lo, lo+1, ..., hi-1 (range), hi-1, ..., lo
      (nrange), or an explicit list. */
  datatype Span = Rising(lo: nat, hi: nat) | Falling(lo: nat, hi: nat) | Listed(bits: seq<nat>)

  function Indices(s: Span): (idx: seq<nat>)
  {
    match s
    case Rising(lo, hi) => if lo <= hi then seq(hi - lo, i => lo + i) else []
    case Falling(lo, hi) => if lo <= hi then seq(hi - lo, i requires 0 <= i < hi - lo => hi - 1 - i) else []
    case Listed(bits) => bits
  }

  predicate InSpan(b: nat, s: Span)
  {
    if s.Listed? then b in s.bits else s.lo <= b < s.hi
  }

  lemma IndicesInSpan(s: Span, a: nat)
    requires a < |Indices(s)|
    ensures InSpan(Indices(s)[a], s)
  {
  }

  /** A run of bits is a proper field; a list has to be checked. */
  lemma SpanIsField(s: Span, width: nat)
    requires forall b: nat :: InSpan(b, s) ==> b < width
    requires s.Listed? ==> NoRepeats(s.bits)
    ensures FieldOk(Indices(s), width)
  {
    var idx := Indices(s);
    forall a | 0 <= a < |idx|
      ensures idx[a] < width
    {
      IndicesInSpan(s, a);
    }
  }

  /** A table in which every bit has one owner is laid out without overlap. */
  lemma OwnersSeparate<K(!new)>(layout: K -> seq<nat>, span: K -> Span, owner: nat -> K, width: nat)
    requires forall k :: layout(k) == Indices(span(k)) && (span(k).Listed? ==> NoRepeats(span(k).bits))
    requires forall k, b: nat :: InSpan(b, span(k)) ==> owner(b) == k && b < width
    ensures LaidOut(layout, width)
  {
    forall k
      ensures FieldOk(layout(k), width)
    {
      forall b: nat | InSpan(b, span(k))
        ensures b < width
      {
        assert owner(b) == k;
      }
      SpanIsField(span(k), width);
    }
    forall k, l | k != l
      ensures Disjoint(layout(k), layout(l))
    {
      forall a, b | 0 <= a < |layout(k)| && 0 <= b < |layout(l)|
        ensures layout(k)[a] != layout(l)[b]
      {
        IndicesInSpan(span(k), a);
        IndicesInSpan(span(l), b);
        assert owner(layout(k)[a]) == k && owner(layout(l)[b]) == l;
      }
    }
  }
}
