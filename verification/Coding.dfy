/** Fixed-width and variable-width integers, and length-prefixed strings, as bytes (util/coding). */
module Coding {

  type Byte = x: int | 0 <= x < 0x100
  type Word = x: int | 0 <= x < 0x1_0000_0000
  type Word64 = x: int | 0 <= x < 0x1_0000_0000_0000_0000

  // ---- Fixed width, least significant byte first ----

  function EncodeFixed32(v: Word): seq<Byte> {
    [v % 0x100, v / 0x100 % 0x100, v / 0x100 / 0x100 % 0x100, v / 0x100 / 0x100 / 0x100]
  }

  function DecodeFixed32(b: seq<Byte>): Word
    requires |b| >= 4
  {
    var b0: int, b1: int, b2: int, b3: int := b[0], b[1], b[2], b[3];
    b0 + 0x100 * (b1 + 0x100 * (b2 + 0x100 * b3))
  }

  /** The bytes of a word, lowest first. */
  lemma Fixed32Bytes(v: Word)
    ensures var b0: int, b1: int, b2: int, b3: int := v % 0x100, v / 0x100 % 0x100, v / 0x1_0000 % 0x100, v / 0x100_0000;
            EncodeFixed32(v) == [b0, b1, b2, b3] && v == b0 + 0x100 * b1 + 0x1_0000 * b2 + 0x100_0000 * b3
  {
    var q := v / 0x100;
    var q' := q / 0x100;
    assert q' == v / 0x1_0000 && q' / 0x100 == v / 0x100_0000;
    assert v == 0x100 * q + v % 0x100 && q == 0x100 * q' + q % 0x100 && q' == 0x100 * (q' / 0x100) + q' % 0x100;
  }

  lemma Fixed32RoundTrip(v: Word, tail: seq<Byte>)
    ensures DecodeFixed32(EncodeFixed32(v) + tail) == v
  {
    var e, b := EncodeFixed32(v), EncodeFixed32(v) + tail;
    assert b[0] == e[0] && b[1] == e[1] && b[2] == e[2] && b[3] == e[3];
    Fixed32Bytes(v);
  }

  function EncodeFixed64(v: Word64): (r: seq<Byte>)
    ensures |r| == 8
  {
    EncodeFixed32(v % 0x1_0000_0000) + EncodeFixed32(v / 0x1_0000_0000)
  }

  function DecodeFixed64(b: seq<Byte>): Word64
    requires |b| >= 8
  {
    DecodeFixed32(b) + 0x1_0000_0000 * DecodeFixed32(b[4..])
  }

  lemma Fixed64RoundTrip(v: Word64, tail: seq<Byte>)
    ensures DecodeFixed64(EncodeFixed64(v) + tail) == v
  {
    var lo, hi := v % 0x1_0000_0000, v / 0x1_0000_0000;
    var b := EncodeFixed64(v) + tail;
    Fixed32RoundTrip(lo, EncodeFixed32(hi) + tail);
    assert b == EncodeFixed32(lo) + (EncodeFixed32(hi) + tail);
    Fixed32RoundTrip(hi, tail);
    assert b[4..] == EncodeFixed32(hi) + tail;
  }

  /** A list of words, each cut to 32 bits. */
  function Fixed32s(ws: seq<nat>): (r: seq<Byte>)
    ensures |r| == 4 * |ws|
  {
    if ws == [] then [] else Fixed32s(ws[..|ws| - 1]) + EncodeFixed32(ws[|ws| - 1] % 0x1_0000_0000)
  }

  lemma {:induction false} Fixed32At(ws: seq<nat>, i: nat, tail: seq<Byte>)
    requires i < |ws| && ws[i] < 0x1_0000_0000
    ensures DecodeFixed32((Fixed32s(ws) + tail)[4 * i..]) == ws[i]
  {
    var n := |ws| - 1;
    var last := EncodeFixed32(ws[n] % 0x1_0000_0000);
    if i == n {
      assert (Fixed32s(ws) + tail)[4 * i..] == last + tail;
      Fixed32RoundTrip(ws[n], tail);
    } else {
      Fixed32At(ws[..n], i, last + tail);
      assert Fixed32s(ws) + tail == Fixed32s(ws[..n]) + (last + tail);
    }
  }

  lemma {:induction false} Fixed32sAt(ws: seq<nat>, i: nat)
    requires i < |ws| && ws[i] < 0x1_0000_0000
    ensures Fixed32s(ws)[4 * i..4 * i + 4] == EncodeFixed32(ws[i])
  {
    var n := |ws| - 1;
    var last := EncodeFixed32(ws[n] % 0x1_0000_0000);
    var before := Fixed32s(ws[..n]);
    if i < n {
      Fixed32sAt(ws[..n], i);
      assert (before + last)[4 * i..4 * i + 4] == before[4 * i..4 * i + 4];
    } else {
      assert (before + last)[4 * n..4 * n + 4] == last;
    }
  }

  // ---- Variable width ----

  /** Seven bits a byte, low bits first; the top bit says that more bytes follow. */
  function EncodeVarint(v: nat): (r: seq<Byte>)
    ensures r != []
  {
    if v < 128 then [v] else [v % 128 + 128] + EncodeVarint(v / 128)
  }

  datatype Got<+T> = Missing | Got(value: T, rest: seq<Byte>)

  /** Read a varint of at most `n` bytes. */
  function GetVarint(s: seq<Byte>, n: nat): (r: Got<nat>)
    ensures r.Got? ==> |r.rest| < |s|
  {
    if n == 0 || s == [] then Missing
    else if s[0] < 128 then Got(s[0], s[1..])
    else
      match GetVarint(s[1..], n - 1)
      case Missing => Missing
      case Got(v, rest) => Got((s[0] - 128) + 128 * v, rest)
  }

  function GetVarint32(s: seq<Byte>): (r: Got<Word>)
    ensures r.Got? ==> |r.rest| < |s|
  {
    match GetVarint(s, 5)
    case Missing => Missing
    case Got(v, rest) => Got(v % 0x1_0000_0000, rest)
  }

  function GetVarint64(s: seq<Byte>): (r: Got<Word64>)
    ensures r.Got? ==> |r.rest| < |s|
  {
    match GetVarint(s, 10)
    case Missing => Missing
    case Got(v, rest) => Got(v % 0x1_0000_0000_0000_0000, rest)
  }

  /** 128 to the power `n`. */
  function Weight(n: nat): (w: nat)
    ensures w > 0
  {
    if n == 0 then 1 else 128 * Weight(n - 1)
  }

  lemma Weights()
    ensures Weight(5) == 0x8_0000_0000 && Weight(10) == 0x40_0000_0000_0000_0000
  {
    assert Weight(1) == 0x80;
    assert Weight(2) == 0x4000;
    assert Weight(3) == 0x20_0000;
    assert Weight(4) == 0x1000_0000;
    assert Weight(6) == 0x80 * Weight(5);
    assert Weight(7) == 0x80 * Weight(6);
    assert Weight(8) == 0x80 * Weight(7);
    assert Weight(9) == 0x80 * Weight(8);
  }

  lemma {:induction false} VarintFits(v: nat, n: nat)
    requires n > 0 && v < Weight(n)
    ensures |EncodeVarint(v)| <= n
  {
    if v >= 128 {
      assert n > 1 by { assert Weight(1) == 128 * Weight(0); }
      VarintFits(v / 128, n - 1);
    }
  }

  lemma {:induction false} VarintRead(v: nat, n: nat, tail: seq<Byte>)
    requires |EncodeVarint(v)| <= n
    ensures GetVarint(EncodeVarint(v) + tail, n) == Got(v, tail)
  {
    var s := EncodeVarint(v) + tail;
    if v < 128 {
      assert s[1..] == tail;
    } else {
      VarintRead(v / 128, n - 1, tail);
      assert s[1..] == EncodeVarint(v / 128) + tail;
    }
  }

  /** The `i`th byte holds the `i`th seven bits, the lowest first, and says whether there are more. */
  lemma {:induction false} VarintDigits(v: nat, i: nat)
    requires i < |EncodeVarint(v)|
    ensures EncodeVarint(v)[i] == v / Weight(i) % 128 + if i + 1 < |EncodeVarint(v)| then 128 else 0
  {
    if i > 0 {
      VarintDigits(v / 128, i - 1);
      DivideTwice(v, Weight(i - 1));
    }
  }

  lemma DivideTwice(v: nat, w: nat)
    requires w > 0
    ensures v / 128 / w == v / (128 * w)
  {
    var u, t := v / 128, v % 128;
    var q, s := u / w, u % w;
    assert v == 128 * (w * q + s) + t == q * (128 * w) + (128 * s + t);
    assert 128 * s + t < 128 * w;
    QuotientIs(v, 128 * w, q, 128 * s + t);
  }

  lemma QuotientIs(v: nat, w: nat, h: nat, r: nat)
    requires v == h * w + r && r < w
    ensures v / w == h && v % w == r
  {
    var q, s := v / w, v % w;
    if q < h {
      Monotone(q + 1, h, w);
    } else if q > h {
      Monotone(h + 1, q, w);
    }
  }

  lemma Monotone(a: nat, b: nat, w: nat)
    requires a <= b
    ensures a * w <= b * w
  {}

  lemma WordFits(v: Word)
    ensures |EncodeVarint(v)| <= 5
  {
    Weights();
    VarintFits(v, 5);
  }

  lemma Word64Fits(v: Word64)
    ensures |EncodeVarint(v)| <= 10
  {
    Weights();
    VarintFits(v, 10);
  }

  lemma Unwrapped32(v: Word)
    ensures v % 0x1_0000_0000 == v
  {}

  lemma Unwrapped64(v: Word64)
    ensures v % 0x1_0000_0000_0000_0000 == v
  {}

  lemma Varint32RoundTrip(v: Word, tail: seq<Byte>)
    ensures GetVarint32(EncodeVarint(v) + tail) == Got(v, tail)
  {
    WordFits(v);
    VarintRead(v, 5, tail);
    Unwrapped32(v);
  }

  lemma Varint64RoundTrip(v: Word64, tail: seq<Byte>)
    ensures GetVarint64(EncodeVarint(v) + tail) == Got(v, tail)
  {
    Word64Fits(v);
    VarintRead(v, 10, tail);
    Unwrapped64(v);
  }

  /** No encoding of a number is shorter than the one written. */
  lemma {:induction false} VarintShortest(s: seq<Byte>, n: nat)
    ensures match GetVarint(s, n) case Missing => true case Got(v, rest) => |s| - |rest| >= |EncodeVarint(v)|
  {
    if n > 0 && s != [] && s[0] >= 128 {
      VarintShortest(s[1..], n - 1);
      if GetVarint(s[1..], n - 1).Got? {
        var v := GetVarint(s[1..], n - 1).value;
        var w := (s[0] - 128) + 128 * v;
        assert w / 128 == v;
      }
    }
  }

  // ---- The coders ----

  method EncodeVarint32(v: Word) returns (r: seq<Byte>)
    ensures r == EncodeVarint(v)
  {
    var a, b, c, d := v / 128, v / 128 / 128, v / 128 / 128 / 128, v / 128 / 128 / 128 / 128;
    if v < 0x80 {
      r := [v];
    } else if v < 0x4000 {
      r := [v % 128 + 128, a];
    } else if v < 0x20_0000 {
      r := [v % 128 + 128, a % 128 + 128, b];
      assert EncodeVarint(a) == [a % 128 + 128] + EncodeVarint(b);
    } else if v < 0x1000_0000 {
      r := [v % 128 + 128, a % 128 + 128, b % 128 + 128, c];
      assert EncodeVarint(b) == [b % 128 + 128] + EncodeVarint(c);
      assert EncodeVarint(a) == [a % 128 + 128] + EncodeVarint(b);
    } else {
      r := [v % 128 + 128, a % 128 + 128, b % 128 + 128, c % 128 + 128, d];
      assert EncodeVarint(c) == [c % 128 + 128] + EncodeVarint(d);
      assert EncodeVarint(b) == [b % 128 + 128] + EncodeVarint(c);
      assert EncodeVarint(a) == [a % 128 + 128] + EncodeVarint(b);
    }
  }

  method EncodeVarint64(value: Word64) returns (r: seq<Byte>)
    ensures r == EncodeVarint(value)
  {
    var v: nat := value;
    r := [];
    while v >= 128
      invariant r + EncodeVarint(v) == EncodeVarint(value)
    {
      assert EncodeVarint(v) == [v % 128 + 128] + EncodeVarint(v / 128);
      r := r + [v % 128 + 128];
      v := v / 128;
    }
    r := r + [v];
  }

  method VarintLength(value: Word64) returns (len: nat)
    ensures len == |EncodeVarint(value)|
  {
    var v: nat := value;
    len := 1;
    while v >= 128
      invariant len - 1 + |EncodeVarint(v)| == |EncodeVarint(value)|
    {
      v := v / 128;
      len := len + 1;
    }
  }

  /** Reading the rest of a varint whose first `i` bytes held `result`. */
  ghost predicate Resumes(whole: Got<nat>, result: nat, weight: nat, part: Got<nat>) {
    match part
    case Missing => whole.Missing?
    case Got(v, rest) => whole == Got(result + weight * v, rest)
  }

  lemma ResumeByte(whole: Got<nat>, result: nat, weight: nat, s: seq<Byte>, n: nat)
    requires Resumes(whole, result, weight, GetVarint(s, n)) && n > 0 && s != []
    ensures s[0] < 128 ==> whole == Got(result + s[0] * weight, s[1..])
    ensures s[0] >= 128 ==> Resumes(whole, result + (s[0] - 128) * weight, 128 * weight, GetVarint(s[1..], n - 1))
  {
    if s[0] >= 128 && GetVarint(s[1..], n - 1).Got? {
      var v := GetVarint(s[1..], n - 1).value;
      assert weight * ((s[0] - 128) + 128 * v) == (s[0] - 128) * weight + (128 * weight) * v;
    }
  }

  /** Adding a digit above `result` stays below the next weight. */
  lemma DigitBelow(result: nat, weight: nat, digit: nat)
    requires result < weight && digit < 128
    ensures result + digit * weight < 128 * weight
  {
    assert digit * weight <= 127 * weight;
  }

  /** The bits of `result` lie below the weight of the byte being read, so or-ing it in is adding it; only
      the fifth byte can overflow the word. */
  method GetVarint32Fallback(s: seq<Byte>) returns (r: Got<Word>)
    ensures r == GetVarint32(s)
  {
    ghost var whole := GetVarint(s, 5);
    var result: nat, weight: nat, rest: seq<Byte>, i := 0, 1, s, 0;
    while i < 5 && rest != []
      invariant i <= 5 && weight == Weight(i) && result < weight
      invariant Resumes(whole, result, weight, GetVarint(rest, 5 - i))
    {
      ResumeByte(whole, result, weight, rest, 5 - i);
      DigitBelow(result, weight, rest[0] % 128);
      if rest[0] < 128 {
        return Got((result + rest[0] * weight) % 0x1_0000_0000, rest[1..]);
      }
      result := result + (rest[0] - 128) * weight;
      weight, rest, i := 128 * weight, rest[1..], i + 1;
    }
    r := Missing;
  }

  method GetVarint32Ptr(s: seq<Byte>) returns (r: Got<Word>)
    ensures r == GetVarint32(s)
  {
    if s != [] && s[0] < 128 {
      return Got(s[0], s[1..]);
    }
    r := GetVarint32Fallback(s);
  }

  method GetVarint64Ptr(s: seq<Byte>) returns (r: Got<Word64>)
    ensures r == GetVarint64(s)
  {
    ghost var whole := GetVarint(s, 10);
    var result: nat, weight: nat, rest: seq<Byte>, i := 0, 1, s, 0;
    while i < 10 && rest != []
      invariant i <= 10 && weight == Weight(i) && result < weight
      invariant Resumes(whole, result, weight, GetVarint(rest, 10 - i))
    {
      ResumeByte(whole, result, weight, rest, 10 - i);
      DigitBelow(result, weight, rest[0] % 128);
      if rest[0] < 128 {
        return Got((result + rest[0] * weight) % 0x1_0000_0000_0000_0000, rest[1..]);
      }
      result := result + (rest[0] - 128) * weight;
      weight, rest, i := 128 * weight, rest[1..], i + 1;
    }
    r := Missing;
  }

  // ---- Length-prefixed strings ----

  function PutLengthPrefixed(value: seq<Byte>): seq<Byte> {
    EncodeVarint(|value| % 0x1_0000_0000) + value
  }

  function GetLengthPrefixed(s: seq<Byte>): (r: Got<seq<Byte>>)
    ensures r.Got? ==> |r.rest| < |s|
  {
    match GetVarint32(s)
    case Missing => Missing
    case Got(len, rest) => if |rest| >= len then Got(rest[..len], rest[len..]) else Missing
  }

  lemma LengthPrefixedRead(value: seq<Byte>, tail: seq<Byte>)
    requires |value| < 0x1_0000_0000
    ensures GetLengthPrefixed(PutLengthPrefixed(value) + tail) == Got(value, tail)
  {
    Varint32RoundTrip(|value|, value + tail);
    assert PutLengthPrefixed(value) + tail == EncodeVarint(|value|) + (value + tail);
    assert (value + tail)[..|value|] == value && (value + tail)[|value|..] == tail;
  }

  /** The length is cut to 32 bits: a string comes back whole, whatever follows it, if and only if its
      length fits. */
  lemma LengthPrefixedRoundTrip(value: seq<Byte>, tail: seq<Byte>)
    ensures GetLengthPrefixed(PutLengthPrefixed(value) + tail) == Got(value, tail) <==> |value| < 0x1_0000_0000
  {
    if |value| < 0x1_0000_0000 {
      LengthPrefixedRead(value, tail);
    } else {
      var n := |value| % 0x1_0000_0000;
      Varint32RoundTrip(n, value + tail);
      assert PutLengthPrefixed(value) + tail == EncodeVarint(n) + (value + tail);
    }
  }
}
