/** Integers, tags and length-delimited strings on the wire (nanopb pb_encode.c, pb_decode.c). */
module NanopbWire {
  import opened Options
  import opened Coding
  import opened NanopbFields

  const WT_VARINT := 0
  const WT_64BIT := 1
  const WT_STRING := 2
  const WT_32BIT := 5

  const TWO_32 := 0x1_0000_0000
  const TWO_63 := 0x8000_0000_0000_0000
  const TWO_64 := 0x1_0000_0000_0000_0000

  // ---- The 32-bit reader ----

  /** The 32-bit reader after the first byte: `result` holds the bits below `bitpos`. Bytes from bit 32 on must
      be empty, or look like the extension of a negative number. */
  function Varint32More(s: seq<Byte>, result: Word, bitpos: nat): (r: Got<Word>)
    ensures r.Got? ==> |r.rest| < |s|
  {
    if s == [] || (bitpos >= 32 && BadExtension(s[0], result, bitpos)) then Missing
    else
      var result' := if bitpos < 32 then OrBits(result, s[0] % 128, bitpos) else result;
      if s[0] >= 128 then Varint32More(s[1..], result', bitpos + 7)
      else if bitpos == 28 && s[0] / 16 != 0 then Missing
      else Got(result', s[1..])
  }

  predicate BadExtension(b: Byte, result: Word, bitpos: nat) {
    b % 128 != 0 && (result < 0x8000_0000 || b != if bitpos < 63 then 0xFF else 0x01)
  }

  /** `result | digit << bitpos` in 32 bits, where `result` has no bits from `bitpos` on. */
  function OrBits(result: Word, digit: Byte, bitpos: nat): Word {
    (result + digit * Weight(bitpos / 7)) % TWO_32
  }

  function ReadVarint32(s: seq<Byte>): (r: Got<Word>)
    ensures r.Got? ==> |r.rest| < |s|
  {
    if s == [] then Missing else if s[0] < 128 then Got(s[0], s[1..]) else Varint32More(s[1..], s[0] - 128, 7)
  }

  lemma WeightStep(k: nat, u: nat, result: nat)
    ensures result + u * Weight(k) == (result + u % 128 * Weight(k)) + u / 128 * Weight(k + 1)
  {
    var w := Weight(k);
    assert u == u % 128 + 128 * (u / 128);
    assert u * w == (u % 128) * w + (u / 128) * (128 * w);
  }

  lemma SmallWeights()
    ensures Weight(0) == 1 && Weight(1) == 0x80 && Weight(2) == 0x4000 && Weight(3) == 0x20_0000 && Weight(4) == 0x1000_0000
  {
    assert Weight(1) == 128 * Weight(0);
    assert Weight(2) == 128 * Weight(1);
    assert Weight(3) == 128 * Weight(2);
    assert Weight(4) == 128 * Weight(3);
  }

  /** What is left of a number that fits is read. */
  lemma {:induction false} MoreFits(u: nat, result: Word, k: nat, tail: seq<Byte>)
    requires 1 <= k <= 4 && result < Weight(k) && result + u * Weight(k) < TWO_32
    ensures Varint32More(EncodeVarint(u) + tail, result, 7 * k) == Got(result + u * Weight(k), tail)
  {
    SmallWeights();
    WeightStep(k, u, result);
    var s := EncodeVarint(u) + tail;
    var digit := u % 128;
    assert s[0] % 128 == digit;
    DigitBelow(result, Weight(k), digit);
    assert u / 128 * Weight(k + 1) >= 0;
    assert OrBits(result, digit, 7 * k) == result + digit * Weight(k);
    if u < 128 {
      assert s[1..] == tail;
      assert u / 128 * Weight(k + 1) == 0;
    } else {
      assert k < 4;
      MoreFits(u / 128, result + digit * Weight(k), k + 1, tail);
      assert s[1..] == EncodeVarint(u / 128) + tail;
    }
  }

  /** Past bit 32 a number below 2^63 has a last byte that is not empty and does not look like an extension. */
  lemma {:induction false} MoreOverflows(u: nat, result: Word, k: nat, tail: seq<Byte>)
    requires 5 <= k <= 9 && 0 < u < Weight(9 - k)
    ensures Varint32More(EncodeVarint(u) + tail, result, 7 * k) == Missing
  {
    var s := EncodeVarint(u) + tail;
    assert s[0] % 128 == u % 128;
    if u >= 128 {
      assert k < 8 by { assert Weight(1) == 128 * Weight(0); }
      MoreOverflows(u / 128, result, k + 1, tail);
      assert s[1..] == EncodeVarint(u / 128) + tail;
    }
  }

  /** The fifth byte has room for four bits. */
  lemma FifthByte(u: nat, result: Word, tail: seq<Byte>)
    requires result < Weight(4) && 16 <= u < Weight(5)
    ensures Varint32More(EncodeVarint(u) + tail, result, 28) == Missing
  {
    var s := EncodeVarint(u) + tail;
    if u >= 128 {
      MoreOverflows(u / 128, OrBits(result, s[0] % 128, 28), 5, tail);
      assert s[1..] == EncodeVarint(u / 128) + tail;
    }
  }

  lemma {:induction false} MoreTooLarge(u: nat, result: Word, k: nat, tail: seq<Byte>)
    requires 1 <= k <= 4 && result < Weight(k) && u < Weight(9 - k) && result + u * Weight(k) >= TWO_32
    ensures Varint32More(EncodeVarint(u) + tail, result, 7 * k) == Missing
  {
    SmallWeights();
    if k == 4 {
      FifthByte(u, result, tail);
    } else {
      LargeStep(u, result, k, tail);
      WeightStep(k, u, result);
      MoreTooLarge(u / 128, result + u % 128 * Weight(k), k + 1, tail);
    }
  }

  lemma LargeStep(u: nat, result: Word, k: nat, tail: seq<Byte>)
    requires 1 <= k <= 3 && result < Weight(k) && u < Weight(9 - k) && result + u * Weight(k) >= TWO_32
    ensures u / 128 < Weight(9 - (k + 1))
    ensures result + u % 128 * Weight(k) < Weight(k + 1)
    ensures Weight(k + 1) <= Weight(4) < TWO_32
    ensures Varint32More(EncodeVarint(u) + tail, result, 7 * k)
         == Varint32More(EncodeVarint(u / 128) + tail, result + u % 128 * Weight(k), 7 * (k + 1))
  {
    SmallWeights();
    var s := EncodeVarint(u) + tail;
    DigitBelow(result, Weight(k), u % 128);
    assert Weight(9 - k) == 128 * Weight(9 - (k + 1));
    if u < 128 {
      DigitBelow(result, Weight(k), u);
    } else {
      assert s[0] % 128 == u % 128;
      assert OrBits(result, u % 128, 7 * k) == result + u % 128 * Weight(k);
      assert s[1..] == EncodeVarint(u / 128) + tail;
    }
  }

  /** The 32-bit reader takes a number back if and only if it fits in 32 bits, and refuses it otherwise. */
  lemma Varint32Exact(v: nat, tail: seq<Byte>)
    requires v < TWO_63
    ensures ReadVarint32(EncodeVarint(v) + tail) == if v < TWO_32 then Got(v, tail) else Missing
  {
    SmallWeights();
    var s := EncodeVarint(v) + tail;
    if v < 128 {
      assert s[1..] == tail;
    } else {
      assert s[1..] == EncodeVarint(v / 128) + tail;
      assert s[0] == v % 128 + 128;
      assert v == v % 128 + v / 128 * Weight(1);
      if v < TWO_32 {
        MoreFits(v / 128, v % 128, 1, tail);
      } else {
        assert Weight(8) == 0x100_0000_0000_0000 by { Weights(); assert Weight(10) == 128 * Weight(9); assert Weight(9) == 128 * Weight(8); }
        MoreTooLarge(v / 128, v % 128, 1, tail);
      }
    }
  }

  /** Dividing by 128 once more takes the next seven bits off. */
  lemma NextGroup(v: nat, w: nat)
    requires w > 0
    ensures v / w / 128 == v / (128 * w)
    ensures v % (128 * w) == v % w + v / w % 128 * w
  {
    var q := v / w;
    var r, h, d := v % w, q / 128, q % 128;
    assert v == q * w + r && q == 128 * h + d;
    assert q * w == h * (128 * w) + d * w;
    DigitBelow(r, w, d);
    QuotientIs(v, 128 * w, h, r + d * w);
  }

  /** The first bytes of a long number: the 32-bit reader has its lowest bits, without those from bit 32 on. */
  lemma {:induction false} FirstBytes(v: nat, k: nat, tail: seq<Byte>)
    requires 1 <= k <= 5 && v >= 0x8_0000_0000
    ensures ReadVarint32(EncodeVarint(v) + tail)
         == Varint32More(EncodeVarint(v / Weight(k)) + tail, v % Weight(k) % TWO_32, 7 * k)
  {
    SmallWeights();
    if k == 1 {
      assert (EncodeVarint(v) + tail)[1..] == EncodeVarint(v / 128) + tail;
    } else {
      FirstBytes(v, k - 1, tail);
      FirstBytesStep(v, k - 1, Weight(k - 1), tail);
    }
  }

  lemma FirstBytesStep(v: nat, k: nat, w: nat, tail: seq<Byte>)
    requires 1 <= k <= 4 && w == Weight(k) <= 0x1000_0000 && v >= 128 * w
    ensures Varint32More(EncodeVarint(v / w) + tail, v % w % TWO_32, 7 * k)
         == Varint32More(EncodeVarint(v / Weight(k + 1)) + tail, v % Weight(k + 1) % TWO_32, 7 * (k + 1))
  {
    var u, r := v / w, v % w;
    assert r < w;
    assert r % TWO_32 == r;
    LongerThan(v, w);
    OneByte(u, r, k, tail);
    NextGroup(v, w);
    assert Weight(k + 1) == 128 * w;
  }

  lemma LongerThan(v: nat, w: nat)
    requires w > 0 && v >= 128 * w
    ensures v / w >= 128
  {
    NextGroup(v, w);
    assert v / (128 * w) >= 1;
  }

  /** One byte in the middle of a number. */
  lemma OneByte(u: nat, r: nat, k: nat, tail: seq<Byte>)
    requires 1 <= k <= 4 && u >= 128 && r < Weight(k) <= 0x1000_0000
    ensures Varint32More(EncodeVarint(u) + tail, r, 7 * k)
         == Varint32More(EncodeVarint(u / 128) + tail, (r + u % 128 * Weight(k)) % TWO_32, 7 * (k + 1))
  {
    var s := EncodeVarint(u) + tail;
    assert s[0] % 128 == u % 128 && s[1..] == EncodeVarint(u / 128) + tail;
  }

  /** The seven bits of `v` from bit `7 * i` on. */
  function Group(v: nat, i: nat): Byte {
    v / Weight(i) % 128
  }

  /** The `n` lowest groups are each all zeros or all ones. */
  predicate Plain(u: nat, n: nat) {
    n == 0 || ((u % 128 == 0 || u % 128 == 127) && Plain(u / 128, n - 1))
  }

  /** From bit 35 on, with bit 63 set. */
  lemma {:induction false} LastBytes(u: nat, result: Word, k: nat, tail: seq<Byte>)
    requires 5 <= k <= 9 && Weight(9 - k) <= u < 2 * Weight(9 - k)
    ensures Varint32More(EncodeVarint(u) + tail, result, 7 * k)
         == if result >= 0x8000_0000 && Plain(u, 9 - k) then Got(result, tail) else Missing
  {
    var s := EncodeVarint(u) + tail;
    if k == 9 {
      assert u == 1 && s[0] == 1 && s[1..] == tail;
    } else {
      assert Weight(9 - k) == 128 * Weight(8 - k);
      assert s[0] == u % 128 + 128 && s[1..] == EncodeVarint(u / 128) + tail;
      LastBytes(u / 128, result, k + 1, tail);
    }
  }

  lemma PlainGroups(v: nat)
    ensures Plain(v / Weight(5), 4) <==> forall i {:trigger Group(v, i)} :: 5 <= i < 9 ==> Group(v, i) == 0 || Group(v, i) == 127
  {
    NextGroup(v, Weight(5));
    NextGroup(v, Weight(6));
    NextGroup(v, Weight(7));
    var u := v / Weight(5);
    assert Plain(u / 128 / 128 / 128, 1) <==> Group(v, 8) == 0 || Group(v, 8) == 127;
    assert Plain(u / 128 / 128, 2) <==> (Group(v, 7) == 0 || Group(v, 7) == 127) && Plain(u / 128 / 128 / 128, 1);
    assert Plain(u / 128, 3) <==> (Group(v, 6) == 0 || Group(v, 6) == 127) && Plain(u / 128 / 128, 2);
    assert Plain(u, 4) <==> (Group(v, 5) == 0 || Group(v, 5) == 127) && Plain(u / 128, 3);
  }

  /** What the 32-bit reader takes for a negative number: one with bit 31 set whose groups of seven bits from bit
      35 to bit 62 are each all zeros or all ones.  Bits 32 to 34 are not looked at. */
  predicate TakenForNegative(v: nat) {
    v % TWO_32 >= 0x8000_0000 && forall i {:trigger Group(v, i)} :: 5 <= i < 9 ==> Group(v, i) == 0 || Group(v, i) == 127
  }

  /** Of the numbers from 2^63 on, which stand for negative ones, the reader takes exactly these, and gives their low
      32 bits. */
  lemma Varint32Loose(v: nat, tail: seq<Byte>)
    requires TWO_63 <= v < TWO_64
    ensures ReadVarint32(EncodeVarint(v) + tail) == if TakenForNegative(v) then Got(v % TWO_32, tail) else Missing
  {
    TopBits(v);
    FirstBytes(v, 5, tail);
    LastBytes(v / Weight(5), v % TWO_32, 5, tail);
    PlainGroups(v);
  }

  lemma TopBits(v: nat)
    requires TWO_63 <= v < TWO_64
    ensures Weight(4) <= v / Weight(5) < 2 * Weight(4)
    ensures v % Weight(5) % TWO_32 == v % TWO_32
  {
    SmallWeights();
    Weights();
    assert v == v / 0x8_0000_0000 * 0x8_0000_0000 + v % 0x8_0000_0000;
  }

  /** What was taken is the right negative number if and only if bits 32 to 62 are all set. */
  lemma TakenRightly(v: nat)
    requires TWO_63 <= v < TWO_64 && TakenForNegative(v)
    ensures CastSigned(v % TWO_32, 4) == CastSigned(v, 8) <==> v / TWO_32 == TWO_32 - 1
  {
    assert v == v / TWO_32 * TWO_32 + v % TWO_32;
    assert (v + TWO_63) % TWO_64 == v - TWO_63;
    assert (v % TWO_32 + TWO_32 / 2) % TWO_32 == v % TWO_32 - TWO_32 / 2;
  }

  /** A number that is taken for another: bits 32 to 62 are all clear. */
  lemma TakenForAnother()
    ensures var v := TWO_63 + 0x8000_0000;
      ReadVarint32(EncodeVarint(v)) == Got(0x8000_0000, []) && CastSigned(0x8000_0000, 4) != CastSigned(v, 8)
  {
    var v := TWO_63 + 0x8000_0000;
    SmallWeights();
    Weights();
    assert Weight(6) == 0x400_0000_0000 && Weight(7) == 0x2_0000_0000_0000 && Weight(8) == 0x100_0000_0000_0000 by {
      assert Weight(10) == 128 * Weight(9) && Weight(9) == 128 * Weight(8);
      assert Weight(8) == 128 * Weight(7) && Weight(7) == 128 * Weight(6);
    }
    Varint32Loose(v, []);
    assert EncodeVarint(v) + [] == EncodeVarint(v);
    TakenRightly(v);
  }

  // ---- Signed numbers ----

  /** The number of values of an integer of `size` bytes. */
  function Modulus(size: nat): nat
    requires ValidSize(size)
  {
    if size == 1 then 0x100 else if size == 2 then 0x1_0000 else if size == 4 then TWO_32 else TWO_64
  }

  predicate ValidSize(size: nat) {
    size == 1 || size == 2 || size == 4 || size == 8
  }

  predicate FitsSigned(n: int, size: nat)
    requires ValidSize(size)
  {
    0 <= 2 * n + Modulus(size) < 2 * Modulus(size)
  }

  /** A cast to a signed integer of `size` bytes. */
  function CastSigned(n: int, size: nat): (r: int)
    requires ValidSize(size)
    ensures FitsSigned(r, size)
  {
    (n + Modulus(size) / 2) % Modulus(size) - Modulus(size) / 2
  }

  /** A cast keeps a number if and only if it fits. */
  lemma CastKeeps(n: int, size: nat)
    requires ValidSize(size)
    ensures CastSigned(n, size) == n <==> FitsSigned(n, size)
  {
  }

  /** `pb_encode_svarint`: the sign goes to the lowest bit. */
  function Zigzag(n: int): Word64 {
    var shifted := 2 * n % TWO_64;
    if n < 0 then TWO_64 - 1 - shifted else shifted
  }

  function Unzigzag(w: Word64): int {
    CastSigned(if w % 2 == 1 then TWO_64 - 1 - w / 2 else w / 2, 8)
  }

  lemma ZigzagRoundTrip(n: int)
    requires FitsSigned(n, 8)
    ensures Unzigzag(Zigzag(n)) == n
    ensures Zigzag(n) == if n < 0 then -2 * n - 1 else 2 * n
  {
    CastKeeps(n, 8);
    ZigzagIs(n);
    if n < 0 {
      var w := -2 * n - 1;
      assert w == 2 * (-n - 1) + 1;
      CastOfNegative(n);
    }
  }

  lemma ZigzagIs(n: int)
    requires FitsSigned(n, 8)
    ensures Zigzag(n) == if n < 0 then -2 * n - 1 else 2 * n
  {
    if n < 0 {
      assert 2 * n % TWO_64 == 2 * n + TWO_64;
    }
  }

  lemma CastOfNegative(n: int)
    requires FitsSigned(n, 8) && n < 0
    ensures CastSigned(TWO_64 + n, 8) == n
  {
    assert (TWO_64 + n + TWO_63) % TWO_64 == n + TWO_63;
  }

  // ---- Tags and strings ----

  function EncodeTag(tag: nat, wireType: nat): seq<Byte> {
    EncodeVarint(8 * tag + wireType)
  }

  function PutString(b: seq<Byte>): seq<Byte> {
    EncodeVarint(|b|) + b
  }

  /** A length and as many bytes. */
  function TakeString(s: seq<Byte>): (r: Got<seq<Byte>>)
    ensures r.Got? ==> |r.rest| + |r.value| < |s|
  {
    match ReadVarint32(s)
    case Missing => Missing
    case Got(n, rest) => if |rest| < n then Missing else Got(rest[..n], rest[n..])
  }

  /** A string is taken back if and only if its length is read in 32 bits. */
  lemma StringRoundTrip(b: seq<Byte>, tail: seq<Byte>)
    requires |b| < TWO_63
    ensures TakeString(PutString(b) + tail) == if |b| < TWO_32 then Got(b, tail) else Missing
  {
    assert PutString(b) + tail == EncodeVarint(|b|) + (b + tail);
    Varint32Exact(|b|, b + tail);
    assert (b + tail)[..|b|] == b && (b + tail)[|b|..] == tail;
  }

  function SkipVarint(s: seq<Byte>): (r: Option<seq<Byte>>)
    ensures r.Some? ==> |r.value| < |s|
  {
    if s == [] then None else if s[0] < 128 then Some(s[1..]) else SkipVarint(s[1..])
  }

  function Drop(s: seq<Byte>, n: nat): (r: Option<seq<Byte>>)
    ensures r.Some? ==> |r.value| <= |s|
  {
    if |s| < n then None else Some(s[n..])
  }

  function SkipField(s: seq<Byte>, wireType: nat): (r: Option<seq<Byte>>)
    ensures r.Some? ==> |r.value| <= |s|
  {
    if wireType == WT_VARINT then SkipVarint(s)
    else if wireType == WT_64BIT then Drop(s, 8)
    else if wireType == WT_STRING then
      (match TakeString(s) case Missing => None case Got(_, rest) => Some(rest))
    else if wireType == WT_32BIT then Drop(s, 4)
    else None
  }
}
