/** CRC-32C, a byte at a time and in strides (util/crc32c).  Words are their bits, least significant first, so
    that a little-endian word is its bytes one after the other. */
module Crcs {

  type Bits = seq<bool>
  type Byte = b: Bits | |b| == 8 witness [false, false, false, false, false, false, false, false]
  type Word = w: Bits | |w| == 32 witness seq(32, _ => false)

  /** A table of 256 words. */
  type Table = Byte -> Word

  /** The byte table and the four stride tables. */
  datatype Tables = Tables(byte: Table, stride0: Table, stride1: Table, stride2: Table, stride3: Table)

  function Zeros(n: nat): (z: Bits)
    ensures |z| == n && forall i :: 0 <= i < n ==> !z[i]
  {
    seq(n, _ => false)
  }

  function Xor(a: Bits, b: Bits): (c: Bits)
    requires |a| == |b|
    ensures |c| == |a| && forall i :: 0 <= i < |a| ==> c[i] == (a[i] != b[i])
  {
    seq(|a|, i requires 0 <= i < |a| => a[i] != b[i])
  }

  lemma XorAssociates(a: Bits, b: Bits, c: Bits)
    requires |a| == |b| == |c|
    ensures Xor(Xor(a, b), c) == Xor(a, Xor(b, c))
  {}

  lemma XorSwap(a: Bits, b: Bits, c: Bits, d: Bits)
    requires |a| == |b| == |c| == |d|
    ensures Xor(Xor(a, b), Xor(c, d)) == Xor(Xor(a, c), Xor(b, d))
  {}

  lemma XorTwice(a: Bits, b: Bits)
    requires |a| == |b|
    ensures Xor(Xor(a, b), b) == a
  {}

  lemma XorSelf(a: Bits)
    ensures Xor(a, a) == Zeros(|a|)
  {}

  lemma XorZero(a: Bits, z: Bits)
    requires z == Zeros(|a|)
    ensures Xor(z, a) == a && Xor(a, z) == a
  {}

  lemma XorConcat(a: Bits, b: Bits, c: Bits, d: Bits)
    requires |a| == |c| && |b| == |d|
    ensures Xor(a + b, c + d) == Xor(a, c) + Xor(b, d)
  {}

  lemma XorSlice(a: Bits, b: Bits, i: nat, j: nat)
    requires |a| == |b| && i <= j <= |a|
    ensures Xor(a, b)[i..j] == Xor(a[i..j], b[i..j])
  {}

  // ---- The register, a byte at a time ----

  /** Shift right by eight bits. */
  function Shift(w: Word): Word {
    w[8..] + Zeros(8)
  }

  /** STEP1: take in one byte. */
  function Step(t: Table, l: Word, b: Byte): Word {
    Xor(t(Xor(l[..8], b)), Shift(l))
  }

  function Bytewise(t: Table, l: Word, s: seq<Byte>): Word {
    if s == [] then l else Step(t, Bytewise(t, l, s[..|s| - 1]), s[|s| - 1])
  }

  function Ones(): Word {
    seq(32, _ => true)
  }

  /** The checksum of bytes that follow others with checksum `crc`. */
  function Extended(t: Table, crc: Word, s: seq<Byte>): Word {
    Xor(Bytewise(t, Xor(crc, Ones()), s), Ones())
  }

  lemma {:induction false} BytewiseConcat(t: Table, l: Word, a: seq<Byte>, b: seq<Byte>)
    ensures Bytewise(t, l, a + b) == Bytewise(t, Bytewise(t, l, a), b)
  {
    if b == [] {
      assert a + b == a;
    } else {
      BytewiseConcat(t, l, a, b[..|b| - 1]);
      assert (a + b)[..|a + b| - 1] == a + b[..|b| - 1];
    }
  }

  /** Extending twice is extending once: the writer's precomputed checksum of the type byte, extended over
      the data, is the reader's checksum over both. */
  lemma ExtendConcat(t: Table, crc: Word, a: seq<Byte>, b: seq<Byte>)
    ensures Extended(t, Extended(t, crc, a), b) == Extended(t, crc, a + b)
  {
    XorTwice(Bytewise(t, Xor(crc, Ones()), a), Ones());
    BytewiseConcat(t, Xor(crc, Ones()), a, b);
  }

  // ---- Linearity ----

  predicate LinearAt(t: Table, a: Byte, b: Byte) {
    t(Xor(a, b)) == Xor(t(a), t(b))
  }

  ghost predicate Linear(t: Table) {
    forall a: Byte, b: Byte :: LinearAt(t, a, b)
  }

  /** One zero byte. */
  function Zero(t: Table, w: Word): Word {
    Xor(t(w[..8]), Shift(w))
  }

  /** Four zero bytes. */
  function Zero4(t: Table, w: Word): Word {
    Zero(t, Zero(t, Zero(t, Zero(t, w))))
  }

  /** Sixteen zero bytes. */
  function Zero16(t: Table, w: Word): Word {
    Zero4(t, Zero4(t, Zero4(t, Zero4(t, w))))
  }

  lemma ShiftXor(a: Word, b: Word)
    ensures Shift(Xor(a, b)) == Xor(Shift(a), Shift(b))
  {}

  lemma ZeroLinear(t: Table, a: Word, b: Word)
    requires Linear(t)
    ensures Zero(t, Xor(a, b)) == Xor(Zero(t, a), Zero(t, b))
  {
    XorSlice(a, b, 0, 8);
    assert LinearAt(t, a[..8], b[..8]);
    ShiftXor(a, b);
    XorSwap(t(a[..8]), t(b[..8]), Shift(a), Shift(b));
  }

  lemma Zero4Linear(t: Table, a: Word, b: Word)
    requires Linear(t)
    ensures Zero4(t, Xor(a, b)) == Xor(Zero4(t, a), Zero4(t, b))
  {
    var a1, b1 := Zero(t, a), Zero(t, b);
    var a2, b2 := Zero(t, a1), Zero(t, b1);
    var a3, b3 := Zero(t, a2), Zero(t, b2);
    ZeroLinear(t, a, b);
    ZeroLinear(t, a1, b1);
    ZeroLinear(t, a2, b2);
    ZeroLinear(t, a3, b3);
  }

  lemma Zero16Linear(t: Table, a: Word, b: Word)
    requires Linear(t)
    ensures Zero16(t, Xor(a, b)) == Xor(Zero16(t, a), Zero16(t, b))
  {
    var a1, b1 := Zero4(t, a), Zero4(t, b);
    var a2, b2 := Zero4(t, a1), Zero4(t, b1);
    var a3, b3 := Zero4(t, a2), Zero4(t, b2);
    Zero4Linear(t, a, b);
    Zero4Linear(t, a1, b1);
    Zero4Linear(t, a2, b2);
    Zero4Linear(t, a3, b3);
  }

  // ---- Words ----

  /** Taking in a byte is taking in a zero byte after xoring it in. */
  lemma StepIsZero(t: Table, l: Word, b: Byte)
    ensures Step(t, l, b) == Zero(t, Xor(l, b + Zeros(24)))
  {
    var w := Xor(l, b + Zeros(24));
    assert w[..8] == Xor(l[..8], b);
    assert Shift(w) == Shift(l);
  }

  lemma TableZero(t: Table)
    requires Linear(t)
    ensures t(Zeros(8)) == Zeros(32)
  {
    assert LinearAt(t, Zeros(8), Zeros(8));
    XorSelf(Zeros(8));
    XorSelf(t(Zeros(8)));
  }

  /** Bytes above the lowest move down unchanged under a zero byte. */
  lemma ZeroShifts(t: Table, w: Word, y: Bits)
    requires Linear(t) && |y| == 24
    ensures Zero(t, Xor(w, Zeros(8) + y)) == Xor(Zero(t, w), y + Zeros(8))
  {
    var x := Zeros(8) + y;
    ZeroLinear(t, w, x);
    TableZero(t);
    assert x[..8] == Zeros(8) && Shift(x) == y + Zeros(8);
    XorZero(y + Zeros(8), Zeros(32));
  }

  /** A word as its lowest byte and the rest, xored together. */
  lemma SplitWord(l: Word, b: Byte, y: Bits)
    requires |y| == 24
    ensures Xor(l, b + y) == Xor(Xor(l, b + Zeros(24)), Zeros(8) + y)
  {}

  /** One byte of a word taken in, the others moved down. */
  lemma ByteOfWord(t: Table, l: Word, b: Byte, y: Bits)
    requires Linear(t) && |y| == 24
    ensures Zero(t, Xor(l, b + y)) == Xor(Step(t, l, b), y + Zeros(8))
  {
    SplitWord(l, b, y);
    StepIsZero(t, l, b);
    ZeroShifts(t, Xor(l, b + Zeros(24)), y);
  }

  function WordOf(s: seq<Byte>): Word
    requires |s| >= 4
  {
    var a: Bits, b: Bits, c: Bits, d: Bits := s[0], s[1], s[2], s[3];
    a + (b + (c + d))
  }

  /** Four bytes at once: xor in the word, then four zero bytes. */
  lemma WordStep(t: Table, l: Word, s: seq<Byte>)
    requires Linear(t) && |s| == 4
    ensures Bytewise(t, l, s) == Zero4(t, Xor(l, WordOf(s)))
  {
    var z := Zeros(8);
    var b: Bits, c: Bits, d: Bits := s[1], s[2], s[3];
    var l1 := Step(t, l, s[0]);
    var l2 := Step(t, l1, s[1]);
    var l3 := Step(t, l2, s[2]);
    var l4 := Step(t, l3, s[3]);
    FourSteps(t, l, s);
    ByteOfWord(t, l, s[0], b + (c + d));
    assert b + (c + d) + z == b + (c + d + z);
    ByteOfWord(t, l1, s[1], c + d + z);
    assert c + d + z + z == c + (d + z + z);
    ByteOfWord(t, l2, s[2], d + z + z);
    assert d + z + z + z == d + (z + z + z);
    ByteOfWord(t, l3, s[3], z + z + z);
    assert z + z + z + z == Zeros(32);
    XorZero(l4, Zeros(32));
  }

  lemma FourSteps(t: Table, l: Word, s: seq<Byte>)
    requires |s| == 4
    ensures Bytewise(t, l, s) == Step(t, Step(t, Step(t, Step(t, l, s[0]), s[1]), s[2]), s[3])
  {
    assert s[..3][..2] == s[..2] && s[..2][..1] == s[..1] && s[..1][..0] == [];
    assert Bytewise(t, l, s[..1]) == Step(t, l, s[0]);
    assert Bytewise(t, l, s[..2]) == Step(t, Bytewise(t, l, s[..1]), s[1]);
    assert Bytewise(t, l, s[..3]) == Step(t, Bytewise(t, l, s[..2]), s[2]);
  }

  // ---- Strides ----

  /** The stride tables: each byte of a word, moved past sixteen zero bytes. */
  ghost predicate StridesOk(ts: Tables) {
    Linear(ts.byte) && forall b: Byte :: StrideAt(ts, b)
  }

  /** A byte in its place in a word, from the lowest place up. */
  function At0(b: Byte): Word {
    b + Zeros(24)
  }

  function At8(b: Byte): Word {
    Zeros(8) + b + Zeros(16)
  }

  function At16(b: Byte): Word {
    Zeros(16) + b + Zeros(8)
  }

  function At24(b: Byte): Word {
    Zeros(24) + b
  }

  predicate StrideAt(ts: Tables, b: Byte) {
    && ts.stride3(b) == Zero16(ts.byte, At0(b))
    && ts.stride2(b) == Zero16(ts.byte, At8(b))
    && ts.stride1(b) == Zero16(ts.byte, At16(b))
    && ts.stride0(b) == Zero16(ts.byte, At24(b))
  }

  /** STEP4: a partial result moved past its stride, and the next word taken in. */
  function Step4(ts: Tables, crc: Word, word: Word): Word {
    Xor(Xor(Xor(Xor(word, ts.stride3(crc[..8])), ts.stride2(crc[8..16])), ts.stride1(crc[16..24])), ts.stride0(crc[24..]))
  }

  /** A word is its bytes, each in its place, xored together. */
  lemma FourParts(w: Word)
    ensures w == Xor(Xor(Xor(At0(w[..8]), At8(w[8..16])), At16(w[16..24])), At24(w[24..]))
  {}

  lemma Zero16Four(t: Table, a: Word, b: Word, c: Word, d: Word)
    requires Linear(t)
    ensures Zero16(t, Xor(Xor(Xor(a, b), c), d))
            == Xor(Xor(Xor(Zero16(t, a), Zero16(t, b)), Zero16(t, c)), Zero16(t, d))
  {
    Zero16Linear(t, Xor(Xor(a, b), c), d);
    Zero16Linear(t, Xor(a, b), c);
    Zero16Linear(t, a, b);
  }

  lemma Step4IsZero16(ts: Tables, crc: Word, word: Word)
    requires StridesOk(ts)
    ensures Step4(ts, crc, word) == Xor(word, Zero16(ts.byte, crc))
  {
    var a: Byte, b: Byte, c: Byte, d: Byte := crc[..8], crc[8..16], crc[16..24], crc[24..];
    assert StrideAt(ts, a) && StrideAt(ts, b) && StrideAt(ts, c) && StrideAt(ts, d);
    FourParts(crc);
    Zero16Four(ts.byte, At0(a), At8(b), At16(c), At24(d));
    XorFive(word, ts.stride3(a), ts.stride2(b), ts.stride1(c), ts.stride0(d));
  }

  lemma XorFive(w: Word, a: Word, b: Word, c: Word, d: Word)
    ensures Xor(Xor(Xor(Xor(w, a), b), c), d) == Xor(w, Xor(Xor(Xor(a, b), c), d))
  {}

  /** ReadUint32LE. */
  function WordAt(data: seq<Byte>, p: nat): Word
    requires p + 4 <= |data|
  {
    WordOf(data[p..p + 4])
  }

  /** The register that four partial results stand for. */
  function Combine(t: Table, c0: Word, c1: Word, c2: Word, c3: Word): Word {
    Zero4(t, Xor(c3, Zero4(t, Xor(c2, Zero4(t, Xor(c1, Zero4(t, c0)))))))
  }

  /** Moving the oldest partial result on by one word, and making it the newest, takes in that word. */
  lemma RotateStep(t: Table, c0: Word, c1: Word, c2: Word, c3: Word, word: Word)
    requires Linear(t)
    ensures Combine(t, c1, c2, c3, Xor(word, Zero16(t, c0))) == Zero4(t, Xor(Combine(t, c0, c1, c2, c3), word))
  {
    var z0 := Zero4(t, c0);
    var z1 := Zero4(t, z0);
    var z2 := Zero4(t, z1);
    var z3 := Zero4(t, z2);
    Zero4Linear(t, c1, z0);
    var y1 := Zero4(t, c1);
    XorAssociates(c2, y1, z1);
    Zero4Linear(t, Xor(c2, y1), z1);
    var y2 := Zero4(t, Xor(c2, y1));
    XorAssociates(c3, y2, z2);
    Zero4Linear(t, Xor(c3, y2), z2);
    var y3 := Zero4(t, Xor(c3, y2));
    XorThree(word, z3, y3);
  }

  lemma XorThree(w: Word, z: Word, y: Word)
    ensures Xor(Xor(w, z), y) == Xor(Xor(y, z), w)
  {}

  lemma FirstFour(t: Table, l: Word, a: Word, b: Word, c: Word, d: Word)
    ensures Combine(t, Xor(a, l), b, c, d)
            == Zero4(t, Xor(Zero4(t, Xor(Zero4(t, Xor(Zero4(t, Xor(l, a)), b)), c)), d))
  {
    XorCommutes(a, l);
    XorCommutes(b, Zero4(t, Xor(l, a)));
    XorCommutes(c, Zero4(t, Xor(Zero4(t, Xor(l, a)), b)));
    XorCommutes(d, Zero4(t, Xor(Zero4(t, Xor(Zero4(t, Xor(l, a)), b)), c)));
  }

  lemma XorCommutes(a: Word, b: Word)
    ensures Xor(a, b) == Xor(b, a)
  {}

  lemma MoreBytes(t: Table, l: Word, data: seq<Byte>, p: nat, n: nat)
    requires p + n <= |data|
    ensures Bytewise(t, l, data[..p + n]) == Bytewise(t, Bytewise(t, l, data[..p]), data[p..p + n])
  {
    BytewiseConcat(t, l, data[..p], data[p..p + n]);
    assert data[..p] + data[p..p + n] == data[..p + n];
  }

  lemma MoreWord(t: Table, l: Word, data: seq<Byte>, p: nat)
    requires Linear(t) && p + 4 <= |data|
    ensures Bytewise(t, l, data[..p + 4]) == Zero4(t, Xor(Bytewise(t, l, data[..p]), WordAt(data, p)))
  {
    MoreBytes(t, l, data, p, 4);
    WordStep(t, Bytewise(t, l, data[..p]), data[p..p + 4]);
  }

  /** The four partial results. */
  datatype Strides = Strides(c0: Word, c1: Word, c2: Word, c3: Word)

  /** The partial results stand for the register after the first `p` bytes. */
  ghost predicate Stands(t: Table, l: Word, data: seq<Byte>, p: nat, c: Strides) {
    p <= |data| && Combine(t, c.c0, c.c1, c.c2, c.c3) == Bytewise(t, l, data[..p])
  }

  function FirstStrides(data: seq<Byte>, p: nat, now: Word): Strides
    requires p + 16 <= |data|
  {
    Strides(Xor(WordAt(data, p), now), WordAt(data, p + 4), WordAt(data, p + 8), WordAt(data, p + 12))
  }

  lemma StandsStart(t: Table, l: Word, data: seq<Byte>, p: nat, now: Word)
    requires Linear(t) && p + 16 <= |data| && now == Bytewise(t, l, data[..p])
    ensures Stands(t, l, data, p + 16, FirstStrides(data, p, now))
  {
    MoreWord(t, l, data, p);
    MoreWord(t, l, data, p + 4);
    MoreWord(t, l, data, p + 8);
    MoreWord(t, l, data, p + 12);
    FirstFour(t, now, WordAt(data, p), WordAt(data, p + 4), WordAt(data, p + 8), WordAt(data, p + 12));
  }

  lemma StandsStep(ts: Tables, l: Word, data: seq<Byte>, p: nat, c: Strides)
    requires StridesOk(ts) == true && p + 4 <= |data| && Stands(ts.byte, l, data, p, c)
    ensures Stands(ts.byte, l, data, p + 4, Strides(c.c1, c.c2, c.c3, Step4(ts, c.c0, WordAt(data, p))))
  {
    Step4IsZero16(ts, c.c0, WordAt(data, p));
    RotateStep(ts.byte, c.c0, c.c1, c.c2, c.c3, WordAt(data, p));
    MoreWord(ts.byte, l, data, p);
  }

  /** STEP4W: four zero bytes, one at a time, after xoring in the register. */
  method Step4W(t: Table, l: Word, word: Word) returns (r: Word)
    ensures r == Zero4(t, Xor(word, l))
  {
    r := Xor(word, l);
    for i := 0 to 4
      invariant r == Zeroed(t, Xor(word, l), i)
    {
      XorCommutes(Shift(r), t(r[..8]));
      r := Xor(Shift(r), t(r[..8]));
    }
    assert Zeroed(t, Xor(word, l), 2) == Zero(t, Zero(t, Xor(word, l)));
  }

  /** The register after `n` zero bytes. */
  function Zeroed(t: Table, w: Word, n: nat): Word {
    if n == 0 then w else Zero(t, Zeroed(t, w, n - 1))
  }

  /** STEP16: a swath of one word for each stride. */
  method Step16(ts: Tables, ghost init: Word, data: seq<Byte>, p: nat, c: Strides) returns (d: Strides, q: nat)
    requires StridesOk(ts) == true && p + 16 <= |data| && Stands(ts.byte, init, data, p, c) == true
    ensures q == p + 16 && Stands(ts.byte, init, data, q, d) == true
  {
    q := p + 16;
    var d0 := Step4(ts, c.c0, WordAt(data, p));
    var d1 := Step4(ts, c.c1, WordAt(data, p + 4));
    var d2 := Step4(ts, c.c2, WordAt(data, p + 8));
    var d3 := Step4(ts, c.c3, WordAt(data, p + 12));
    d := Strides(d0, d1, d2, d3);
    StandsStep(ts, init, data, p, c);
    StandsStep(ts, init, data, p + 4, Strides(c.c1, c.c2, c.c3, d0));
    StandsStep(ts, init, data, p + 8, Strides(c.c2, c.c3, d0, d1));
    StandsStep(ts, init, data, p + 12, Strides(c.c3, d0, d1, d2));
  }

  /** One word, for the stride whose turn it is. */
  method Rotate(ts: Tables, ghost init: Word, data: seq<Byte>, p: nat, c: Strides) returns (d: Strides, q: nat)
    requires StridesOk(ts) == true && p + 4 <= |data| && Stands(ts.byte, init, data, p, c) == true
    ensures q == p + 4 && Stands(ts.byte, init, data, q, d) == true
  {
    q := p + 4;
    StandsStep(ts, init, data, p, c);
    var tmp := Step4(ts, c.c0, WordAt(data, p));
    d := Strides(c.c1, c.c2, c.c3, tmp);
  }

  /** Sixteen bytes and more, in four strides (crc32c.cc:333-366). */
  method Strided(ts: Tables, ghost init: Word, data: seq<Byte>, from: nat, now: Word) returns (l: Word, p: nat)
    requires StridesOk(ts) == true && Linear(ts.byte) && from + 16 <= |data| && now == Bytewise(ts.byte, init, data[..from])
    ensures p <= |data| && l == Bytewise(ts.byte, init, data[..p])
  {
    p := from;
    var c := FirstStrides(data, p, now);
    StandsStart(ts.byte, init, data, p, now);
    p := p + 16;
    while |data| - p >= 16
      invariant Stands(ts.byte, init, data, p, c) == true && p <= |data|
    {
      c, p := Step16(ts, init, data, p, c);
    }
    while |data| - p >= 4
      invariant Stands(ts.byte, init, data, p, c) == true && p <= |data|
    {
      c, p := Rotate(ts, init, data, p, c);
    }
    l := Merge(ts.byte, c.c0, c.c1, c.c2, c.c3);
  }

  /** Combine the four partial results. */
  method Merge(t: Table, crc0: Word, crc1: Word, crc2: Word, crc3: Word) returns (l: Word)
    ensures l == Combine(t, crc0, crc1, crc2, crc3)
  {
    l := Zeros(32);
    XorZero(crc0, l);
    l := Step4W(t, l, crc0);
    l := Step4W(t, l, crc1);
    l := Step4W(t, l, crc2);
    l := Step4W(t, l, crc3);
  }

  /** The portable Extend, for data that starts `skew` bytes before an aligned address: the same as a byte at a
      time, for every length and alignment (crc32c.cc:276-377). */
  method Extend(ts: Tables, crc: Word, data: seq<Byte>, skew: nat) returns (r: Word)
    requires StridesOk(ts) && skew < 4
    ensures r == Extended(ts.byte, crc, data)
  {
    ghost var init := Xor(crc, Ones());
    var l := Xor(crc, Ones());
    var p, e: nat := 0, |data|;
    if skew <= e {
      l, p := Bytes(ts.byte, init, data, 0, skew, l);
    }
    if e - p >= 16 {
      l, p := Strided(ts, init, data, p, l);
    }
    l, p := Bytes(ts.byte, init, data, p, e, l);
    assert data[..e] == data;
    r := Xor(l, Ones());
  }

  /** Byte by byte from `from` to `to`. */
  method Bytes(t: Table, ghost init: Word, data: seq<Byte>, from: nat, to: nat, now: Word) returns (l: Word, p: nat)
    requires from <= to <= |data| && now == Bytewise(t, init, data[..from])
    ensures p == to && l == Bytewise(t, init, data[..to])
  {
    l, p := now, from;
    while p != to
      invariant from <= p <= to && l == Bytewise(t, init, data[..p])
    {
      assert data[..p + 1][..p] == data[..p];
      l := Step(t, l, data[p]);
      p := p + 1;
    }
  }

  // ---- The tables of any polynomial meet the hypotheses ----

  /** Divide one bit out, the polynomial being given with its bits reversed. */
  function Divide(poly: Word, w: Word): Word {
    var shifted := w[1..] + [false];
    if w[0] then Xor(shifted, poly) else shifted
  }

  function DivideBits(poly: Word, w: Word, n: nat): Word {
    if n == 0 then w else Divide(poly, DivideBits(poly, w, n - 1))
  }

  lemma ShiftedXor(a: Word, b: Word)
    ensures Xor(a, b)[1..] + [false] == Xor(a[1..] + [false], b[1..] + [false])
  {}

  lemma DivideLinear(poly: Word, a: Word, b: Word)
    ensures Divide(poly, Xor(a, b)) == Xor(Divide(poly, a), Divide(poly, b))
  {
    var x, y := a[1..] + [false], b[1..] + [false];
    ShiftedXor(a, b);
    if a[0] && b[0] {
      XorSwap(x, poly, y, poly);
      XorSelf(poly);
      XorZero(Xor(x, y), Zeros(32));
    } else if a[0] {
      XorThree(x, poly, y);
      XorCommutes(y, poly);
      XorThree(y, x, poly);
      XorCommutes(x, y);
      assert Xor(Xor(x, y), poly) == Xor(Xor(x, poly), y);
    } else if b[0] {
      XorAssociates(x, y, poly);
    }
  }

  lemma {:induction false} DivideBitsLinear(poly: Word, a: Word, b: Word, n: nat)
    ensures DivideBits(poly, Xor(a, b), n) == Xor(DivideBits(poly, a, n), DivideBits(poly, b, n))
  {
    if n > 0 {
      DivideBitsLinear(poly, a, b, n - 1);
      DivideLinear(poly, DivideBits(poly, a, n - 1), DivideBits(poly, b, n - 1));
    }
  }

  function PolyTable(poly: Word): Table {
    (b: Byte) => DivideBits(poly, At0(b), 8)
  }

  function PolyTables(poly: Word): Tables {
    var t := PolyTable(poly);
    Tables(t, (b: Byte) => Zero16(t, At24(b)), (b: Byte) => Zero16(t, At16(b)), (b: Byte) => Zero16(t, At8(b)),
           (b: Byte) => Zero16(t, At0(b)))
  }

  lemma PolyTablesOk(poly: Word)
    ensures StridesOk(PolyTables(poly))
  {
    var ts := PolyTables(poly);
    forall a: Byte, b: Byte ensures LinearAt(ts.byte, a, b) {
      DivideBitsLinear(poly, At0(a), At0(b), 8);
      XorConcat(a, Zeros(24), b, Zeros(24));
      XorSelf(Zeros(24));
      assert At0(Xor(a, b)) == Xor(At0(a), At0(b));
    }
  }
}
