/** The checksum is CRC-32C: the tables are those of its polynomial, the value the library checks itself against is the
    one the model computes, and what differs in four bytes or fewer never has the same checksum (util/crc32c). */
module CrcValues {
  import opened Crcs

  // ---- A byte is eight bits ----

  /** As long as zeros come out, dividing only shifts. */
  lemma {:induction false} DivideZeros(poly: Word, y: Bits, n: nat)
    requires |y| == 24 && n <= 8
    ensures DivideBits(poly, Zeros(8) + y, n) == (Zeros(8) + y)[n..] + Zeros(n)
  {
    if n > 0 {
      DivideZeros(poly, y, n - 1);
    }
  }

  /** The byte table does what dividing out eight bits, one at a time, does. */
  lemma ByteIsEightBits(poly: Word, w: Word)
    ensures Zero(PolyTable(poly), w) == DivideBits(poly, w, 8)
  {
    var low, high := At0(w[..8]), Zeros(8) + w[8..];
    assert w == Xor(low, high);
    DivideBitsLinear(poly, low, high, 8);
    DivideZeros(poly, w[8..], 8);
  }

  // ---- Words from machine words ----

  function MaskAt(i: nat): bv32 {
    if i == 0 then 1 else MaskAt(i - 1) << 1
  }

  predicate Masked(n: bv32, m: bv32) {
    n & m != 0
  }

  predicate BitAt(n: bv32, i: nat) {
    Masked(n, MaskAt(i))
  }

  /** A machine word as its bits, least significant first. */
  function WordOfBv(n: bv32): Word {
    seq(32, i requires 0 <= i < 32 => BitAt(n, i))
  }

  function ByteOfBv(n: bv32): Byte {
    seq(8, i requires 0 <= i < 8 => BitAt(n, i))
  }

  /** A mask is a single bit. */
  lemma {:induction false} SingleBit(i: nat)
    ensures MaskAt(i) & (MaskAt(i) - 1) == 0
  {
    if i > 0 {
      SingleBit(i - 1);
      StillSingle(MaskAt(i - 1));
    }
  }

  lemma StillSingle(m: bv32)
    requires m & (m - 1) == 0
    ensures (m << 1) & ((m << 1) - 1) == 0
  {}

  lemma XorMasked(a: bv32, b: bv32, m: bv32)
    requires m & (m - 1) == 0
    ensures Masked(a ^ b, m) == (Masked(a, m) != Masked(b, m))
  {}

  lemma HalfMasked(n: bv32, half: bv32, m: bv32, next: bv32)
    requires half == n >> 1 && next == m << 1
    ensures Masked(half, m) == Masked(n, next)
  {}

  lemma SomeMasks()
    ensures MaskAt(8) == 0x100 && MaskAt(31) == 0x8000_0000 && MaskAt(32) == 0
  {
    assert MaskAt(4) == 0x10;
    assert MaskAt(8) == 0x100;
    assert MaskAt(12) == 0x1000;
    assert MaskAt(16) == 0x1_0000;
    assert MaskAt(20) == 0x10_0000;
    assert MaskAt(24) == 0x100_0000;
    assert MaskAt(28) == 0x1000_0000;
  }

  lemma XorOfBv(a: bv32, b: bv32)
    ensures WordOfBv(a ^ b) == Xor(WordOfBv(a), WordOfBv(b))
  {
    forall i | 0 <= i < 32 ensures BitAt(a ^ b, i) == (BitAt(a, i) != BitAt(b, i)) {
      SingleBit(i);
      XorMasked(a, b, MaskAt(i));
    }
  }

  lemma NextMask(i: nat)
    ensures MaskAt(i + 1) == MaskAt(i) << 1
  {}

  lemma HalfOfBv(n: bv32, half: bv32)
    requires half == n >> 1
    ensures WordOfBv(half) == WordOfBv(n)[1..] + [false]
  {
    SomeMasks();
    assert !BitAt(n, 32);
    forall i | 0 <= i < 32 ensures BitAt(half, i) == (i < 31 && BitAt(n, i + 1)) {
      NextMask(i);
      HalfMasked(n, half, MaskAt(i), MaskAt(i + 1));
    }
  }

  lemma {:induction false} HighMask(i: nat)
    requires i >= 8
    ensures MaskAt(i) & 0xff == 0
  {
    if i == 8 {
      SomeMasks();
    } else {
      HighMask(i - 1);
    }
  }

  lemma SmallOfBv(n: bv32)
    requires n <= 0xff
    ensures WordOfBv(n) == At0(ByteOfBv(n))
  {
    forall i | 8 <= i < 32 ensures !BitAt(n, i) {
      HighMask(i);
      NoBits(n, MaskAt(i));
    }
  }

  lemma NoBits(n: bv32, m: bv32)
    requires n <= 0xff && m & 0xff == 0
    ensures !Masked(n, m)
  {}

  lemma {:induction false} SomeBit(i: nat)
    requires i < 32
    ensures MaskAt(i) != 0
    decreases 32 - i
  {
    if i == 31 {
      SomeMasks();
    } else {
      SomeBit(i + 1);
    }
  }

  lemma OnesOfBv()
    ensures WordOfBv(0xffff_ffff) == Ones()
  {
    forall i | 0 <= i < 32 ensures BitAt(0xffff_ffff, i) {
      SomeBit(i);
      assert 0xffff_ffff & MaskAt(i) == MaskAt(i);
    }
  }

  lemma ZeroOfBv()
    ensures ByteOfBv(0) == Zeros(8)
  {
    assert forall i :: 0 <= i < 8 ==> !BitAt(0, i);
  }

  function DivideBv(n: bv32): bv32 {
    if n & 1 != 0 then (n >> 1) ^ POLYNOMIAL else n >> 1
  }

  function DivideBvs(n: bv32, k: nat): bv32
    decreases k
  {
    if k == 0 then n else DivideBvs(DivideBv(n), k - 1)
  }

  lemma DivideOfBv(n: bv32)
    ensures Divide(Castagnoli(), WordOfBv(n)) == WordOfBv(DivideBv(n))
  {
    HalfOfBv(n, n >> 1);
    XorOfBv(n >> 1, POLYNOMIAL);
  }

  lemma {:induction false} DivideFirst(poly: Word, w: Word, k: nat)
    requires k > 0
    ensures DivideBits(poly, w, k) == DivideBits(poly, Divide(poly, w), k - 1)
  {
    if k > 1 {
      DivideFirst(poly, w, k - 1);
    }
  }

  lemma {:induction false} DividesOfBv(n: bv32, k: nat)
    ensures DivideBits(Castagnoli(), WordOfBv(n), k) == WordOfBv(DivideBvs(n, k))
    decreases k
  {
    if k > 0 {
      DivideFirst(Castagnoli(), WordOfBv(n), k);
      DivideOfBv(n);
      DividesOfBv(DivideBv(n), k - 1);
    }
  }

  // ---- The polynomial ----

  /** The Castagnoli polynomial, its bits reversed. */
  const POLYNOMIAL: bv32 := 0x82f6_3b78

  function Castagnoli(): Word {
    WordOfBv(POLYNOMIAL)
  }

  function CrcTables(): Tables {
    PolyTables(Castagnoli())
  }

  lemma TableEntry(n: bv32, r: bv32)
    requires n <= 0xff && r == DivideBvs(n, 8)
    ensures CrcTables().byte(ByteOfBv(n)) == WordOfBv(r)
  {
    SmallOfBv(n);
    DividesOfBv(n, 8);
  }

  /** The entries the byte table is spanned by are the ones in the source, and every other entry is a sum of them. */
  lemma SourceTable()
    ensures var t := CrcTables().byte;
      && t(ByteOfBv(0x01)) == WordOfBv(0xf26b_8303) && t(ByteOfBv(0x02)) == WordOfBv(0xe13b_70f7)
      && t(ByteOfBv(0x04)) == WordOfBv(0xc79a_971f) && t(ByteOfBv(0x08)) == WordOfBv(0x8ad9_58cf)
      && t(ByteOfBv(0x10)) == WordOfBv(0x105e_c76f) && t(ByteOfBv(0x20)) == WordOfBv(0x20bd_8ede)
      && t(ByteOfBv(0x40)) == WordOfBv(0x417b_1dbc) && t(ByteOfBv(0x80)) == WordOfBv(0x82f6_3b78)
    ensures Linear(CrcTables().byte)
  {
    PolyTablesOk(Castagnoli());
    TableEntry(0x01, 0xf26b_8303);
    TableEntry(0x02, 0xe13b_70f7);
    TableEntry(0x04, 0xc79a_971f);
    TableEntry(0x08, 0x8ad9_58cf);
    TableEntry(0x10, 0x105e_c76f);
    TableEntry(0x20, 0x20bd_8ede);
    TableEntry(0x40, 0x417b_1dbc);
    TableEntry(0x80, 0x82f6_3b78);
  }

  // ---- Known values ----

  lemma StepOfBv(l: bv32, b: bv32)
    requires b <= 0xff
    ensures Step(CrcTables().byte, WordOfBv(l), ByteOfBv(b)) == WordOfBv(DivideBvs(l ^ b, 8))
  {
    SmallOfBv(b);
    XorOfBv(l, b);
    StepIsZero(CrcTables().byte, WordOfBv(l), ByteOfBv(b));
    ByteIsEightBits(Castagnoli(), WordOfBv(l ^ b));
    DividesOfBv(l ^ b, 8);
  }

  function BytesOf(s: seq<bv32>): seq<Byte> {
    seq(|s|, i requires 0 <= i < |s| => ByteOfBv(s[i]))
  }

  /** The register before anything is taken in. */
  const START: bv32 := 0xffff_ffff

  lemma StartIsOnes()
    ensures WordOfBv(START) == Xor(Zeros(32), Ones()) == Ones()
  {
    OnesOfBv();
    XorZero(Ones(), Zeros(32));
  }

  /** The register after the first `n` bytes. */
  ghost predicate Reached(s: seq<bv32>, n: nat, l: bv32) {
    n <= |s| && Bytewise(CrcTables().byte, WordOfBv(START), BytesOf(s[..n])) == WordOfBv(l)
  }

  lemma OneMore(s: seq<bv32>, n: nat, b: bv32, l: bv32, r: bv32)
    requires Reached(s, n, l) == true && n < |s| && s[n] == b <= 0xff && r == DivideBvs(l ^ b, 8)
    ensures Reached(s, n + 1, r) == true
  {
    var more := BytesOf(s[..n + 1]);
    assert more[..n] == BytesOf(s[..n]) && more[n] == ByteOfBv(b);
    StepOfBv(l, b);
  }

  lemma Checksum(s: seq<bv32>, l: bv32)
    requires Reached(s, |s|, l) == true
    ensures Extended(CrcTables().byte, Zeros(32), BytesOf(s)) == WordOfBv(l ^ START)
  {
    assert s[..|s|] == s;
    StartIsOnes();
    XorOfBv(l, START);
  }

  /** The checksum of one zero byte. */
  lemma ZeroByteValue()
    ensures Extended(CrcTables().byte, Zeros(32), [Zeros(8)]) == WordOfBv(0x527d_5351)
  {
    assert Reached([0], 0, START);
    OneMore([0], 0, 0, START, 0xad82_acae);
    Checksum([0], 0xad82_acae);
    ZeroOfBv();
    assert BytesOf([0]) == [Zeros(8)];
  }

  /** "TestCRCBuffer". */
  const TEST_BUFFER: seq<bv32> := [0x54, 0x65, 0x73, 0x74, 0x43, 0x52, 0x43, 0x42, 0x75, 0x66, 0x66, 0x65, 0x72]

  /** The value the library tests its accelerated implementation with. */
  lemma TestBufferValue()
    ensures Extended(CrcTables().byte, Zeros(32), BytesOf(TEST_BUFFER)) == WordOfBv(0xdcbc_59fa)
  {
    assert Reached(TEST_BUFFER, 0, START);
    OneMore(TEST_BUFFER, 0, 0x54, 0xffff_ffff, 0x3b3d_e162);
    OneMore(TEST_BUFFER, 1, 0x65, 0x3b3d_e162, 0xd4f1_590a);
    OneMore(TEST_BUFFER, 2, 0x73, 0xd4f1_590a, 0x09fe_7e98);
    OneMore(TEST_BUFFER, 3, 0x74, 0x09fe_7e98, 0xae7a_99b4);
    OneMore(TEST_BUFFER, 4, 0x43, 0xae7a_99b4, 0x270a_7107);
    OneMore(TEST_BUFFER, 5, 0x52, 0x270a_7107, 0x64f3_c4be);
    OneMore(TEST_BUFFER, 6, 0x43, 0x64f3_c4be, 0x4c22_d062);
    OneMore(TEST_BUFFER, 7, 0x42, 0x4c22_d062, 0x20f1_ac0e);
    OneMore(TEST_BUFFER, 8, 0x75, 0x20f1_ac0e, 0xe831_0e9a);
    OneMore(TEST_BUFFER, 9, 0x66, 0xe831_0e9a, 0xbec5_91ab);
    OneMore(TEST_BUFFER, 10, 0x66, 0xbec5_91ab, 0x7c1b_af86);
    OneMore(TEST_BUFFER, 11, 0x65, 0x7c1b_af86, 0xf01c_4041);
    OneMore(TEST_BUFFER, 12, 0x72, 0xf01c_4041, 0x2343_a605);
    Checksum(TEST_BUFFER, 0x2343_a605);
  }

  // ---- One value carries to all ----

  function XorBytes(a: seq<Byte>, b: seq<Byte>): seq<Byte>
    requires |a| == |b|
  {
    seq(|a|, i requires 0 <= i < |a| => Xor(a[i], b[i]))
  }

  function ZeroBytes(n: nat): seq<Byte> {
    seq(n, _ => Zeros(8))
  }

  lemma StepLinear(t: Table, l: Word, m: Word, a: Byte, b: Byte)
    requires Linear(t)
    ensures Step(t, Xor(l, m), Xor(a, b)) == Xor(Step(t, l, a), Step(t, m, b))
  {
    var x, y := At0(a), At0(b);
    StepIsZero(t, l, a);
    StepIsZero(t, m, b);
    StepIsZero(t, Xor(l, m), Xor(a, b));
    XorConcat(a, Zeros(24), b, Zeros(24));
    XorSelf(Zeros(24));
    XorSwap(l, m, x, y);
    ZeroLinear(t, Xor(l, x), Xor(m, y));
  }

  lemma {:induction false} BytewiseLinear(t: Table, l: Word, m: Word, a: seq<Byte>, b: seq<Byte>)
    requires Linear(t) && |a| == |b|
    ensures Bytewise(t, Xor(l, m), XorBytes(a, b)) == Xor(Bytewise(t, l, a), Bytewise(t, m, b))
    decreases |a|
  {
    if a != [] {
      var n := |a| - 1;
      BytewiseLinear(t, l, m, a[..n], b[..n]);
      assert XorBytes(a, b)[..n] == XorBytes(a[..n], b[..n]);
      StepLinear(t, Bytewise(t, l, a[..n]), Bytewise(t, m, b[..n]), a[n], b[n]);
    }
  }

  /** Checksums of strings of the same length: that of their sum is the sum of theirs and of that of as many zeros. */
  lemma ExtendAffine(t: Table, x: Word, y: Word, a: seq<Byte>, b: seq<Byte>)
    requires Linear(t) && |a| == |b|
    ensures Extended(t, Xor(x, y), XorBytes(a, b))
            == Xor(Xor(Extended(t, x, a), Extended(t, y, b)), Extended(t, Zeros(32), ZeroBytes(|a|)))
  {
    var o, z := Ones(), ZeroBytes(|a|);
    var u, v, w := Bytewise(t, Xor(x, o), a), Bytewise(t, Xor(y, o), b), Bytewise(t, Xor(Zeros(32), o), z);
    BytewiseLinear(t, Xor(x, o), Xor(y, o), a, b);
    BytewiseLinear(t, Xor(Xor(x, o), Xor(y, o)), Xor(Zeros(32), o), XorBytes(a, b), z);
    XorWithZeros(XorBytes(a, b));
    assert Xor(Xor(Xor(x, o), Xor(y, o)), Xor(Zeros(32), o)) == Xor(Xor(x, y), o);
    assert Xor(Xor(Xor(u, v), w), o) == Xor(Xor(Xor(u, o), Xor(v, o)), Xor(w, o));
  }

  lemma XorWithZeros(a: seq<Byte>)
    ensures XorBytes(a, ZeroBytes(|a|)) == a
  {
    forall i | 0 <= i < |a| ensures XorBytes(a, ZeroBytes(|a|))[i] == a[i] {
      XorZero(a[i], Zeros(8));
    }
  }

  // ---- What is always detected ----

  /** Dividing loses nothing when the polynomial has its highest bit. */
  lemma DivideInjective(poly: Word, v: Word, w: Word)
    requires poly[31] && Divide(poly, v) == Divide(poly, w)
    ensures v == w
  {
    var a, b := v[1..] + [false], w[1..] + [false];
    assert Divide(poly, v)[31] == v[0] && Divide(poly, w)[31] == w[0];
    if v[0] {
      XorTwice(a, poly);
      XorTwice(b, poly);
    }
    assert a == b;
    assert v == [v[0]] + a[..31] && w == [w[0]] + b[..31];
  }

  lemma {:induction false} DivideBitsInjective(poly: Word, v: Word, w: Word, n: nat)
    requires poly[31] && DivideBits(poly, v, n) == DivideBits(poly, w, n)
    ensures v == w
  {
    if n > 0 {
      DivideInjective(poly, DivideBits(poly, v, n - 1), DivideBits(poly, w, n - 1));
      DivideBitsInjective(poly, v, w, n - 1);
    }
  }

  lemma ZeroInjective(poly: Word, v: Word, w: Word)
    requires poly[31] && Zero(PolyTable(poly), v) == Zero(PolyTable(poly), w)
    ensures v == w
  {
    ByteIsEightBits(poly, v);
    ByteIsEightBits(poly, w);
    DivideBitsInjective(poly, v, w, 8);
  }

  lemma Zero4Injective(poly: Word, v: Word, w: Word)
    requires poly[31] && Zero4(PolyTable(poly), v) == Zero4(PolyTable(poly), w)
    ensures v == w
  {
    var t := PolyTable(poly);
    ZeroInjective(poly, Zero(t, Zero(t, Zero(t, v))), Zero(t, Zero(t, Zero(t, w))));
    ZeroInjective(poly, Zero(t, Zero(t, v)), Zero(t, Zero(t, w)));
    ZeroInjective(poly, Zero(t, v), Zero(t, w));
    ZeroInjective(poly, v, w);
  }

  lemma XorCancels(l: Word, a: Word, b: Word)
    requires Xor(l, a) == Xor(l, b)
    ensures a == b
  {
    assert Xor(Xor(l, a), l) == a && Xor(Xor(l, b), l) == b;
  }

  /** Different registers stay different under the same bytes. */
  lemma {:induction false} StaysDifferent(poly: Word, l: Word, m: Word, s: seq<Byte>)
    requires poly[31] && Bytewise(PolyTable(poly), l, s) == Bytewise(PolyTable(poly), m, s)
    ensures l == m
    decreases |s|
  {
    if s != [] {
      var t, n := PolyTable(poly), |s| - 1;
      var u, v := Bytewise(t, l, s[..n]), Bytewise(t, m, s[..n]);
      StepIsZero(t, u, s[n]);
      StepIsZero(t, v, s[n]);
      ZeroInjective(poly, Xor(u, At0(s[n])), Xor(v, At0(s[n])));
      XorTwice(u, At0(s[n]));
      XorTwice(v, At0(s[n]));
      StaysDifferent(poly, l, m, s[..n]);
    }
  }

  lemma WordDetermines(x: seq<Byte>, y: seq<Byte>)
    requires |x| == |y| == 4 && WordOf(x) == WordOf(y)
    ensures x == y
  {
    var v, w := WordOf(x), WordOf(y);
    assert v[..8] == x[0] && v[8..16] == x[1] && v[16..24] == x[2] && v[24..] == x[3];
    assert w[..8] == y[0] && w[8..16] == y[1] && w[16..24] == y[2] && w[24..] == y[3];
  }

  /** Strings that differ within four consecutive bytes, and nowhere else, have different checksums. */
  lemma BurstDetected(crc: Word, p: seq<Byte>, x: seq<Byte>, y: seq<Byte>, q: seq<Byte>)
    requires |x| == |y| == 4 && x != y
    ensures Extended(CrcTables().byte, crc, p + x + q) != Extended(CrcTables().byte, crc, p + y + q)
  {
    var t, poly, l := CrcTables().byte, Castagnoli(), Bytewise(CrcTables().byte, Xor(crc, Ones()), p);
    if Extended(t, crc, p + x + q) == Extended(t, crc, p + y + q) {
      XorTwice(Bytewise(t, Xor(crc, Ones()), p + x + q), Ones());
      XorTwice(Bytewise(t, Xor(crc, Ones()), p + y + q), Ones());
      BytewiseConcat(t, Xor(crc, Ones()), p + x, q);
      BytewiseConcat(t, Xor(crc, Ones()), p, x);
      BytewiseConcat(t, Xor(crc, Ones()), p + y, q);
      BytewiseConcat(t, Xor(crc, Ones()), p, y);
      PolyTablesOk(poly);
      HighestBit();
      StaysDifferent(poly, Bytewise(t, l, x), Bytewise(t, l, y), q);
      WordStep(t, l, x);
      WordStep(t, l, y);
      Zero4Injective(poly, Xor(l, WordOf(x)), Xor(l, WordOf(y)));
      XorCancels(l, WordOf(x), WordOf(y));
      WordDetermines(x, y);
    }
  }

  lemma HighestBit()
    ensures Castagnoli()[31]
  {
    SomeMasks();
    assert BitAt(POLYNOMIAL, 31);
  }
}
