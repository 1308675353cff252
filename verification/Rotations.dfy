/** Rotations of machine words, bit by bit: the mask of a checksum and the step between two probes of a filter. */
module Rotations {
  import opened Coding
  import opened LogFormat
  import opened Blooms

  function TwoTo(n: nat): (p: nat)
    ensures p > 0
  {
    if n == 0 then 1 else 2 * TwoTo(n - 1)
  }

  function Above(v: nat, p: nat): nat
    requires p > 0
  {
    v / p
  }

  function Under(v: nat, p: nat): (r: nat)
    requires p > 0
    ensures r < p
  {
    v % p
  }

  predicate HasBit(v: nat, i: nat) {
    Above(v, TwoTo(i)) % 2 == 1
  }

  // ---- Powers and quotients ----

  lemma {:induction false} TwoToSum(m: nat, n: nat)
    ensures TwoTo(m + n) == TwoTo(m) * TwoTo(n)
    decreases n
  {
    if n > 0 {
      TwoToSum(m, n - 1);
    }
  }

  /** Bits above the lowest `n` are those of the quotient. */
  lemma {:induction false} ShiftedDown(v: nat, n: nat, i: nat)
    ensures HasBit(Above(v, TwoTo(n)), i) == HasBit(v, n + i)
  {
    TwoToSum(n, i);
    QuotientTwice(v, TwoTo(n), TwoTo(i));
  }

  lemma QuotientTwice(v: nat, a: nat, b: nat)
    requires a > 0 && b > 0
    ensures a * b > 0 && Above(v, a * b) == Above(Above(v, a), b)
  {
    Monotone(1, b, a);
    var q, r := Above(v, a), Under(v, a);
    var t, u := Above(q, b), Under(q, b);
    Below(u, b, r, a);
    assert v == t * (a * b) + (u * a + r);
    QuotientIs(v, a * b, t, u * a + r);
  }

  lemma Below(u: nat, b: nat, r: nat, a: nat)
    requires u < b && r < a
    ensures u * a + r < a * b
  {
    Monotone(u + 1, b, a);
  }

  /** Two words side by side, the lower one of `n` bits. */
  function Beside(high: nat, low: nat, n: nat): nat {
    Scaled(high, TwoTo(n)) + low
  }

  function Scaled(v: nat, p: nat): (r: nat)
    ensures r == v * p
  {
    Monotone(0, v, p);
    v * p
  }

  lemma LowBit(high: nat, low: nat, n: nat, i: nat)
    requires i < n
    ensures HasBit(Beside(high, low, n), i) == HasBit(low, i)
  {
    TwoToSum(i, n - i - 1);
    LowQuotient(high, low, TwoTo(n - i - 1), TwoTo(i), TwoTo(n));
  }

  lemma LowQuotient(high: nat, low: nat, a: nat, b: nat, p: nat)
    requires b > 0 && p == 2 * (b * a)
    ensures Above(Scaled(high, p) + low, b) % 2 == Above(low, b) % 2
  {
    var up, q, r := Scaled(high, a), Above(low, b), Under(low, b);
    Twice(high, a, b);
    assert Scaled(high, p) + low == (2 * up + q) * b + r;
    QuotientIs(Scaled(high, p) + low, b, 2 * up + q, r);
  }

  lemma Twice(h: nat, a: nat, b: nat)
    ensures h * (2 * (b * a)) == 2 * (h * a) * b
  {}

  lemma HighBit(high: nat, low: nat, n: nat, i: nat)
    requires i >= n && low < TwoTo(n)
    ensures HasBit(Beside(high, low, n), i) == HasBit(high, i - n)
  {
    QuotientIs(Beside(high, low, n), TwoTo(n), high, low);
    ShiftedDown(Beside(high, low, n), n, i - n);
  }

  // ---- Rotations ----

  /** The word turned right by `k` bits. */
  function Rotated(v: Word, k: nat): nat
    requires k <= 32
  {
    Swapped(v, TwoTo(k), 32 - k)
  }

  function Swapped(v: nat, p: nat, n: nat): nat
    requires p > 0
  {
    Beside(Under(v, p), Above(v, p), n)
  }

  /** Bit `i` of the turned word is bit `i + k` of the word, counted round. */
  lemma RotatedBit(v: Word, k: nat, i: nat)
    requires k <= 32 && i < 32
    ensures HasBit(Rotated(v, k), i) == HasBit(v, (i + k) % 32)
  {
    if i < 32 - k {
      LowBit(Under(v, TwoTo(k)), Above(v, TwoTo(k)), 32 - k, i);
      ShiftedDown(v, k, i);
      assert (i + k) % 32 == i + k;
    } else {
      TurnedRound(v, k, i, i + k - 32);
      assert (i + k) % 32 == i + k - 32;
    }
  }

  lemma TurnedRound(v: Word, k: nat, i: nat, j: nat)
    requires k <= 32 && i < 32 && i + k == 32 + j
    ensures HasBit(Rotated(v, k), i) == HasBit(v, j)
  {
    var high, low := Above(v, TwoTo(k)), Under(v, TwoTo(k));
    SomePowers();
    TwoToSum(k, 32 - k);
    QuotientBelow(v, TwoTo(k), TwoTo(32 - k));
    HighBit(low, high, 32 - k, i);
    Parts(v, high, low, k);
    LowBit(high, low, k, j);
  }

  lemma Parts(v: nat, high: nat, low: nat, k: nat)
    requires high == Above(v, TwoTo(k)) && low == Under(v, TwoTo(k))
    ensures v == Beside(high, low, k)
  {}

  lemma QuotientBelow(v: nat, a: nat, b: nat)
    requires a > 0 && v < a * b
    ensures Above(v, a) < b
  {
    if Above(v, a) >= b {
      Monotone(b, Above(v, a), a);
    }
  }

  lemma SomePowers()
    ensures TwoTo(15) == 0x8000 && TwoTo(17) == 0x2_0000 && TwoTo(32) == 0x1_0000_0000
  {
    assert TwoTo(8) == 0x100;
    TwoToSum(8, 8);
    TwoToSum(16, 16);
    assert TwoTo(16) == 2 * TwoTo(15) && TwoTo(17) == 2 * TwoTo(16);
  }

  /** A checksum is masked by turning it right by 15 bits and adding a constant, in 32 bits. */
  lemma MaskRotates(c: Word) returns (turned: Word)
    ensures forall i :: 0 <= i < 32 ==> HasBit(turned, i) == HasBit(c, (i + 15) % 32)
    ensures Mask(c) == turned + 0xa282_ead8 || Mask(c) == turned + 0xa282_ead8 - 0x1_0000_0000
  {
    SomePowers();
    turned := Rotated(c, 15);
    forall i | 0 <= i < 32 ensures HasBit(turned, i) == HasBit(c, (i + 15) % 32) {
      RotatedBit(c, 15, i);
    }
  }

  /** The probes of a key are as far apart as its hash turned right by 17 bits says. */
  lemma ProbesApart(h: Word, j: nat, i: nat)
    requires i < 32
    ensures HasBit(Delta(h), i) == HasBit(h, (i + 17) % 32)
    ensures Probe(h, j) == (h + j * Delta(h)) % 0x1_0000_0000
  {
    SomePowers();
    RotatedBit(h, 17, i);
    Spaced(h, j);
  }

  lemma {:induction false} Spaced(h: Word, j: nat)
    ensures Probe(h, j) == (h + Scaled(j, Delta(h))) % 0x1_0000_0000
  {
    if j > 0 {
      Spaced(h, j - 1);
      OneMoreTime(j, Delta(h));
      AddedLater(h + Scaled(j - 1, Delta(h)), Delta(h), h + Scaled(j, Delta(h)));
    } else {
      assert Scaled(0, Delta(h)) == 0;
    }
  }

  lemma OneMoreTime(j: nat, d: nat)
    requires j > 0
    ensures Scaled(j, d) == Scaled(j - 1, d) + d
  {}

  lemma AddedLater(a: nat, b: nat, sum: nat)
    requires sum == a + b
    ensures (a % 0x1_0000_0000 + b) % 0x1_0000_0000 == sum % 0x1_0000_0000
  {}
}
