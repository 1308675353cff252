/** Bloom filters over keys (util/bloom).  The hash function is left open. */
module Blooms {
  import opened Coding

  type Hash = seq<Byte> -> Word

  function Power(i: nat): (p: nat)
    requires i < 8
    ensures p > 0
  {
    if i == 0 then 1 else if i == 1 then 2 else if i == 2 then 4 else if i == 3 then 8
    else if i == 4 then 16 else if i == 5 then 32 else if i == 6 then 64 else 128
  }

  /** Is bit `i` of a byte set? */
  predicate BitOf(b: Byte, i: nat)
    requires i < 8
  {
    b / Power(i) % 2 == 1
  }

  /** Or in bit `i`. */
  function SetIn(b: Byte, i: nat): Byte
    requires i < 8
  {
    if BitOf(b, i) then b else (b + Power(i)) % 0x100
  }

  /** The bits above the lowest are those of half the byte. */
  lemma HalfBit(b: Byte, i: nat)
    requires 0 < i < 8
    ensures Power(i) == 2 * Power(i - 1) && b / Power(i) == b / 2 / Power(i - 1)
  {
    if i == 1 {} else if i == 2 {} else if i == 3 {} else if i == 4 {} else if i == 5 {} else if i == 6 {} else {}
  }

  /** A bit that is clear can be added. */
  lemma {:induction false} RoomForBit(b: Byte, i: nat)
    requires i < 8 && !BitOf(b, i)
    ensures b + Power(i) < 0x100
    decreases i
  {
    if i == 7 {
      assert b / 128 < 2;
    }
  }

  /** Setting a bit above the lowest is setting it in half the byte. */
  lemma HalfSet(b: Byte, i: nat)
    requires 0 < i < 8
    ensures SetIn(b, i) / 2 == SetIn(b / 2, i - 1) && SetIn(b, i) % 2 == b % 2
  {
    HalfBit(b, i);
    if !BitOf(b, i) {
      RoomForBit(b, i);
      RoomForBit(b / 2, i - 1);
    }
  }

  lemma SetLowest(b: Byte)
    ensures SetIn(b, 0) / 2 == b / 2 && SetIn(b, 0) % 2 == 1
  {
    if b % 2 == 0 {
      assert b + 1 < 0x100;
    }
  }

  lemma {:induction false} SetInBits(b: Byte, i: nat, j: nat)
    requires i < 8 && j < 8
    ensures BitOf(SetIn(b, i), j) <==> i == j || BitOf(b, j)
    decreases i + j
  {
    if i == 0 {
      SetLowest(b);
      if j > 0 {
        HalfBit(b, j);
        HalfBit(SetIn(b, 0), j);
      }
    } else if j == 0 {
      HalfSet(b, i);
    } else {
      HalfSet(b, i);
      HalfBit(b, j);
      HalfBit(SetIn(b, i), j);
      SetInBits(b / 2, i - 1, j - 1);
    }
  }

  // ---- Bit arrays ----

  predicate Bit(bits: seq<Byte>, pos: nat)
    requires pos < 8 * |bits|
  {
    BitOf(bits[pos / 8], pos % 8)
  }

  ghost predicate Within(a: seq<Byte>, b: seq<Byte>) {
    |a| == |b| && forall p: nat :: p < 8 * |a| && Bit(a, p) ==> Bit(b, p)
  }

  lemma SetGrows(bits: seq<Byte>, pos: nat)
    requires pos < 8 * |bits|
    ensures var after := bits[pos / 8 := SetIn(bits[pos / 8], pos % 8)];
            |after| == |bits| && forall p: nat :: p < 8 * |bits| ==> Bit(after, p) == (Bit(bits, p) || p == pos)
  {
    var after := bits[pos / 8 := SetIn(bits[pos / 8], pos % 8)];
    forall p: nat | p < 8 * |bits| ensures Bit(after, p) == (Bit(bits, p) || p == pos) {
      SetInBits(bits[pos / 8], pos % 8, p % 8);
    }
  }

  // ---- Probes ----

  /** Rotate right by 17 bits. */
  function Delta(h: Word): Word {
    h / 0x2_0000 + h % 0x2_0000 * 0x8000
  }

  /** The `j`-th probe of a key, by double hashing. */
  function Probe(h: Word, j: nat): Word {
    if j == 0 then h else (Probe(h, j - 1) + Delta(h)) % 0x1_0000_0000
  }

  ghost predicate Marked(bits: seq<Byte>, h: Word, k: nat) {
    bits != [] && forall j: nat :: j < k ==> Bit(bits, Probe(h, j) % (8 * |bits|))
  }

  /** Position `p` is one of the first `k` probes. */
  ghost predicate Probed(h: Word, k: nat, bits: nat, p: nat)
    requires bits > 0
  {
    exists j: nat :: j < k && Probe(h, j) % bits == p
  }

  ghost predicate ProbedByOne(hash: Hash, keys: seq<seq<Byte>>, k: nat, bits: nat, p: nat)
    requires bits > 0
  {
    exists i :: 0 <= i < |keys| && Probed(hash(keys[i]), k, bits, p)
  }

  /** Bits were set, at probes of this key only. */
  ghost predicate OnlyProbes(a: seq<Byte>, b: seq<Byte>, h: Word, k: nat) {
    |a| == |b| > 0 && forall p: nat :: p < 8 * |b| && Bit(b, p) ==> Bit(a, p) || Probed(h, k, 8 * |b|, p)
  }

  /** A bit is set if and only if some key probes it. */
  ghost predicate ExactlyProbed(bits: seq<Byte>, hash: Hash, keys: seq<seq<Byte>>, k: nat) {
    bits != [] && forall p: nat :: p < 8 * |bits| ==> Bit(bits, p) == ProbedByOne(hash, keys, k, 8 * |bits|, p)
  }

  lemma ProbesMore(a: seq<Byte>, b: seq<Byte>, c: seq<Byte>, h: Word, j: nat, pos: nat)
    requires OnlyProbes(a, b, h, j) && |c| == |b| && pos == Probe(h, j) % (8 * |b|)
    requires forall p: nat :: p < 8 * |b| ==> Bit(c, p) == (Bit(b, p) || p == pos)
    ensures OnlyProbes(a, c, h, j + 1)
  {
    forall p: nat | p < 8 * |c| && Bit(c, p) && !Bit(a, p) ensures Probed(h, j + 1, 8 * |c|, p) {
      if Bit(b, p) {
        var i: nat :| i < j && Probe(h, i) % (8 * |b|) == p;
        assert Probe(h, i) % (8 * |c|) == p;
      }
    }
  }

  /** The first `k` probes of a key have been marked, and nothing else has changed. */
  ghost predicate KeyMarked(a: seq<Byte>, b: seq<Byte>, h: Word, k: nat) {
    Within(a, b) && Marked(b, h, k) && OnlyProbes(a, b, h, k)
  }

  lemma OneMoreProbe(a: seq<Byte>, b: seq<Byte>, c: seq<Byte>, h: Word, j: nat, pos: nat)
    requires KeyMarked(a, b, h, j) && pos == Probe(h, j) % (8 * |b|)
    requires c == b[pos / 8 := SetIn(b[pos / 8], pos % 8)]
    ensures KeyMarked(a, c, h, j + 1) == true
  {
    SetGrows(b, pos);
    MarksStay(b, c, h, j);
    ProbesMore(a, b, c, h, j, pos);
  }

  lemma NothingProbed(bits: seq<Byte>, hash: Hash, k: nat)
    requires bits != [] && forall i :: 0 <= i < |bits| ==> bits[i] == 0
    ensures ExactlyProbed(bits, hash, [], k)
  {}

  lemma KeyProbed(a: seq<Byte>, b: seq<Byte>, hash: Hash, keys: seq<seq<Byte>>, key: seq<Byte>, k: nat)
    requires ExactlyProbed(a, hash, keys, k) && KeyMarked(a, b, hash(key), k)
    ensures ExactlyProbed(b, hash, keys + [key], k)
  {
    var more, n := keys + [key], 8 * |b|;
    forall p: nat | p < n ensures Bit(b, p) == ProbedByOne(hash, more, k, n, p) {
      if Bit(b, p) {
        if Bit(a, p) {
          var i :| 0 <= i < |keys| && Probed(hash(keys[i]), k, n, p);
          assert Probed(hash(more[i]), k, n, p);
        } else {
          assert Probed(hash(more[|keys|]), k, n, p);
        }
      }
      if ProbedByOne(hash, more, k, n, p) {
        var i :| 0 <= i < |more| && Probed(hash(more[i]), k, n, p);
        if i < |keys| {
          assert Probed(hash(keys[i]), k, n, p);
          assert Bit(a, p);
        } else {
          var j: nat :| j < k && Probe(hash(key), j) % n == p;
        }
      }
    }
  }

  lemma ProbedMarked(bits: seq<Byte>, hash: Hash, keys: seq<seq<Byte>>, k: nat, i: nat)
    requires ExactlyProbed(bits, hash, keys, k) && i < |keys|
    ensures Marked(bits, hash(keys[i]), k)
  {
    forall j: nat | j < k ensures Bit(bits, Probe(hash(keys[i]), j) % (8 * |bits|)) {
      assert Probed(hash(keys[i]), k, 8 * |bits|, Probe(hash(keys[i]), j) % (8 * |bits|));
    }
  }

  lemma MarksStay(a: seq<Byte>, b: seq<Byte>, h: Word, k: nat)
    requires Marked(a, h, k) && Within(a, b)
    ensures Marked(b, h, k)
  {}

  /** Append the filter of `keys` to `dst` (bloom.cc:28-54): its bits are set exactly where some key probes it, there
      are `bitsPerKey` of them for every key but at least 64, in whole bytes, and it ends with the number of probes. */
  method CreateFilter(hash: Hash, keys: seq<seq<Byte>>, bitsPerKey: nat, k: nat, dst: seq<Byte>) returns (out: seq<Byte>)
    requires 1 <= k <= 30
    ensures |out| == |dst| + FilterBytes(|keys|, bitsPerKey) + 1 && out[..|dst|] == dst && out[|out| - 1] == k
    ensures ExactlyProbed(out[|dst|..|out| - 1], hash, keys, k)
    ensures forall i :: 0 <= i < |keys| ==> Marked(out[|dst|..|out| - 1], hash(keys[i]), k)
  {
    var bits := |keys| * bitsPerKey;
    if bits < 64 {
      bits := 64;
    }
    var bytes := (bits + 7) / 8;
    bits := bytes * 8;
    var marks := new Byte[bytes](_ => 0);
    NothingProbed(marks[..], hash, k);
    for i := 0 to |keys|
      invariant ExactlyProbed(marks[..], hash, keys[..i], k)
    {
      ghost var before := marks[..];
      MarkKey(marks, hash(keys[i]), k);
      KeyProbed(before, marks[..], hash, keys[..i], keys[i], k);
      assert keys[..i + 1] == keys[..i] + [keys[i]];
    }
    assert keys[..|keys|] == keys;
    forall i | 0 <= i < |keys| ensures Marked(marks[..], hash(keys[i]), k) {
      ProbedMarked(marks[..], hash, keys, k, i);
    }
    out := dst + marks[..] + [k];
    assert out[|dst|..|out| - 1] == marks[..];
    assert out[..|dst|] == dst;
  }

  /** At least eight bytes. */
  function FilterBytes(keys: nat, bitsPerKey: nat): (n: nat)
    ensures n >= 8 && 8 * n >= keys * bitsPerKey && (n > 8 ==> 8 * n < keys * bitsPerKey + 8)
  {
    if keys * bitsPerKey < 64 then 8 else (keys * bitsPerKey + 7) / 8
  }

  method MarkKey(marks: array<Byte>, hash: Word, k: nat)
    requires marks.Length > 0
    modifies marks
    ensures KeyMarked(old(marks[..]), marks[..], hash, k) == true
  {
    var h, delta := hash, Delta(hash);
    for j := 0 to k
      invariant h == Probe(hash, j) && KeyMarked(old(marks[..]), marks[..], hash, j) == true
    {
      ghost var before := marks[..];
      var bitpos := h % (marks.Length * 8);
      marks[bitpos / 8] := SetIn(marks[bitpos / 8], bitpos % 8);
      assert marks[..] == before[bitpos / 8 := SetIn(before[bitpos / 8], bitpos % 8)];
      OneMoreProbe(old(marks[..]), before, marks[..], hash, j, bitpos);
      h := (h + delta) % 0x1_0000_0000;
    }
  }

  /** What a filter says about a key (bloom.cc:56-80). */
  ghost predicate MayMatch(hash: Hash, key: seq<Byte>, filter: seq<Byte>) {
    |filter| >= 2 && (filter[|filter| - 1] > 30 || Marked(filter[..|filter| - 1], hash(key), filter[|filter| - 1]))
  }

  method KeyMayMatch(hash: Hash, key: seq<Byte>, filter: seq<Byte>) returns (may: bool)
    ensures may <==> MayMatch(hash, key, filter)
  {
    var len := |filter|;
    if len < 2 {
      return false;
    }
    var bits := (len - 1) * 8;
    var k := filter[len - 1];
    if k > 30 {
      return true;
    }
    var h := hash(key);
    var delta := Delta(h);
    ghost var marks := filter[..len - 1];
    for j := 0 to k
      invariant h == Probe(hash(key), j) && Marked(marks, hash(key), j)
    {
      var bitpos := h % bits;
      assert marks[bitpos / 8] == filter[bitpos / 8];
      if !BitOf(filter[bitpos / 8], bitpos % 8) {
        return false;
      }
      h := (h + delta) % 0x1_0000_0000;
    }
    may := true;
  }

  /** No key is missed by its own filter, for any hash function, sizes, and bytes in front. */
  method NoFalseNegative(hash: Hash, keys: seq<seq<Byte>>, bitsPerKey: nat, k: nat, i: nat) returns (may: bool)
    requires 1 <= k <= 30 && i < |keys|
    ensures may
  {
    var filter := CreateFilter(hash, keys, bitsPerKey, k, []);
    assert filter[0..|filter| - 1] == filter[..|filter| - 1];
    may := KeyMayMatch(hash, keys[i], filter);
  }
}
