/** Prefix-compressed blocks: building one and moving about in it (table/block_builder, table/block). */
module Blocks {
  import opened Coding

  datatype Pair = Pair(key: seq<Byte>, value: seq<Byte>)

  // ---- One entry ----

  /** An entry that shares its first `shared` bytes with the key before it. */
  function EncodeEntry(shared: nat, p: Pair): (r: seq<Byte>)
    requires shared <= |p.key|
    ensures r != []
  {
    EncodeVarint(shared) + EncodeVarint(|p.key| - shared) + EncodeVarint(|p.value|) + p.key[shared..] + p.value
  }

  datatype Header = Header(shared: nat, nonShared: nat, valueLength: nat)

  /** Read an entry's header; what remains starts with its key bytes (block.cc:54-74).  The sum of the two
      lengths is taken in 32 bits. */
  function ParseEntry(s: seq<Byte>): Got<Header> {
    if |s| < 3 then Missing
    else
      match GetVarint32(s)
      case Missing => Missing
      case Got(shared, s1) =>
        match GetVarint32(s1)
        case Missing => Missing
        case Got(nonShared, s2) =>
          match GetVarint32(s2)
          case Missing => Missing
          case Got(valueLength, s3) =>
            if |s3| < (nonShared + valueLength) % 0x1_0000_0000 then Missing
            else Got(Header(shared, nonShared, valueLength), s3)
  }

  lemma ParseThree(s: seq<Byte>, a: Word, s1: seq<Byte>, b: Word, s2: seq<Byte>, c: Word, s3: seq<Byte>)
    requires |s| >= 3 && GetVarint32(s) == Got(a, s1) && GetVarint32(s1) == Got(b, s2) && GetVarint32(s2) == Got(c, s3)
    requires b + c <= |s3| && b + c < 0x1_0000_0000
    ensures ParseEntry(s) == Got(Header(a, b, c), s3)
  {}

  lemma ThreeVarints(a: seq<Byte>, b: seq<Byte>, c: seq<Byte>, d: seq<Byte>, e: seq<Byte>, tail: seq<Byte>)
    ensures (a + b + c + d + e) + tail == a + (b + (c + (d + e + tail)))
  {}

  lemma EntryParses(shared: nat, p: Pair, tail: seq<Byte>)
    requires shared <= |p.key| && shared < 0x1_0000_0000 && |p.key| - shared + |p.value| < 0x1_0000_0000
    ensures ParseEntry(EncodeEntry(shared, p) + tail)
            == Got(Header(shared, |p.key| - shared, |p.value|), p.key[shared..] + p.value + tail)
  {
    var a, b, c := EncodeVarint(shared), EncodeVarint(|p.key| - shared), EncodeVarint(|p.value|);
    ThreeVarints(a, b, c, p.key[shared..], p.value, tail);
    LengthsParse(shared, |p.key| - shared, |p.value|, p.key[shared..] + p.value + tail);
  }

  lemma LengthsParse(shared: Word, nonShared: Word, valueLength: Word, rest: seq<Byte>)
    requires nonShared + valueLength < 0x1_0000_0000 && nonShared + valueLength <= |rest|
    ensures ParseEntry(EncodeVarint(shared) + (EncodeVarint(nonShared) + (EncodeVarint(valueLength) + rest)))
            == Got(Header(shared, nonShared, valueLength), rest)
  {
    var s3 := EncodeVarint(valueLength) + rest;
    var s2 := EncodeVarint(nonShared) + s3;
    Varint32RoundTrip(shared, s2);
    Varint32RoundTrip(nonShared, s3);
    Varint32RoundTrip(valueLength, rest);
    ParseThree(EncodeVarint(shared) + s2, shared, s2, nonShared, s3, valueLength, rest);
  }

  lemma SmallVarint(s: seq<Byte>)
    requires s != [] && s[0] < 128
    ensures GetVarint32(s) == Got(s[0], s[1..])
  {}

  /** The source's fast path, three one-byte lengths, reads what the general path would. */
  method DecodeEntry(contents: seq<Byte>, p: nat, limit: nat) returns (ok: bool, h: Header, q: nat)
    requires p <= limit <= |contents|
    ensures match ParseEntry(contents[p..limit])
            case Missing => !ok
            case Got(header, rest) => ok && h == header && p <= q <= limit && rest == contents[q..limit]
  {
    var s := contents[p..limit];
    ok, h, q := false, Header(0, 0, 0), p;
    if limit - p < 3 {
      return;
    }
    var rest: seq<Byte>;
    if contents[p] < 128 && contents[p + 1] < 128 && contents[p + 2] < 128 {
      h, rest := Header(contents[p], contents[p + 1], contents[p + 2]), contents[p + 3..limit];
      SmallVarint(s);
      assert s[1..] == contents[p + 1..limit];
      SmallVarint(s[1..]);
      assert s[1..][1..] == contents[p + 2..limit];
      SmallVarint(contents[p + 2..limit]);
    } else {
      var a := GetVarint32Ptr(s);
      if a.Missing? { return; }
      var b := GetVarint32Ptr(a.rest);
      if b.Missing? { return; }
      var c := GetVarint32Ptr(b.rest);
      if c.Missing? { return; }
      h, rest := Header(a.value, b.value, c.value), c.rest;
    }
    if |rest| < (h.nonShared + h.valueLength) % 0x1_0000_0000 {
      return;
    }
    ok, q := true, limit - |rest|;
    assert rest == contents[q..limit] by { RestIsSuffix(s, h, rest); }
  }

  lemma {:induction false} VarintSuffix(s: seq<Byte>, n: nat)
    ensures match GetVarint(s, n) case Missing => true case Got(_, rest) => rest == s[|s| - |rest|..]
  {
    if n > 0 && s != [] && s[0] >= 128 {
      VarintSuffix(s[1..], n - 1);
    }
  }

  lemma RestIsSuffix(s: seq<Byte>, h: Header, rest: seq<Byte>)
    requires ParseEntry(s) == Got(h, rest)
    ensures |rest| <= |s| && rest == s[|s| - |rest|..]
  {
    VarintSuffix(s, 5);
    var s1 := GetVarint32(s).rest;
    VarintSuffix(s1, 5);
    var s2 := GetVarint32(s1).rest;
    VarintSuffix(s2, 5);
  }

  // ---- The layout of a block ----

  /** How pairs are laid out in `data`: where each starts, what it shares, and which are restart points. */
  datatype Layout = Layout(data: seq<Byte>, pairs: seq<Pair>, offs: seq<nat>, shared: seq<nat>, points: seq<nat>)

  ghost predicate EntryAt(y: Layout, i: nat)
    requires i < |y.pairs| == |y.shared| && |y.offs| == |y.pairs| + 1
  {
    && y.offs[i] < y.offs[i + 1] <= |y.data| && y.shared[i] <= |y.pairs[i].key| && y.shared[i] < 0x1_0000_0000
    && y.data[y.offs[i]..y.offs[i + 1]] == EncodeEntry(y.shared[i], y.pairs[i])
    && (y.shared[i] > 0 ==>
          i > 0 && y.shared[i] <= |y.pairs[i - 1].key| && y.pairs[i - 1].key[..y.shared[i]] == y.pairs[i].key[..y.shared[i]])
  }

  ghost predicate Laid(y: Layout) {
    && |y.shared| == |y.pairs| && |y.offs| == |y.pairs| + 1
    && y.offs[0] == 0 && y.offs[|y.pairs|] == |y.data| < 0x1_0000_0000
    && (forall i :: 0 <= i < |y.pairs| ==> EntryAt(y, i))
    && y.points != [] && y.points[0] == 0 && |y.points| < 0x1_0000_0000
    && (forall r, t :: 0 <= r < t < |y.points| ==> y.points[r] < y.points[t] < |y.pairs|)
    && (forall r :: 0 <= r < |y.points| && y.points[r] < |y.pairs| ==> y.shared[y.points[r]] == 0)
  }

  lemma {:induction false} OffsetsGrow(y: Layout, i: nat, j: nat)
    requires Laid(y) && i <= j <= |y.pairs|
    ensures y.offs[i] <= y.offs[j] && (i < j ==> y.offs[i] < y.offs[j])
    ensures y.offs[j] <= |y.data|
    decreases |y.pairs| - i
  {
    if i < j {
      assert EntryAt(y, i);
      OffsetsGrow(y, i + 1, j);
    } else if j < |y.pairs| {
      assert EntryAt(y, j);
    }
  }

  lemma OffsetOrder(y: Layout, i: nat, j: nat)
    requires Laid(y) && i <= |y.pairs| && j <= |y.pairs|
    ensures y.offs[i] <= y.offs[j] <==> i <= j
  {
    if i <= j { OffsetsGrow(y, i, j); } else { OffsetsGrow(y, j, i); }
  }

  /** The offsets of the restart points. */
  function Restarts(y: Layout): (r: seq<nat>)
    requires forall i :: 0 <= i < |y.points| ==> y.points[i] < |y.offs|
    ensures |r| == |y.points| && forall i :: 0 <= i < |r| ==> r[i] == y.offs[y.points[i]]
  {
    seq(|y.points|, i requires 0 <= i < |y.points| => y.offs[y.points[i]])
  }

  /** The bytes of a finished block. */
  function Contents(y: Layout): seq<Byte>
    requires Laid(y)
  {
    y.data + Fixed32s(Restarts(y)) + EncodeFixed32(|y.points|)
  }

  // ---- Building ----

  /** One pair more, `shared` bytes of its key left out, at a new restart point or not. */
  function Extended(y: Layout, shared: nat, p: Pair, restart: bool): Layout
    requires shared <= |p.key|
  {
    var data := y.data + EncodeEntry(shared, p);
    Layout(data, y.pairs + [p], y.offs + [|data|], y.shared + [shared],
           if restart then y.points + [|y.pairs|] else y.points)
  }

  lemma ExtendedLaid(y: Layout, shared: nat, p: Pair, restart: bool)
    requires Laid(y) && shared <= |p.key| && shared < 0x1_0000_0000 && |y.data| + |EncodeEntry(shared, p)| < 0x1_0000_0000
    requires restart || y.pairs == [] ==> shared == 0
    requires restart ==> y.pairs != [] && |y.points| + 1 < 0x1_0000_0000
    requires restart ==> y.points[|y.points| - 1] < |y.pairs|
    requires shared > 0 ==> var k := y.pairs[|y.pairs| - 1].key; shared <= |k| && k[..shared] == p.key[..shared]
    ensures Laid(Extended(y, shared, p, restart)) == true
    ensures Restarts(Extended(y, shared, p, restart)) == if restart then Restarts(y) + [|y.data|] else Restarts(y)
  {
    var z, n := Extended(y, shared, p, restart), |y.pairs|;
    forall i | 0 <= i <= n ensures EntryAt(z, i) {
      if i < n {
        assert EntryAt(y, i);
        assert z.data[z.offs[i]..z.offs[i + 1]] == y.data[y.offs[i]..y.offs[i + 1]];
      } else {
        assert z.data[z.offs[n]..z.offs[n + 1]] == EncodeEntry(shared, p);
      }
    }
  }

  /** The builder's variables stand for a layout whose last restart point has a pair. */
  ghost predicate Stands(y: Layout, buffer: seq<Byte>, restarts: seq<nat>, lastKey: seq<Byte>) {
    && Laid(y) == true && y.data == buffer && restarts == Restarts(y)
    && lastKey == (if y.pairs == [] then [] else y.pairs[|y.pairs| - 1].key)
    && (y.pairs != [] ==> y.points[|y.points| - 1] < |y.pairs|)
  }

  lemma ExtendedStands(y: Layout, buffer: seq<Byte>, restarts: seq<nat>, lastKey: seq<Byte>, shared: nat, p: Pair,
                       restart: bool)
    requires shared <= |lastKey| && shared <= |p.key| && shared < 0x1_0000_0000 && lastKey[..shared] == p.key[..shared]
    requires Stands(y, buffer, restarts, lastKey) == true && |buffer| + |EncodeEntry(shared, p)| < 0x1_0000_0000
    requires restart ==> shared == 0 && y.pairs != [] && |restarts| + 1 < 0x1_0000_0000
    ensures Stands(Extended(y, shared, p, restart), buffer + EncodeEntry(shared, p),
                   if restart then restarts + [|buffer|] else restarts, lastKey[..shared] + p.key[shared..]) == true
  {
    ExtendedLaid(y, shared, p, restart);
    ShareAndRest(p.key, shared);
  }

  /** As many bytes as two keys have in common at the front. */
  ghost predicate LongestShared(a: seq<Byte>, b: seq<Byte>, n: nat) {
    && n <= |a| && n <= |b| && a[..n] == b[..n]
    && (n < |a| && n < |b| ==> a[n] != b[n])
  }

  /** An entry leaves out all it can, unless it is a restart point. */
  ghost predicate SharesAll(y: Layout, i: nat)
    requires 0 < i < |y.pairs| && |y.shared| == |y.pairs|
  {
    if i in y.points then y.shared[i] == 0 else LongestShared(y.pairs[i - 1].key, y.pairs[i].key, y.shared[i])
  }

  /** Every `interval`th entry is a restart point, and the others leave out all they share with the entry before. */
  ghost predicate Compact(y: Layout, interval: nat) {
    && |y.shared| == |y.pairs| && y.points != [] && y.points[0] == 0
    && (forall r :: 0 < r < |y.points| ==> y.points[r] == y.points[r - 1] + interval)
    && (y.pairs != [] ==> y.shared[0] == 0 && y.points[|y.points| - 1] < |y.pairs| <= y.points[|y.points| - 1] + interval)
    && (forall i :: 0 < i < |y.pairs| ==> SharesAll(y, i))
  }

  lemma ExtendedCompact(y: Layout, interval: nat, shared: nat, p: Pair, restart: bool)
    requires Laid(y) && Compact(y, interval) && shared <= |p.key| && interval >= 1
    requires restart == (y.pairs != [] && |y.pairs| == y.points[|y.points| - 1] + interval)
    requires if y.pairs == [] || restart then shared == 0 else LongestShared(y.pairs[|y.pairs| - 1].key, p.key, shared)
    ensures Compact(Extended(y, shared, p, restart), interval) == true
  {
    var z, n := Extended(y, shared, p, restart), |y.pairs|;
    forall i | 0 < i < |z.pairs| ensures SharesAll(z, i) {
      if i < n {
        assert SharesAll(y, i);
        assert i in z.points <==> i in y.points;
      } else if restart {
        assert z.points[|z.points| - 1] == n;
      }
    }
  }

  /** Restart points follow from the number of entries, and what is shared from the keys. */
  lemma {:induction false} SamePoints(y: Layout, z: Layout, interval: nat, r: nat)
    requires Compact(y, interval) && Compact(z, interval) && r < |y.points| && r < |z.points|
    ensures y.points[r] == z.points[r]
  {
    if r > 0 { SamePoints(y, z, interval, r - 1); }
  }

  lemma PointBefore(y: Layout, interval: nat, r: nat)
    requires Laid(y) && Compact(y, interval) && 0 < r < |y.points|
    ensures y.points[r - 1] + interval < |y.pairs|
  {
    assert y.points[r] == y.points[r - 1] + interval;
  }

  lemma FewerPoints(y: Layout, z: Layout, interval: nat)
    requires Laid(z) && Compact(y, interval) && Compact(z, interval) && y.pairs == z.pairs
    ensures |z.points| <= |y.points|
  {
    var n := |y.points|;
    if n < |z.points| {
      PointBefore(z, interval, n);
      SamePoints(y, z, interval, n - 1);
    }
  }

  lemma SameShared(y: Layout, z: Layout, i: nat)
    requires |y.shared| == |y.pairs| && |z.shared| == |z.pairs| && y.pairs == z.pairs && y.points == z.points
    requires 0 < i < |y.pairs| && SharesAll(y, i) && SharesAll(z, i)
    ensures y.shared[i] == z.shared[i]
  {
    if i !in y.points {
      NotLonger(y.pairs[i - 1].key, y.pairs[i].key, y.shared[i], z.shared[i]);
      NotLonger(y.pairs[i - 1].key, y.pairs[i].key, z.shared[i], y.shared[i]);
    }
  }

  lemma NotLonger(a: seq<Byte>, b: seq<Byte>, m: nat, n: nat)
    requires LongestShared(a, b, m) && n <= |a| && n <= |b| && a[..n] == b[..n]
    ensures n <= m
  {
    forall i | 0 <= i < n ensures a[i] == b[i] {
      assert a[..n][i] == b[..n][i];
    }
  }

  lemma {:induction false} SameData(y: Layout, z: Layout, i: nat)
    requires Laid(y) && Laid(z) && y.pairs == z.pairs && y.shared == z.shared && i <= |y.pairs|
    ensures y.offs[i] == z.offs[i] <= |y.data| && y.offs[i] <= |z.data| && y.data[..y.offs[i]] == z.data[..y.offs[i]]
  {
    if i > 0 {
      SameData(y, z, i - 1);
      assert EntryAt(y, i - 1) && EntryAt(z, i - 1);
      var a, b := y.offs[i - 1], y.offs[i];
      assert |y.data[a..b]| == |z.data[a..z.offs[i]]|;
      assert y.data[..b] == y.data[..a] + y.data[a..b];
      assert z.data[..b] == z.data[..a] + z.data[a..b];
    }
  }

  /** The bytes of a block are determined by its pairs and the restart interval. */
  lemma BlockUnique(y: Layout, z: Layout, interval: nat)
    requires Laid(y) && Laid(z) && Compact(y, interval) && Compact(z, interval) && y.pairs == z.pairs
    ensures Contents(y) == Contents(z)
  {
    FewerPoints(y, z, interval);
    FewerPoints(z, y, interval);
    forall r | 0 <= r < |y.points| ensures y.points[r] == z.points[r] {
      SamePoints(y, z, interval, r);
    }
    assert y.points == z.points;
    forall i | 0 <= i < |y.pairs| ensures y.shared[i] == z.shared[i] {
      if i > 0 { SameShared(y, z, i); }
    }
    assert y.shared == z.shared;
    forall i | 0 <= i <= |y.pairs| ensures y.offs[i] == z.offs[i] {
      SameData(y, z, i);
    }
    assert y.offs == z.offs;
    SameData(y, z, |y.pairs|);
    assert y.data[..|y.data|] == y.data && z.data[..|z.data|] == z.data;
  }

  /** The builder's variables stand for a compact layout, with `counter` entries since the last restart point. */
  ghost predicate Built(y: Layout, interval: nat, buffer: seq<Byte>, restarts: seq<nat>, counter: nat, lastKey: seq<Byte>) {
    && interval >= 1 && counter <= interval && Stands(y, buffer, restarts, lastKey) == true && Compact(y, interval) == true
    && y.points != [] && counter == |y.pairs| - y.points[|y.points| - 1]
  }

  lemma ExtendedBuilt(y: Layout, interval: nat, buffer: seq<Byte>, restarts: seq<nat>, counter: nat, lastKey: seq<Byte>,
                      shared: nat, p: Pair, restart: bool)
    requires Built(y, interval, buffer, restarts, counter, lastKey) && restart == (counter == interval)
    requires if restart then shared == 0 else LongestShared(lastKey, p.key, shared)
    requires |buffer| + 4 * |restarts| + |p.key| + |p.value| + 0x80 < 0x1_0000_0000
    ensures shared <= |lastKey| && shared <= |p.key| && |EncodeEntry(shared, p)| <= |p.key| + |p.value| + 15
    ensures Extended(y, shared, p, restart).pairs == y.pairs + [p]
    ensures Compact(Extended(y, shared, p, restart), interval) == true
    ensures Built(Extended(y, shared, p, restart), interval, buffer + EncodeEntry(shared, p),
                  if restart then restarts + [|buffer|] else restarts, if restart then 1 else counter + 1,
                  lastKey[..shared] + p.key[shared..]) == true
  {
    EntrySize(shared, p);
    ExtendedStands(y, buffer, restarts, lastKey, shared, p, restart);
    ExtendedCompact(y, interval, shared, p, restart);
  }

  class BlockBuilder {
    const interval: nat
    var buffer: seq<Byte>
    var restarts: seq<nat>
    var counter: nat
    var lastKey: seq<Byte>
    ghost var y: Layout

    ghost predicate Valid()
      reads this
    {
      Built(y, interval, buffer, restarts, counter, lastKey) == true
    }

    constructor (interval: nat)
      requires interval >= 1
      ensures Valid() && y.pairs == [] && this.interval == interval && CurrentSizeEstimate() == 8
    {
      this.interval := interval;
      buffer, restarts, counter, lastKey := [], [0], 0, [];
      y := Layout([], [], [0], [], [0]);
    }

    method Reset()
      requires Valid()
      modifies this
      ensures Valid() && y.pairs == []
    {
      buffer, restarts, counter, lastKey := [], [0], 0, [];
      y := Layout([], [], [0], [], [0]);
    }

    function CurrentSizeEstimate(): nat
      reads this
    {
      |buffer| + 4 * |restarts| + 4
    }

    /** How much of a key the last one shares, or none at a new restart point. */
    method Sharing(key: seq<Byte>) returns (shared: nat, restart: bool)
      requires Valid()
      modifies this`restarts, this`counter
      ensures restart == (old(counter) == interval) && counter == (if restart then 0 else old(counter))
      ensures restarts == if restart then old(restarts) + [|buffer|] else old(restarts)
      ensures if restart then shared == 0 else LongestShared(lastKey, key, shared)
    {
      shared, restart := 0, false;
      if counter < interval {
        var minLength := if |lastKey| < |key| then |lastKey| else |key|;
        while shared < minLength && lastKey[shared] == key[shared]
          invariant shared <= minLength && lastKey[..shared] == key[..shared]
        {
          shared := shared + 1;
        }
      } else {
        restarts := restarts + [|buffer|];
        restart, counter := true, 0;
      }
    }

    /** Append a pair, leaving out what its key shares with the last one (block_builder.cc:72-106).  Offsets
        and lengths are 32-bit, so the block must stay below that. */
    method Add(key: seq<Byte>, value: seq<Byte>)
      requires Valid() && CurrentSizeEstimate() + |key| + |value| + 0x100 < 0x1_0000_0000
      modifies this
      ensures Valid() == true && y.pairs == old(y.pairs) + [Pair(key, value)] && Compact(y, interval) == true
      ensures |buffer| <= old(|buffer|) + |key| + |value| + 15 && |restarts| <= old(|restarts|) + 1
    {
      ghost var z := y;
      var shared, restart := Sharing(key);
      var p := Pair(key, value);
      ExtendedBuilt(z, interval, buffer, old(restarts), old(counter), lastKey, shared, p, restart);
      buffer := buffer + EncodeEntry(shared, p);
      y := Extended(z, shared, p, restart);
      lastKey := lastKey[..shared] + key[shared..];
      counter := counter + 1;
    }

    /** The finished block (block_builder.cc:62-70). */
    method Finish() returns (block: seq<Byte>)
      requires Valid()
      ensures block == Contents(y) && |block| == CurrentSizeEstimate()
    {
      block := buffer;
      for i := 0 to |restarts|
        invariant block == buffer + Fixed32s(restarts[..i])
      {
        assert restarts[..i + 1][..i] == restarts[..i];
        block := block + EncodeFixed32(restarts[i] % 0x1_0000_0000);
      }
      assert restarts[..|restarts|] == restarts;
      block := block + EncodeFixed32(|restarts|);
    }
  }

  lemma EntrySize(shared: nat, p: Pair)
    requires shared <= |p.key| < 0x1_0000_0000 && |p.value| < 0x1_0000_0000
    ensures |EncodeEntry(shared, p)| <= |p.key| + |p.value| + 15
  {
    Weights();
    VarintFits(shared, 5);
    VarintFits(|p.key| - shared, 5);
    VarintFits(|p.value|, 5);
  }

  // ---- Moving about ----

  /** A comparator: any order in which keys can be ranked. */
  type Order = seq<Byte> -> real

  ghost predicate Increasing(pairs: seq<Pair>, order: Order) {
    forall i, j :: 0 <= i < j < |pairs| ==> order(pairs[i].key) < order(pairs[j].key)
  }

  /** Pair `i` is the first at or after the target; the end if there is none. */
  ghost predicate FirstAtOrAfter(pairs: seq<Pair>, order: Order, target: seq<Byte>, i: nat) {
    && i <= |pairs|
    && (forall j :: 0 <= j < i ==> order(pairs[j].key) < order(target))
    && (i < |pairs| ==> order(pairs[i].key) >= order(target))
  }

  /** `r` is a restart point not after pair `i`, and the next one is not before it. */
  ghost predicate Around(y: Layout, i: nat, r: nat)
    requires Laid(y)
  {
    && r < |y.points| && i < |y.pairs| && y.points[r] <= i
    && (r + 1 < |y.points| ==> i <= y.points[r + 1])
  }

  class BlockIter {
    const order: Order
    const contents: seq<Byte>
    const restarts: nat
    const numRestarts: nat
    var current: nat
    var restartIndex: nat
    var key: seq<Byte>
    var valueAt: nat
    var valueSize: nat
    var corrupt: bool
    ghost const y: Layout

    /** An iterator over a finished block (block.cc:24-39, 254-264). */
    constructor (order: Order, contents: seq<Byte>, ghost y: Layout)
      requires Laid(y) && contents == Contents(y)
      ensures this.order == order && this.y == y && Ok() && On(|y.pairs|)
    {
      var n: nat := DecodeFixed32(contents[|contents| - 4..]);
      CountRead(y);
      this.order, this.contents, this.y := order, contents, y;
      this.numRestarts := n;
      this.restarts := |contents| - (1 + n) * 4;
      current, restartIndex, key, valueAt, valueSize, corrupt := |contents| - (1 + n) * 4, n, [], 0, 0, false;
    }

    ghost predicate Ok()
      reads this
    {
      && Laid(y) == true && contents == Contents(y) && numRestarts == |y.points| && restarts == |y.data| && !corrupt
    }

    /** The iterator is on pair `i`, or past the last one. */
    ghost predicate On(i: nat)
      requires Laid(y)
      reads this
    {
      && i <= |y.pairs| && current == y.offs[i]
      && (i < |y.pairs| ==>
            && key == y.pairs[i].key && valueAt + valueSize == y.offs[i + 1]
            && valueAt + valueSize <= |contents| && contents[valueAt..valueAt + valueSize] == y.pairs[i].value
            && Around(y, i, restartIndex))
    }

    /** About to read pair `i`. */
    ghost predicate Before(i: nat)
      requires Laid(y)
      reads this
    {
      && i <= |y.pairs| && valueAt + valueSize == y.offs[i]
      && (i < |y.pairs| ==> y.shared[i] <= |key| && y.shared[i] <= |y.pairs[i].key| && key[..y.shared[i]] == y.pairs[i].key[..y.shared[i]])
      && restartIndex < |y.points| && y.points[restartIndex] <= i
    }

    predicate Valid()
      reads this
    {
      current < restarts
    }

    function NextEntryOffset(): nat
      reads this
    {
      valueAt + valueSize
    }

    method GetRestartPoint(r: nat) returns (offset: nat)
      requires Ok() && r < numRestarts
      ensures offset == y.offs[y.points[r]]
    {
      RestartRead(y, r);
      offset := DecodeFixed32(contents[restarts + 4 * r..]);
    }

    method SeekToRestartPoint(r: nat)
      requires Ok() && r < numRestarts
      modifies this`key, this`restartIndex, this`valueAt, this`valueSize
      ensures Ok() && Before(y.points[r]) && restartIndex == r
    {
      key := [];
      restartIndex := r;
      valueAt := GetRestartPoint(r);
      valueSize := 0;
    }

    /** Move `restartIndex` up to the block that `current` falls in. */
    method AdvanceRestart(ghost i: nat)
      requires Ok() && i < |y.pairs| && current == y.offs[i] && restartIndex < numRestarts && y.points[restartIndex] <= i
      modifies this`restartIndex
      ensures Around(y, i, restartIndex)
    {
      while restartIndex + 1 < numRestarts
        invariant restartIndex < numRestarts && y.points[restartIndex] <= i
        decreases numRestarts - restartIndex
      {
        var next := GetRestartPoint(restartIndex + 1);
        OffsetOrder(y, i, y.points[restartIndex + 1]);
        if next >= current {
          break;
        }
        restartIndex := restartIndex + 1;
      }
    }

    /** Decode the entry at `current` on top of what `key` shares with it. */
    method ReadEntry(ghost i: nat)
      requires Ok() && Before(i) && i < |y.pairs| && current == y.offs[i]
      modifies this`key, this`valueAt, this`valueSize
      ensures key == y.pairs[i].key && valueAt + valueSize == y.offs[i + 1]
      ensures valueAt + valueSize <= |contents| && contents[valueAt..valueAt + valueSize] == y.pairs[i].value
    {
      OffsetOrder(y, |y.pairs|, i);
      var ok, h, p := DecodeEntry(contents, current, restarts);
      EntryStands(y, i, ok, h, p);
      key := key[..h.shared] + contents[p..p + h.nonShared];
      ShareAndRest(y.pairs[i].key, y.shared[i]);
      valueAt, valueSize := p + h.nonShared, h.valueLength;
    }

    /** Read the pair that comes next (block.cc:224-251). */
    method ParseNextKey(ghost i: nat) returns (more: bool)
      requires Ok() && Before(i)
      modifies this
      ensures Ok() == true && On(i) == true && more == (i < |y.pairs|)
    {
      current := NextEntryOffset();
      if current >= restarts {
        AtTheEnd(y, i);
        current, restartIndex := restarts, numRestarts;
        return false;
      }
      EntryRead(y, i);
      ReadEntry(i);
      AdvanceRestart(i);
      more := true;
    }

    lemma OnThenBefore(i: nat)
      requires Ok() && On(i) && i < |y.pairs|
      ensures Before(i + 1) && current < restarts
    {
      OffsetsGrow(y, i, |y.pairs|);
      if i + 1 < |y.pairs| { assert EntryAt(y, i + 1); }
    }

    method SeekToFirst()
      requires Ok()
      modifies this
      ensures Ok() && On(0)
    {
      SeekToRestartPoint(0);
      var _ := ParseNextKey(0);
    }

    method Next(ghost i: nat)
      requires Ok() && On(i) && i < |y.pairs|
      modifies this
      ensures Ok() && On(i + 1)
    {
      OnThenBefore(i);
      var _ := ParseNextKey(i + 1);
    }

    method SeekToLast()
      requires Ok()
      modifies this
      ensures Ok() && On(if |y.pairs| == 0 then 0 else |y.pairs| - 1)
    {
      SeekToRestartPoint(numRestarts - 1);
      ghost var i := y.points[numRestarts - 1];
      var more := ParseNextKey(i);
      while more && NextEntryOffset() < restarts
        invariant Ok() && i <= |y.pairs| && On(i) && more == (i < |y.pairs|)
        invariant i == |y.pairs| ==> i == 0
        decreases |y.pairs| - i
      {
        OnThenBefore(i);
        OffsetOrder(y, i + 1, |y.pairs|);
        i := i + 1;
        more := ParseNextKey(i);
      }
      OffsetOrder(y, |y.pairs|, if more then i + 1 else i);
    }

    /** Back to a restart point before the pair the iterator is on; past the end if there is none. */
    method RewindRestart(ghost i: nat) returns (found: bool)
      requires Ok() && On(i) && i < |y.pairs|
      modifies this`current, this`restartIndex
      ensures Ok() == true && found == (i > 0)
      ensures found ==> restartIndex < numRestarts && y.points[restartIndex] < i
      ensures !found ==> On(|y.pairs|)
    {
      var original := current;
      var restart := GetRestartPoint(restartIndex);
      OffsetOrder(y, i, 0);
      while restart >= original
        invariant restartIndex < numRestarts && restart == y.offs[y.points[restartIndex]]
        invariant Ok() && current == original
        decreases restartIndex
      {
        if restartIndex == 0 {
          current, restartIndex := restarts, numRestarts;
          return false;
        }
        restartIndex := restartIndex - 1;
        restart := GetRestartPoint(restartIndex);
      }
      OffsetOrder(y, i, y.points[restartIndex]);
      found := true;
    }

    /** The pair before, or the end if there is none (block.cc:142-161). */
    method Prev(ghost i: nat)
      requires Ok() && On(i) && i < |y.pairs|
      modifies this
      ensures Ok() == true && On(if i == 0 then |y.pairs| else i - 1) == true
    {
      var original := current;
      var found := RewindRestart(i);
      if !found {
        return;
      }
      StepUpTo(original, i);
    }

    /** From the restart point on, to the last pair that ends before `original`. */
    method StepUpTo(original: nat, ghost i: nat)
      requires Ok() && restartIndex < numRestarts && y.points[restartIndex] < i < |y.pairs| && original == y.offs[i]
      modifies this
      ensures Ok() == true && On(i - 1) == true
    {
      ghost var j := y.points[restartIndex];
      SeekToRestartPoint(restartIndex);
      var more := ParseNextKey(j);
      while more && NextEntryOffset() < original
        invariant Ok() == true && j < i && On(j) == true && more
        decreases i - j
      {
        OnThenBefore(j);
        OffsetOrder(y, i, j + 1);
        j := j + 1;
        more := ParseNextKey(j);
      }
      OffsetOrder(y, i, j + 1);
    }

    /** The key of a restart point, read without moving. */
    method RestartKey(r: nat) returns (ok: bool, k: seq<Byte>)
      requires Ok() && 0 < r < numRestarts
      ensures y.points[r] < |y.pairs| && ok && k == y.pairs[y.points[r]].key
    {
      var offset := GetRestartPoint(r);
      OffsetOrder(y, |y.pairs|, y.points[r]);
      var good, h, p := DecodeEntry(contents, offset, restarts);
      EntryStands(y, y.points[r], good, h, p);
      ok := good && h.shared == 0;
      k := contents[p..p + h.nonShared];
    }

    /** The last restart point known to be before the target, or the first one. */
    method FindRestart(target: seq<Byte>) returns (left: nat)
      requires Ok()
      ensures left < numRestarts
      ensures left > 0 ==> y.points[left] < |y.pairs| && order(y.pairs[y.points[left]].key) < order(target)
    {
      left := 0;
      var right: nat := numRestarts - 1;
      while left < right
        invariant left <= right < numRestarts
        invariant left > 0 ==> y.points[left] < |y.pairs| && order(y.pairs[y.points[left]].key) < order(target)
      {
        var mid := (left + right + 1) / 2;
        var ok, midKey := RestartKey(mid);
        if order(midKey) < order(target) {
          left := mid;
        } else {
          right := mid - 1;
        }
      }
    }

    /** Binary search over the restart points, then a scan (block.cc:163-201). */
    method Seek(target: seq<Byte>) returns (ghost i: nat)
      requires Ok() && Increasing(y.pairs, order)
      modifies this
      ensures Ok() && On(i) && FirstAtOrAfter(y.pairs, order, target, i)
    {
      var left := FindRestart(target);
      SeekToRestartPoint(left);
      i := y.points[left];
      assert forall j :: 0 <= j < i ==> order(y.pairs[j].key) < order(target);
      while true
        invariant Ok() == true && Before(i) && forall j :: 0 <= j < i ==> order(y.pairs[j].key) < order(target)
        decreases |y.pairs| - i
      {
        var more := ParseNextKey(i);
        if !more {
          return;
        }
        if order(key) >= order(target) {
          return;
        }
        OnThenBefore(i);
        i := i + 1;
      }
    }
  }

  lemma SliceTwice(s: seq<Byte>, p: nat, limit: nat, a: nat, b: nat)
    requires a <= b && p + b <= limit <= |s|
    ensures s[p..limit][a..b] == s[p + a..p + b]
  {
    var x, z := s[p..limit][a..b], s[p + a..p + b];
    assert |x| == |z| && forall i :: 0 <= i < |x| ==> x[i] == z[i];
  }

  lemma ShareAndRest(key: seq<Byte>, n: nat)
    requires n <= |key|
    ensures key[..n] + key[n..] == key
  {}

  lemma AtTheEnd(y: Layout, i: nat)
    requires Laid(y) && i <= |y.pairs| && y.offs[i] >= |y.data|
    ensures i == |y.pairs|
  {
    OffsetsGrow(y, i, |y.pairs|);
  }

  lemma ThreeParts(a: seq<Byte>, b: seq<Byte>, c: seq<Byte>, s: seq<Byte>)
    requires s == a + b + c
    ensures s[..|a|] == a && s[|a|..|a| + |b|] == b
  {}

  /** What stands at the offset of pair `i`. */
  lemma EntryRead(y: Layout, i: nat)
    requires Laid(y) && i <= |y.pairs| && y.offs[i] < |y.data|
    ensures i < |y.pairs| && y.offs[i] < y.offs[i + 1] <= |y.data|
    ensures y.shared[i] <= |y.pairs[i].key|
    ensures match ParseEntry(Contents(y)[y.offs[i]..|y.data|])
            case Missing => false
            case Got(h, rest) =>
              && h == Header(y.shared[i], |y.pairs[i].key| - y.shared[i], |y.pairs[i].value|)
              && |rest| <= |y.data| && |y.data| - |rest| + h.nonShared + h.valueLength == y.offs[i + 1]
              && h.nonShared <= |rest| && rest[..h.nonShared] == y.pairs[i].key[y.shared[i]..]
              && h.nonShared + h.valueLength <= |rest|
              && rest[h.nonShared..h.nonShared + h.valueLength] == y.pairs[i].value
              && rest == Contents(y)[|y.data| - |rest|..|y.data|]
  {
    var p, from, to := y.pairs[i], y.offs[i], y.offs[i + 1];
    assert EntryAt(y, i);
    OffsetsGrow(y, i + 1, |y.pairs|);
    var tail := y.data[to..];
    var s := Contents(y)[from..|y.data|];
    assert s == y.data[from..to] + tail;
    EntryParses(y.shared[i], p, tail);
    var rest := p.key[y.shared[i]..] + p.value + tail;
    var h := Header(y.shared[i], |p.key| - y.shared[i], |p.value|);
    RestIsSuffix(s, h, rest);
    ThreeParts(p.key[y.shared[i]..], p.value, tail, rest);
  }

  /** What decoding the entry of pair `i` tells, and where its parts stand. */
  lemma EntryStands(y: Layout, i: nat, ok: bool, h: Header, p: nat)
    requires Laid(y) && i <= |y.pairs| && y.offs[i] < |y.data| <= |Contents(y)|
    requires match ParseEntry(Contents(y)[y.offs[i]..|y.data|])
             case Missing => !ok
             case Got(header, rest) => ok && h == header && p <= |y.data| && rest == Contents(y)[p..|y.data|]
    ensures i < |y.pairs| && ok && h.shared == y.shared[i] && p + h.nonShared + h.valueLength == y.offs[i + 1] <= |y.data|
    ensures y.shared[i] <= |y.pairs[i].key| && Contents(y)[p..p + h.nonShared] == y.pairs[i].key[y.shared[i]..]
    ensures Contents(y)[p + h.nonShared..p + h.nonShared + h.valueLength] == y.pairs[i].value
  {
    EntryRead(y, i);
    SliceTwice(Contents(y), p, |y.data|, 0, h.nonShared);
    SliceTwice(Contents(y), p, |y.data|, h.nonShared, h.nonShared + h.valueLength);
  }

  lemma RestartRead(y: Layout, r: nat)
    requires Laid(y) && r < |y.points|
    ensures |Contents(y)| >= |y.data| + 4 * r + 4
    ensures y.points[r] <= |y.pairs|
    ensures DecodeFixed32(Contents(y)[|y.data| + 4 * r..]) == y.offs[y.points[r]]
  {
    OffsetsGrow(y, y.points[r], |y.pairs|);
    var tail := EncodeFixed32(|y.points|);
    Fixed32At(Restarts(y), r, tail);
    assert Contents(y)[|y.data| + 4 * r..] == (Fixed32s(Restarts(y)) + tail)[4 * r..];
  }

  lemma CountRead(y: Layout)
    requires Laid(y)
    ensures var c := Contents(y); |c| == |y.data| + 4 * |y.points| + 4 && DecodeFixed32(c[|c| - 4..]) == |y.points|
  {
    var c := Contents(y);
    assert c[|c| - 4..] == EncodeFixed32(|y.points|) + [];
    Fixed32RoundTrip(|y.points|, []);
  }

  /** There is one answer to a seek. */
  lemma FirstUnique(pairs: seq<Pair>, order: Order, target: seq<Byte>, i: nat, j: nat)
    requires FirstAtOrAfter(pairs, order, target, i) && FirstAtOrAfter(pairs, order, target, j)
    ensures i == j
  {}

  method Build(pairs: seq<Pair>, interval: nat) returns (block: seq<Byte>, ghost y: Layout)
    requires interval >= 1 && Encoded(pairs) < 0x1_0000_0000
    ensures Laid(y) && y.pairs == pairs && block == Contents(y)
  {
    var builder := new BlockBuilder(interval);
    for k := 0 to |pairs|
      invariant builder.Valid() == true && fresh(builder) && builder.y.pairs == pairs[..k]
      invariant builder.CurrentSizeEstimate() + 0x1f8 <= Encoded(pairs[..k])
    {
      OneMorePair(pairs, k);
      builder.Add(pairs[k].key, pairs[k].value);
    }
    block := builder.Finish();
    y := builder.y;
    assert pairs[..|pairs|] == pairs;
  }

  lemma OneMorePair(pairs: seq<Pair>, k: nat)
    requires k < |pairs|
    ensures pairs[..k + 1] == pairs[..k] + [Pair(pairs[k].key, pairs[k].value)]
    ensures Encoded(pairs[..k + 1]) == Encoded(pairs[..k]) + |pairs[k].key| + |pairs[k].value| + 19 <= Encoded(pairs)
  {
    assert pairs[..|pairs|] == pairs && pairs[..k + 1][..k] == pairs[..k];
    EncodedGrows(pairs, k + 1, |pairs|);
  }

  method Iterate(block: seq<Byte>, order: Order, ghost y: Layout) returns (back: seq<Pair>)
    requires Laid(y) && block == Contents(y)
    ensures back == y.pairs
  {
    var it := new BlockIter(order, block, y);
    it.SeekToFirst();
    back := [];
    ghost var i: nat := 0;
    while it.Valid()
      invariant it.Ok() == true && fresh(it) && it.y == y && i <= |y.pairs| && it.On(i) == true && back == y.pairs[..i]
      decreases |y.pairs| - i
    {
      OffsetOrder(y, |y.pairs|, i);
      back := back + [Pair(it.key, it.contents[it.valueAt..it.valueAt + it.valueSize])];
      it.Next(i);
      i := i + 1;
    }
    AtTheEnd(y, i);
  }

  /** Add pairs, finish the block, and iterate over it: the same pairs come back. */
  method BuildAndIterate(pairs: seq<Pair>, interval: nat, order: Order) returns (back: seq<Pair>)
    requires interval >= 1 && Encoded(pairs) < 0x1_0000_0000
    ensures back == pairs
  {
    ghost var y;
    var block;
    block, y := Build(pairs, interval);
    back := Iterate(block, order, y);
  }

  /** An upper bound on what pairs take in a block. */
  function Encoded(pairs: seq<Pair>): nat {
    if pairs == [] then 0x200
    else Encoded(pairs[..|pairs| - 1]) + |pairs[|pairs| - 1].key| + |pairs[|pairs| - 1].value| + 19
  }

  lemma {:induction false} EncodedGrows(pairs: seq<Pair>, k: nat, n: nat)
    requires k <= n <= |pairs|
    ensures Encoded(pairs[..k]) <= Encoded(pairs[..n])
  {
    if k < n {
      assert pairs[..n][..n - 1] == pairs[..n - 1];
      EncodedGrows(pairs, k, n - 1);
    }
  }
}
