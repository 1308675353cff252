/** Which bytes are refused as a version edit (db/version_edit DecodeFrom). */
module EditRefusals {
  import opened Options
  import opened Coding
  import opened VersionEdits

  ghost predicate AllEncodable(items: seq<Item>) {
    forall i :: i in items ==> Encodable(i)
  }

  // ---- What is cut short cannot be read ----

  lemma {:induction false} VarintCut(v: nat, k: nat, n: nat)
    requires k < |EncodeVarint(v)|
    ensures GetVarint(EncodeVarint(v)[..k], n) == Missing
  {
    if k > 0 && n > 0 {
      VarintCut(v / 128, k - 1, n - 1);
      assert EncodeVarint(v)[..k][1..] == EncodeVarint(v / 128)[..k - 1];
    }
  }

  lemma CutOf(x: seq<Byte>, y: seq<Byte>, k: nat)
    requires k <= |x + y|
    ensures (x + y)[..k] == if k < |x| then x[..k] else x + y[..k - |x|]
  {}

  lemma PrefixedCut(b: seq<Byte>, k: nat)
    requires Short(b) && k < |PutLengthPrefixed(b)|
    ensures GetLengthPrefixed(PutLengthPrefixed(b)[..k]) == Missing
  {
    var len := EncodeVarint(|b|);
    CutOf(len, b, k);
    if k < |len| {
      VarintCut(|b|, k, 5);
    } else {
      Varint32RoundTrip(|b|, b[..k - |len|]);
    }
  }

  lemma LevelCut(level: nat, y: seq<Byte>, k: nat)
    requires level < NUM_LEVELS && k <= |EncodeVarint(level) + y|
    ensures GetLevel((EncodeVarint(level) + y)[..k])
            == if k < |EncodeVarint(level)| then Missing else Got(level, y[..k - |EncodeVarint(level)|])
  {
    var x := EncodeVarint(level);
    CutOf(x, y, k);
    if k < |x| {
      VarintCut(level, k, 5);
    } else {
      LevelRead(level, y[..k - |x|]);
    }
  }

  lemma NumberCut(n: Word64, y: seq<Byte>, k: nat)
    requires k <= |EncodeVarint(n) + y|
    ensures GetVarint64((EncodeVarint(n) + y)[..k])
            == if k < |EncodeVarint(n)| then Missing else Got(n, y[..k - |EncodeVarint(n)|])
  {
    var x := EncodeVarint(n);
    CutOf(x, y, k);
    if k < |x| {
      VarintCut(n, k, 10);
    } else {
      Varint64RoundTrip(n, y[..k - |x|]);
    }
  }

  lemma StringCut(b: seq<Byte>, y: seq<Byte>, k: nat)
    requires Short(b) && k <= |PutLengthPrefixed(b) + y|
    ensures GetLengthPrefixed((PutLengthPrefixed(b) + y)[..k])
            == if k < |PutLengthPrefixed(b)| then Missing else Got(b, y[..k - |PutLengthPrefixed(b)|])
  {
    var x := PutLengthPrefixed(b);
    CutOf(x, y, k);
    if k < |x| {
      PrefixedCut(b, k);
    } else {
      LengthPrefixedRead(b, y[..k - |x|]);
    }
  }

  lemma AddedCut(level: nat, f: File, k: nat)
    requires Encodable(Added(level, f)) && k < |BodyOf(Added(level, f))|
    ensures ParseAdded(BodyOf(Added(level, f))[..k]) == Missing
  {
    var a, b, c := EncodeVarint(level), EncodeVarint(f.number), EncodeVarint(f.size);
    var d, e := PutLengthPrefixed(f.smallest), PutLengthPrefixed(f.largest);
    LevelCut(level, b + (c + (d + e)), k);
    if k >= |a| {
      NumberCut(f.number, c + (d + e), k - |a|);
      if k - |a| >= |b| {
        NumberCut(f.size, d + e, k - |a| - |b|);
        if k - |a| - |b| >= |c| {
          StringCut(f.smallest, e, k - |a| - |b| - |c|);
          if k - |a| - |b| - |c| >= |d| {
            PrefixedCut(f.largest, k - |a| - |b| - |c| - |d|);
          }
        }
      }
    }
  }

  lemma LastNumberCut(n: Word64, k: nat)
    requires k < |EncodeVarint(n)|
    ensures GetVarint64(EncodeVarint(n)[..k]) == Missing
  {
    VarintCut(n, k, 10);
  }

  lemma BodyCut(i: Item, k: nat)
    requires Encodable(i) && k < |BodyOf(i)|
    ensures ParseBody(TagOf(i), BodyOf(i)[..k]).Bad?
  {
    match i
    case Comparator(name) => PrefixedCut(name, k);
    case LogNumber(n) => LastNumberCut(n, k);
    case PrevLogNumber(n) => LastNumberCut(n, k);
    case NextFileNumber(n) => LastNumberCut(n, k);
    case LastSequence(n) => LastNumberCut(n, k);
    case Pointer(level, key) =>
      LevelCut(level, PutLengthPrefixed(key), k);
      if k >= |EncodeVarint(level)| { PrefixedCut(key, k - |EncodeVarint(level)|); }
    case Deleted(level, number) =>
      LevelCut(level, EncodeVarint(number), k);
      if k >= |EncodeVarint(level)| { LastNumberCut(number, k - |EncodeVarint(level)|); }
    case Added(level, f) => AddedCut(level, f, k);
  }

  lemma ItemCut(i: Item, k: nat)
    requires Encodable(i) && 0 < k < |EncodeItem(i)|
    ensures ParseItem(EncodeItem(i)[..k]).Some? && ParseItem(EncodeItem(i)[..k]).value.Bad?
  {
    var tag := EncodeVarint(TagOf(i));
    assert tag == [TagOf(i)];
    CutOf(tag, BodyOf(i), k);
    Varint32RoundTrip(TagOf(i), BodyOf(i)[..k - 1]);
    BodyCut(i, k - 1);
  }

  /** The first `k` bytes of an edit hold `n` items whole: those are taken in, and the edit is refused if there is more. */
  ghost predicate CutAfter(e: Edit, items: seq<Item>, k: nat, n: nat) {
    && n <= |items| && |EncodeAll(items[..n])| <= k <= |EncodeAll(items)|
    && (n < |items| ==> k < |EncodeAll(items[..n + 1])|)
    && Decode(e, EncodeAll(items)[..k]).0 == ApplyAll(e, items[..n])
    && (Decode(e, EncodeAll(items)[..k]).1 == None <==> k == |EncodeAll(items[..n])|)
  }

  lemma FewerEncodable(items: seq<Item>, m: nat)
    requires AllEncodable(items) && m <= |items|
    ensures AllEncodable(items[..m]) == true
  {}

  lemma CutBefore(e: Edit, items: seq<Item>, k: nat, n: nat)
    requires items != [] && k < |EncodeAll(items[..|items| - 1])| && CutAfter(e, items[..|items| - 1], k, n)
    ensures CutAfter(e, items, k, n) == true
  {
    var before := items[..|items| - 1];
    assert before[..|before|] == before && n < |before|;
    assert before[..n] == items[..n] && before[..n + 1] == items[..n + 1];
    CutOf(EncodeAll(before), EncodeItem(items[|items| - 1]), k);
  }

  /** What is left of the last item is nothing, or cannot be read. */
  lemma RestOfItem(e: Edit, i: Item, j: nat)
    requires Encodable(i) && j < |EncodeItem(i)|
    ensures Decode(e, EncodeItem(i)[..j]).0 == e && (Decode(e, EncodeItem(i)[..j]).1 == None <==> j == 0)
  {
    if j > 0 {
      ItemCut(i, j);
    }
  }

  lemma CutWithin(e: Edit, items: seq<Item>, j: nat, before: seq<Item>, k: nat)
    requires items != [] && AllEncodable(items) && j < |EncodeItem(items[|items| - 1])|
    requires before == items[..|items| - 1] && k == |EncodeAll(before)| + j
    ensures CutAfter(e, items, k, |items| - 1)
  {
    var m := |items| - 1;
    var last := EncodeItem(items[m]);
    assert items[..m + 1] == items && EncodeAll(items) == EncodeAll(before) + last;
    CutOf(EncodeAll(before), last, k);
    DecodeItems(e, before, last[..j]);
    RestOfItem(ApplyAll(e, before), items[m], j);
  }

  lemma CutNowhere(e: Edit, items: seq<Item>)
    requires AllEncodable(items)
    ensures CutAfter(e, items, |EncodeAll(items)|, |items|)
  {
    var s := EncodeAll(items);
    assert items[..|items|] == items && s[..|s|] == s && s + [] == s;
    DecodeItems(e, items, []);
  }

  /** An edit cut short anywhere is refused, unless the cut is between two items; what comes before the item that is cut
      has then been taken in. */
  lemma {:induction false} EditCut(e: Edit, items: seq<Item>, k: nat) returns (n: nat)
    requires AllEncodable(items) == true && k <= |EncodeAll(items)|
    ensures CutAfter(e, items, k, n) == true
    decreases |items|
  {
    var m := |items| - 1;
    if k == |EncodeAll(items)| {
      n := |items|;
      CutNowhere(e, items);
    } else if k < |EncodeAll(items[..m])| {
      FewerEncodable(items, m);
      n := EditCut(e, items[..m], k);
      CutBefore(e, items, k, n);
    } else {
      n := m;
      CutWithin(e, items, k - |EncodeAll(items[..m])|, items[..m], k);
    }
  }

  // ---- What no edit holds ----

  /** A tag that is not one of the eight is refused. */
  lemma UnknownTag(e: Edit, items: seq<Item>, tag: Word, tail: seq<Byte>)
    requires AllEncodable(items) && tag !in {1, 2, 3, 4, 5, 6, 7, 9}
    ensures Decode(e, EncodeAll(items) + (EncodeVarint(tag) + tail)) == (ApplyAll(e, items), Some("unknown tag"))
  {
    DecodeItems(e, items, EncodeVarint(tag) + tail);
    Varint32RoundTrip(tag, tail);
  }

  lemma LevelTaken(level: Word, tail: seq<Byte>)
    ensures GetLevel(EncodeVarint(level) + tail) == if level < NUM_LEVELS then Got(level, tail) else Missing
  {
    Varint32RoundTrip(level, tail);
  }

  /** A level that is none of the seven is refused. */
  lemma UnknownLevel(e: Edit, items: seq<Item>, tag: Byte, level: Word, tail: seq<Byte>)
    requires AllEncodable(items) && tag in {5, 6, 7} && level >= NUM_LEVELS
    ensures Decode(e, EncodeAll(items) + (EncodeVarint(tag) + (EncodeVarint(level) + tail)))
            == (ApplyAll(e, items),
                Some(if tag == 5 then "compaction pointer" else if tag == 6 then "deleted file" else "new-file entry"))
  {
    DecodeItems(e, items, EncodeVarint(tag) + (EncodeVarint(level) + tail));
    Varint32RoundTrip(tag, EncodeVarint(level) + tail);
    LevelTaken(level, tail);
  }
}
