/** The wire form of a version edit, as kept in the manifest (db/version_edit). */
module VersionEdits {
  import opened Options
  import opened Coding

  const NUM_LEVELS: nat := 7

  datatype File = File(number: Word64, size: Word64, smallest: seq<Byte>, largest: seq<Byte>)

  /** Fields not set are absent.  `deleted` is a set, as in the source. */
  datatype Edit = Edit(
    comparator: Option<seq<Byte>>,
    logNumber: Option<Word64>,
    prevLogNumber: Option<Word64>,
    nextFileNumber: Option<Word64>,
    lastSequence: Option<Word64>,
    pointers: seq<(nat, seq<Byte>)>,
    deleted: set<(nat, Word64)>,
    added: seq<(nat, File)>)

  /** What one tag introduces. */
  datatype Item =
    | Comparator(name: seq<Byte>)
    | LogNumber(n: Word64)
    | PrevLogNumber(n: Word64)
    | NextFileNumber(n: Word64)
    | LastSequence(n: Word64)
    | Pointer(level: nat, key: seq<Byte>)
    | Deleted(level: nat, number: Word64)
    | Added(level: nat, file: File)

  predicate Short(s: seq<Byte>) {
    |s| < 0x1_0000_0000
  }

  predicate Encodable(i: Item) {
    match i
    case Comparator(name) => Short(name)
    case Pointer(level, key) => level < NUM_LEVELS && Short(key)
    case Deleted(level, _) => level < NUM_LEVELS
    case Added(level, f) => level < NUM_LEVELS && Short(f.smallest) && Short(f.largest)
    case _ => true
  }

  function TagOf(i: Item): (t: Byte)
    ensures t < 128
  {
    match i
    case Comparator(_) => 1
    case LogNumber(_) => 2
    case NextFileNumber(_) => 3
    case LastSequence(_) => 4
    case Pointer(_, _) => 5
    case Deleted(_, _) => 6
    case Added(_, _) => 7
    case PrevLogNumber(_) => 9
  }

  function BodyOf(i: Item): seq<Byte> {
    match i
    case Comparator(name) => PutLengthPrefixed(name)
    case LogNumber(n) => EncodeVarint(n)
    case NextFileNumber(n) => EncodeVarint(n)
    case LastSequence(n) => EncodeVarint(n)
    case Pointer(level, key) => EncodeVarint(level) + PutLengthPrefixed(key)
    case Deleted(level, number) => EncodeVarint(level) + EncodeVarint(number)
    case Added(level, f) =>
      EncodeVarint(level)
      + (EncodeVarint(f.number) + (EncodeVarint(f.size) + (PutLengthPrefixed(f.smallest) + PutLengthPrefixed(f.largest))))
    case PrevLogNumber(n) => EncodeVarint(n)
  }

  function EncodeItem(i: Item): seq<Byte> {
    EncodeVarint(TagOf(i)) + BodyOf(i)
  }

  // ---- Reading one item ----

  datatype Parsed = Bad(message: string) | Good(item: Item, rest: seq<Byte>)

  function GetLevel(s: seq<Byte>): (r: Got<nat>)
    ensures r.Got? ==> |r.rest| < |s|
  {
    match GetVarint32(s)
    case Missing => Missing
    case Got(v, rest) => if v < NUM_LEVELS then Got(v, rest) else Missing
  }

  function ParseAdded(s: seq<Byte>): (r: Got<(nat, File)>)
    ensures r.Got? ==> |r.rest| < |s|
  {
    match GetLevel(s)
    case Missing => Missing
    case Got(level, s1) =>
      match GetVarint64(s1)
      case Missing => Missing
      case Got(number, s2) =>
        match GetVarint64(s2)
        case Missing => Missing
        case Got(size, s3) =>
          match GetLengthPrefixed(s3)
          case Missing => Missing
          case Got(smallest, s4) =>
            match GetLengthPrefixed(s4)
            case Missing => Missing
            case Got(largest, s5) => Got((level, File(number, size, smallest, largest)), s5)
  }

  /** The rest of an item, after its tag (version_edit.cc:121-193). */
  function ParseBody(tag: Word, s: seq<Byte>): (r: Parsed)
    ensures r.Good? ==> |r.rest| < |s|
  {
    if tag == 1 then
      match GetLengthPrefixed(s) case Missing => Bad("comparator name") case Got(name, rest) => Good(Comparator(name), rest)
    else if tag == 2 then
      match GetVarint64(s) case Missing => Bad("log number") case Got(n, rest) => Good(LogNumber(n), rest)
    else if tag == 9 then
      match GetVarint64(s) case Missing => Bad("previous log number") case Got(n, rest) => Good(PrevLogNumber(n), rest)
    else if tag == 3 then
      match GetVarint64(s) case Missing => Bad("next file number") case Got(n, rest) => Good(NextFileNumber(n), rest)
    else if tag == 4 then
      match GetVarint64(s) case Missing => Bad("last sequence number") case Got(n, rest) => Good(LastSequence(n), rest)
    else if tag == 5 then
      match GetLevel(s)
      case Missing => Bad("compaction pointer")
      case Got(level, s1) =>
        match GetLengthPrefixed(s1) case Missing => Bad("compaction pointer") case Got(key, rest) => Good(Pointer(level, key), rest)
    else if tag == 6 then
      match GetLevel(s)
      case Missing => Bad("deleted file")
      case Got(level, s1) =>
        match GetVarint64(s1) case Missing => Bad("deleted file") case Got(n, rest) => Good(Deleted(level, n), rest)
    else if tag == 7 then
      match ParseAdded(s) case Missing => Bad("new-file entry") case Got(a, rest) => Good(Added(a.0, a.1), rest)
    else Bad("unknown tag")
  }

  lemma LevelRead(level: nat, tail: seq<Byte>)
    requires level < NUM_LEVELS
    ensures GetLevel(EncodeVarint(level) + tail) == Got(level, tail)
  {
    Varint32RoundTrip(level, tail);
  }

  lemma AddedRead(level: nat, f: File, tail: seq<Byte>)
    requires level < NUM_LEVELS && Short(f.smallest) && Short(f.largest)
    ensures ParseAdded(EncodeVarint(level) + (EncodeVarint(f.number) + (EncodeVarint(f.size)
                       + (PutLengthPrefixed(f.smallest) + (PutLengthPrefixed(f.largest) + tail)))))
            == Got((level, f), tail)
  {
    var s4 := PutLengthPrefixed(f.largest) + tail;
    var s3 := PutLengthPrefixed(f.smallest) + s4;
    var s2 := EncodeVarint(f.size) + s3;
    var s1 := EncodeVarint(f.number) + s2;
    LengthPrefixedRead(f.largest, tail);
    LengthPrefixedRead(f.smallest, s4);
    Varint64RoundTrip(f.size, s3);
    Varint64RoundTrip(f.number, s2);
    LevelRead(level, s1);
    ParseAddedSteps(EncodeVarint(level) + s1, level, s1, f, s2, s3, s4, tail);
  }

  lemma ParseAddedSteps(s: seq<Byte>, level: nat, s1: seq<Byte>, f: File, s2: seq<Byte>, s3: seq<Byte>, s4: seq<Byte>,
                        s5: seq<Byte>)
    requires GetLevel(s) == Got(level, s1) && GetVarint64(s1) == Got(f.number, s2) && GetVarint64(s2) == Got(f.size, s3)
    requires GetLengthPrefixed(s3) == Got(f.smallest, s4) && GetLengthPrefixed(s4) == Got(f.largest, s5)
    ensures ParseAdded(s) == Got((level, f), s5)
  {}

  lemma Regroup2(a: seq<Byte>, b: seq<Byte>, tail: seq<Byte>)
    ensures (a + b) + tail == a + (b + tail)
  {}

  lemma Regroup5(a: seq<Byte>, b: seq<Byte>, c: seq<Byte>, d: seq<Byte>, e: seq<Byte>, tail: seq<Byte>)
    ensures (a + (b + (c + (d + e)))) + tail == a + (b + (c + (d + (e + tail))))
  {}

  lemma NumberRead(i: Item, n: Word64, tail: seq<Byte>)
    requires i == LogNumber(n) || i == PrevLogNumber(n) || i == NextFileNumber(n) || i == LastSequence(n)
    ensures ParseBody(TagOf(i), BodyOf(i) + tail) == Good(i, tail)
  {
    Varint64RoundTrip(n, tail);
  }

  lemma PointerRead(level: nat, key: seq<Byte>, tail: seq<Byte>)
    requires level < NUM_LEVELS && Short(key)
    ensures ParseBody(5, EncodeVarint(level) + PutLengthPrefixed(key) + tail) == Good(Pointer(level, key), tail)
  {
    Regroup2(EncodeVarint(level), PutLengthPrefixed(key), tail);
    LevelRead(level, PutLengthPrefixed(key) + tail);
    LengthPrefixedRead(key, tail);
  }

  lemma DeletedRead(level: nat, number: Word64, tail: seq<Byte>)
    requires level < NUM_LEVELS
    ensures ParseBody(6, EncodeVarint(level) + EncodeVarint(number) + tail) == Good(Deleted(level, number), tail)
  {
    Regroup2(EncodeVarint(level), EncodeVarint(number), tail);
    LevelRead(level, EncodeVarint(number) + tail);
    Varint64RoundTrip(number, tail);
  }

  lemma NewFileParsed(s: seq<Byte>, level: nat, f: File, tail: seq<Byte>)
    requires ParseAdded(s) == Got((level, f), tail)
    ensures ParseBody(7, s) == Good(Added(level, f), tail)
  {}

  lemma NewFileBody(level: nat, f: File, tail: seq<Byte>)
    ensures BodyOf(Added(level, f)) + tail ==
            EncodeVarint(level) + (EncodeVarint(f.number) + (EncodeVarint(f.size)
            + (PutLengthPrefixed(f.smallest) + (PutLengthPrefixed(f.largest) + tail))))
  {
    Regroup5(EncodeVarint(level), EncodeVarint(f.number), EncodeVarint(f.size), PutLengthPrefixed(f.smallest),
             PutLengthPrefixed(f.largest), tail);
  }

  lemma NewFileRead(level: nat, f: File, tail: seq<Byte>)
    requires Encodable(Added(level, f))
    ensures ParseBody(7, BodyOf(Added(level, f)) + tail) == Good(Added(level, f), tail)
  {
    NewFileBody(level, f, tail);
    AddedRead(level, f, tail);
    NewFileParsed(BodyOf(Added(level, f)) + tail, level, f, tail);
  }

  lemma BodyRead(i: Item, tail: seq<Byte>)
    requires Encodable(i)
    ensures ParseBody(TagOf(i), BodyOf(i) + tail) == Good(i, tail)
  {
    match i
    case Comparator(name) => LengthPrefixedRead(name, tail);
    case LogNumber(n) => NumberRead(i, n, tail);
    case PrevLogNumber(n) => NumberRead(i, n, tail);
    case NextFileNumber(n) => NumberRead(i, n, tail);
    case LastSequence(n) => NumberRead(i, n, tail);
    case Pointer(level, key) => PointerRead(level, key, tail);
    case Deleted(level, number) => DeletedRead(level, number, tail);
    case Added(level, f) => NewFileRead(level, f, tail);
  }

  /** Read a tag and what it introduces; nothing if there is not even a tag. */
  function ParseItem(s: seq<Byte>): (r: Option<Parsed>)
    ensures r.Some? && r.value.Good? ==> |r.value.rest| < |s|
  {
    match GetVarint32(s)
    case Missing => None
    case Got(tag, rest) => Some(ParseBody(tag, rest))
  }

  lemma ItemRoundTrip(i: Item, tail: seq<Byte>)
    requires Encodable(i)
    ensures ParseItem(EncodeItem(i) + tail) == Some(Good(i, tail))
  {
    Regroup2(EncodeVarint(TagOf(i)), BodyOf(i), tail);
    Varint32RoundTrip(TagOf(i), BodyOf(i) + tail);
    BodyRead(i, tail);
  }

  // ---- Whole edits ----

  function Apply(e: Edit, i: Item): Edit {
    match i
    case Comparator(name) => e.(comparator := Some(name))
    case LogNumber(n) => e.(logNumber := Some(n))
    case PrevLogNumber(n) => e.(prevLogNumber := Some(n))
    case NextFileNumber(n) => e.(nextFileNumber := Some(n))
    case LastSequence(n) => e.(lastSequence := Some(n))
    case Pointer(level, key) => e.(pointers := e.pointers + [(level, key)])
    case Deleted(level, number) => e.(deleted := e.deleted + {(level, number)})
    case Added(level, f) => e.(added := e.added + [(level, f)])
  }

  function ApplyAll(e: Edit, items: seq<Item>): Edit {
    if items == [] then e else Apply(ApplyAll(e, items[..|items| - 1]), items[|items| - 1])
  }

  function EncodeAll(items: seq<Item>): seq<Byte> {
    if items == [] then [] else EncodeAll(items[..|items| - 1]) + EncodeItem(items[|items| - 1])
  }

  /** Decode into an edit that already holds something (version_edit.cc:120-204). */
  function Decode(e: Edit, s: seq<Byte>): (Edit, Option<string>)
    decreases |s|
  {
    match ParseItem(s)
    case None => (e, if s == [] then None else Some("invalid tag"))
    case Some(Bad(message)) => (e, Some(message))
    case Some(Good(i, rest)) => Decode(Apply(e, i), rest)
  }

  lemma {:induction false} DecodeItems(e: Edit, items: seq<Item>, tail: seq<Byte>)
    requires forall i :: i in items ==> Encodable(i)
    ensures Decode(e, EncodeAll(items) + tail) == Decode(ApplyAll(e, items), tail)
    decreases |items|
  {
    if items == [] {
      assert EncodeAll(items) + tail == tail;
    } else {
      var n := |items| - 1;
      var last := EncodeItem(items[n]);
      DecodeItems(e, items[..n], last + tail);
      assert EncodeAll(items) + tail == EncodeAll(items[..n]) + (last + tail);
      DecodeOne(ApplyAll(e, items[..n]), items[n], tail);
    }
  }

  lemma DecodeOne(e: Edit, i: Item, tail: seq<Byte>)
    requires Encodable(i)
    ensures Decode(e, EncodeItem(i) + tail) == Decode(Apply(e, i), tail)
  {
    ItemRoundTrip(i, tail);
  }

  function ComparatorItem(e: Edit): seq<Item> {
    if e.comparator.Some? then [Comparator(e.comparator.value)] else []
  }

  function LogNumberItem(e: Edit): seq<Item> {
    if e.logNumber.Some? then [LogNumber(e.logNumber.value)] else []
  }

  function PrevLogNumberItem(e: Edit): seq<Item> {
    if e.prevLogNumber.Some? then [PrevLogNumber(e.prevLogNumber.value)] else []
  }

  function NextFileNumberItem(e: Edit): seq<Item> {
    if e.nextFileNumber.Some? then [NextFileNumber(e.nextFileNumber.value)] else []
  }

  function LastSequenceItem(e: Edit): seq<Item> {
    if e.lastSequence.Some? then [LastSequence(e.lastSequence.value)] else []
  }

  /** What EncodeTo writes, in order; `order` is the order in which the set of deleted files is walked. */
  function Items(e: Edit, order: seq<(nat, Word64)>): seq<Item> {
    Header(e) + Pointers(e.pointers) + Deletions(order) + Additions(e.added)
  }

  function Header(e: Edit): seq<Item> {
    ComparatorItem(e) + LogNumberItem(e) + PrevLogNumberItem(e) + NextFileNumberItem(e) + LastSequenceItem(e)
  }

  /** What Clear leaves of an edit: its compaction pointers. */
  function Cleared(e: Edit): Edit {
    Edit(None, None, None, None, None, e.pointers, {}, [])
  }

  lemma {:induction false} ApplyAppend(e: Edit, a: seq<Item>, b: seq<Item>)
    ensures ApplyAll(e, a + b) == ApplyAll(ApplyAll(e, a), b)
  {
    if b == [] {
      assert a + b == a;
    } else {
      var n := |b| - 1;
      ApplyAppend(e, a, b[..n]);
      assert (a + b)[..|a + b| - 1] == a + b[..n];
    }
  }

  lemma ApplyHeader(e: Edit, base: Edit)
    requires base == Cleared(base)
    ensures ApplyAll(base, Header(e))
            == Edit(e.comparator, e.logNumber, e.prevLogNumber, e.nextFileNumber, e.lastSequence, base.pointers, {}, [])
  {
    var a, b, c, d, f :=
      ComparatorItem(e), LogNumberItem(e), PrevLogNumberItem(e), NextFileNumberItem(e), LastSequenceItem(e);
    ApplyFive(base, a, b, c, d, f);
    ApplyOne(base, a);
    var e1 := base.(comparator := e.comparator);
    ApplyOne(e1, b);
    var e2 := e1.(logNumber := e.logNumber);
    ApplyOne(e2, c);
    var e3 := e2.(prevLogNumber := e.prevLogNumber);
    ApplyOne(e3, d);
    var e4 := e3.(nextFileNumber := e.nextFileNumber);
    ApplyOne(e4, f);
  }

  lemma ApplyFive(e: Edit, a: seq<Item>, b: seq<Item>, c: seq<Item>, d: seq<Item>, f: seq<Item>)
    ensures ApplyAll(e, a + b + c + d + f) == ApplyAll(ApplyAll(ApplyAll(ApplyAll(ApplyAll(e, a), b), c), d), f)
  {
    ApplyAppend(e, a + b + c + d, f);
    ApplyAppend(e, a + b + c, d);
    ApplyAppend(e, a + b, c);
    ApplyAppend(e, a, b);
  }

  lemma ApplyOne(e: Edit, items: seq<Item>)
    requires |items| <= 1
    ensures ApplyAll(e, items) == if items == [] then e else Apply(e, items[0])
  {
    if items != [] { assert items[..0] == []; }
  }

  function Pointers(ps: seq<(nat, seq<Byte>)>): (r: seq<Item>)
    ensures |r| == |ps| && forall i :: 0 <= i < |r| ==> r[i] == Pointer(ps[i].0, ps[i].1)
  {
    seq(|ps|, i requires 0 <= i < |ps| => Pointer(ps[i].0, ps[i].1))
  }

  function Deletions(ds: seq<(nat, Word64)>): (r: seq<Item>)
    ensures |r| == |ds| && forall i :: 0 <= i < |r| ==> r[i] == Deleted(ds[i].0, ds[i].1)
  {
    seq(|ds|, i requires 0 <= i < |ds| => Deleted(ds[i].0, ds[i].1))
  }

  function Additions(fs: seq<(nat, File)>): (r: seq<Item>)
    ensures |r| == |fs| && forall i :: 0 <= i < |r| ==> r[i] == Added(fs[i].0, fs[i].1)
  {
    seq(|fs|, i requires 0 <= i < |fs| => Added(fs[i].0, fs[i].1))
  }

  lemma {:induction false} ApplyPointers(e: Edit, ps: seq<(nat, seq<Byte>)>)
    ensures ApplyAll(e, Pointers(ps)) == e.(pointers := e.pointers + ps)
  {
    if ps == [] {
      assert e.pointers + ps == e.pointers;
    } else {
      var n := |ps| - 1;
      ApplyPointers(e, ps[..n]);
      assert Pointers(ps)[..n] == Pointers(ps[..n]);
      assert (e.pointers + ps[..n]) + [(ps[n].0, ps[n].1)] == e.pointers + ps;
    }
  }

  lemma {:induction false} ApplyDeletions(e: Edit, ds: seq<(nat, Word64)>)
    ensures ApplyAll(e, Deletions(ds)) == e.(deleted := e.deleted + set d | d in ds)
  {
    if ds == [] {
      assert e.deleted + (set d | d in ds) == e.deleted;
    } else {
      var n := |ds| - 1;
      ApplyDeletions(e, ds[..n]);
      assert Deletions(ds)[..n] == Deletions(ds[..n]);
      assert ds == ds[..n] + [ds[n]];
      assert (set d | d in ds) == (set d | d in ds[..n]) + {(ds[n].0, ds[n].1)};
    }
  }

  lemma {:induction false} ApplyAdditions(e: Edit, fs: seq<(nat, File)>)
    ensures ApplyAll(e, Additions(fs)) == e.(added := e.added + fs)
  {
    if fs == [] {
      assert e.added + fs == e.added;
    } else {
      var n := |fs| - 1;
      ApplyAdditions(e, fs[..n]);
      assert Additions(fs)[..n] == Additions(fs[..n]);
      assert (e.added + fs[..n]) + [(fs[n].0, fs[n].1)] == e.added + fs;
    }
  }

  ghost predicate Enumerates(order: seq<(nat, Word64)>, s: set<(nat, Word64)>) {
    forall d :: d in order <==> d in s
  }

  ghost predicate EncodableEdit(e: Edit) {
    && (e.comparator.Some? ==> Short(e.comparator.value))
    && (forall p :: p in e.pointers ==> p.0 < NUM_LEVELS && Short(p.1))
    && (forall d :: d in e.deleted ==> d.0 < NUM_LEVELS)
    && (forall a :: a in e.added ==> a.0 < NUM_LEVELS && Short(a.1.smallest) && Short(a.1.largest))
  }

  lemma ItemsEncodable(e: Edit, order: seq<(nat, Word64)>)
    requires EncodableEdit(e) && Enumerates(order, e.deleted)
    ensures forall i :: i in Items(e, order) ==> Encodable(i)
  {
    forall i | i in Items(e, order) ensures Encodable(i) {
      if i in Pointers(e.pointers) {
        var k :| 0 <= k < |e.pointers| && i == Pointer(e.pointers[k].0, e.pointers[k].1);
        assert e.pointers[k] in e.pointers;
      } else if i in Deletions(order) {
        var k :| 0 <= k < |order| && i == Deleted(order[k].0, order[k].1);
        assert order[k] in order;
      } else if i in Additions(e.added) {
        var k :| 0 <= k < |e.added| && i == Added(e.added[k].0, e.added[k].1);
        assert e.added[k] in e.added;
      }
    }
  }

  /** Decoding what was encoded gives the edit back, whatever order the deleted files were written in, except
      that Clear does not clear the compaction pointers: those that were there stay in front. */
  lemma DecodeInto(e: Edit, order: seq<(nat, Word64)>, target: Edit)
    requires EncodableEdit(e) && Enumerates(order, e.deleted)
    ensures Decode(Cleared(target), EncodeAll(Items(e, order))) == (e.(pointers := target.pointers + e.pointers), None)
  {
    var items, base := Items(e, order), Cleared(target);
    ItemsEncodable(e, order);
    DecodeItems(base, items, []);
    assert EncodeAll(items) + [] == EncodeAll(items);
    var h, p, d, a := Header(e), Pointers(e.pointers), Deletions(order), Additions(e.added);
    ApplyAppend(base, h + p + d, a);
    ApplyAppend(base, h + p, d);
    ApplyAppend(base, h, p);
    ApplyHeader(e, base);
    var e1 := ApplyAll(base, h);
    ApplyPointers(e1, e.pointers);
    var e2 := ApplyAll(e1, p);
    ApplyDeletions(e2, order);
    var e3 := ApplyAll(e2, d);
    ApplyAdditions(e3, e.added);
    assert (set x | x in order) == e.deleted;
    assert {} + e.deleted == e.deleted;
    assert [] + e.added == e.added;
  }

  /** The round trip is exact if and only if the target held no compaction pointers. */
  lemma RoundTripExact(e: Edit, order: seq<(nat, Word64)>, target: Edit)
    requires EncodableEdit(e) && Enumerates(order, e.deleted)
    ensures Decode(Cleared(target), EncodeAll(Items(e, order))) == (e, None) <==> target.pointers == []
  {
    DecodeInto(e, order, target);
    assert target.pointers == [] ==> target.pointers + e.pointers == e.pointers;
    assert |target.pointers + e.pointers| == |target.pointers| + |e.pointers|;
  }

  // ---- The object ----

  class VersionEdit {
    var e: Edit

    constructor ()
      ensures e == Edit(None, None, None, None, None, [], {}, [])
    {
      e := Edit(None, None, None, None, None, [], {}, []);
    }

    method Clear()
      modifies this
      ensures e == Cleared(old(e))
    {
      e := e.(comparator := None, logNumber := None, prevLogNumber := None, nextFileNumber := None, lastSequence := None);
      e := e.(deleted := {}, added := []);
    }

    /** version_edit.cc:41-85 */
    method EncodeTo(order: seq<(nat, Word64)>) returns (dst: seq<Byte>)
      requires Enumerates(order, e.deleted)
      ensures dst == EncodeAll(Items(e, order))
    {
      ghost var done: seq<Item> := [];
      dst := [];
      dst, done := PutOne(dst, if e.comparator.Some? then Some(Comparator(e.comparator.value)) else None, done);
      dst, done := PutOne(dst, if e.logNumber.Some? then Some(LogNumber(e.logNumber.value)) else None, done);
      dst, done := PutOne(dst, if e.prevLogNumber.Some? then Some(PrevLogNumber(e.prevLogNumber.value)) else None, done);
      dst, done := PutOne(dst, if e.nextFileNumber.Some? then Some(NextFileNumber(e.nextFileNumber.value)) else None, done);
      dst, done := PutOne(dst, if e.lastSequence.Some? then Some(LastSequence(e.lastSequence.value)) else None, done);
      assert done == Header(e);
      dst, done := PutAll(dst, Pointers(e.pointers), done);
      dst, done := PutAll(dst, Deletions(order), done);
      dst, done := PutAll(dst, Additions(e.added), done);
      assert done == Items(e, order);
    }

    /** version_edit.cc:107-205 */
    method DecodeFrom(src: seq<Byte>) returns (error: Option<string>)
      modifies this
      ensures (e, error) == Decode(Cleared(old(e)), src)
    {
      Clear();
      var input := src;
      ghost var goal := Decode(e, src);
      while true
        invariant goal == Decode(e, input)
        decreases |input|
      {
        match ParseItem(input) {
          case None =>
            return if input == [] then None else Some("invalid tag");
          case Some(Bad(message)) =>
            return Some(message);
          case Some(Good(i, rest)) =>
            e := Apply(e, i);
            input := rest;
        }
      }
    }
  }

  lemma EncodeMore(items: seq<Item>, i: Item)
    ensures EncodeAll(items + [i]) == EncodeAll(items) + EncodeItem(i)
  {
    assert (items + [i])[..|items|] == items;
  }

  /** `dst` is what those items are written as. */
  ghost predicate Written(dst: seq<Byte>, items: seq<Item>) {
    dst == EncodeAll(items)
  }

  method PutOne(dst: seq<Byte>, item: Option<Item>, ghost done: seq<Item>) returns (out: seq<Byte>, ghost after: seq<Item>)
    requires Written(dst, done)
    ensures after == done + (if item.Some? then [item.value] else []) && Written(out, after) == true
  {
    out, after := dst, done;
    if item.Some? {
      out := out + EncodeItem(item.value);
      EncodeMore(after, item.value);
      after := after + [item.value];
    }
  }

  lemma JoinItems(done: seq<Item>, items: seq<Item>, i: nat)
    requires i < |items|
    ensures (done + items[..i]) + [items[i]] == done + items[..i + 1]
  {}

  method PutAll(dst: seq<Byte>, items: seq<Item>, ghost done: seq<Item>) returns (out: seq<Byte>, ghost after: seq<Item>)
    requires Written(dst, done) == true
    ensures after == done + items && Written(out, after) == true
  {
    out, after := dst, done;
    for i := 0 to |items|
      invariant after == done + items[..i] && Written(out, after) == true
    {
      JoinItems(done, items, i);
      out, after := PutOne(out, Some(items[i]), after);
    }
    assert items[..|items|] == items;
  }

  /** Write an edit, read it into a fresh one: the same edit comes back. */
  method WriteAndRead(written: VersionEdit, order: seq<(nat, Word64)>) returns (read: VersionEdit, error: Option<string>)
    requires EncodableEdit(written.e) && Enumerates(order, written.e.deleted)
    ensures error == None && read.e == written.e
  {
    var bytes := written.EncodeTo(order);
    read := new VersionEdit();
    DecodeInto(written.e, order, read.e);
    error := read.DecodeFrom(bytes);
    assert [] + written.e.pointers == written.e.pointers;
  }
}
