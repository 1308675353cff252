/** From the bytes of a manifest to the version they stand for (db/version_set VersionSet::Recover against
    LogAndApply).

    The manifest is a log whose records are version edits.  Its writer installs a version for every edit; recovery
    reads the records back, feeds them to one builder, and saves once.  Finding the manifest by way of CURRENT,
    and going on writing to it, are not part of this model.
 */
module Recovery {
  import opened Options
  import opened Coding
  import opened LogFormat
  import opened LogReader
  import opened LogTruncation
  import opened Versions
  import opened InternalKeys
  import opened Manifest
  import Wire = VersionEdits

  type Edit = Wire.Edit

  /** What the bytes of a manifest leave open: which internal key a byte string is, and what is in a table file. */
  datatype Disk = Disk(keyOf: seq<Byte> -> InternalKey, entriesOf: nat -> seq<Entry>)

  function MetaOf(disk: Disk, f: Wire.File): FileMeta {
    FileMeta(f.number, f.size, disk.keyOf(f.smallest), disk.keyOf(f.largest), disk.entriesOf(f.number))
  }

  /** The edit as the builder sees it. */
  function ToEdit(disk: Disk, e: Edit): VersionEdit {
    VersionEdit(set d: (nat, nat) | d in e.deleted, seq(|e.added|, i requires 0 <= i < |e.added| => (e.added[i].0, MetaOf(disk, e.added[i].1))))
  }

  function ToEdits(disk: Disk, es: seq<Edit>): (r: seq<VersionEdit>)
    ensures |r| == |es| && forall i :: 0 <= i < |es| ==> r[i] == ToEdit(disk, es[i])
  {
    seq(|es|, i requires 0 <= i < |es| => ToEdit(disk, es[i]))
  }

  const BLANK := Wire.Edit(None, None, None, None, None, [], {}, [])

  // ---- What recovery keeps besides the files ----

  /** The last value recorded of each. */
  datatype Counters = Counters(logNumber: Option<Word64>, prevLogNumber: Option<Word64>, nextFile: Option<Word64>,
                               lastSequence: Option<Word64>)

  function Later<T>(old_: Option<T>, new_: Option<T>): Option<T> {
    if new_.Some? then new_ else old_
  }

  function Noted(c: Counters, e: Edit): Counters {
    Counters(Later(c.logNumber, e.logNumber), Later(c.prevLogNumber, e.prevLogNumber), Later(c.nextFile, e.nextFileNumber),
             Later(c.lastSequence, e.lastSequence))
  }

  function NotedAll(es: seq<Edit>): Counters {
    if es == [] then Counters(None, None, None, None) else Noted(NotedAll(es[..|es| - 1]), es[|es| - 1])
  }

  predicate Enough(c: Counters) {
    c.nextFile.Some? && c.logNumber.Some? && c.lastSequence.Some?
  }

  // ---- Decoding the records ----

  /** The edit a record stands for, if it is one and for this comparator. */
  function Sound(record: seq<Byte>, comparator: seq<Byte>): Option<Edit> {
    var decoded := Wire.Decode(BLANK, record);
    if decoded.1.None? && FromComparator(decoded.0, comparator) then Some(decoded.0) else None
  }

  /** The edits of the records, up to one that is no edit or is for another comparator; and whether there is none. */
  function EditsOf(records: seq<seq<Byte>>, comparator: seq<Byte>): (seq<Edit>, bool) {
    if records == [] then ([], true)
    else OneMore(EditsOf(records[..|records| - 1], comparator), records[|records| - 1], comparator)
  }

  function OneMore(sofar: (seq<Edit>, bool), record: seq<Byte>, comparator: seq<Byte>): (seq<Edit>, bool) {
    var e := Sound(record, comparator);
    if sofar.1 && e.Some? then (sofar.0 + [e.value], true) else (sofar.0, false)
  }

  predicate FromComparator(e: Edit, comparator: seq<Byte>) {
    e.comparator.Some? ==> e.comparator.value == comparator
  }

  lemma EditsMore(records: seq<seq<Byte>>, comparator: seq<Byte>, r: seq<Byte>)
    ensures EditsOf(records + [r], comparator) == OneMore(EditsOf(records, comparator), r, comparator)
  {
    assert (records + [r])[..|records|] == records;
  }

  /** A record that spoils the edits spoils them for good. */
  lemma {:induction false} SpoiltForGood(records: seq<seq<Byte>>, comparator: seq<Byte>, more: seq<seq<Byte>>)
    requires !EditsOf(records, comparator).1
    ensures EditsOf(records + more, comparator) == EditsOf(records, comparator)
  {
    if more == [] {
      assert records + more == records;
    } else {
      var n := |more| - 1;
      SpoiltForGood(records, comparator, more[..n]);
      assert records + more == (records + more[..n]) + [more[n]];
      EditsMore(records + more[..n], comparator, more[n]);
    }
  }

  lemma {:induction false} EditsPrefix(records: seq<seq<Byte>>, comparator: seq<Byte>, more: seq<seq<Byte>>)
    ensures EditsOf(records, comparator).0 <= EditsOf(records + more, comparator).0
  {
    if more == [] {
      assert records + more == records;
    } else {
      var n := |more| - 1;
      EditsPrefix(records, comparator, more[..n]);
      assert records + more == (records + more[..n]) + [more[n]];
      EditsMore(records + more[..n], comparator, more[n]);
      LongerStill(EditsOf(records, comparator).0, EditsOf(records + more[..n], comparator), more[n], comparator);
    }
  }

  lemma LongerStill(es: seq<Edit>, sofar: (seq<Edit>, bool), record: seq<Byte>, comparator: seq<Byte>)
    requires es <= sofar.0
    ensures es <= OneMore(sofar, record, comparator).0
  {}

  // ---- Recovery ----

  datatype Outcome = Failed | Recovered(version: Version, counters: Counters)

  /** The version is what one builder makes of the edits. */
  ghost predicate Saves(v: Version, disk: Disk, es: seq<Edit>) {
    OrderedVersion(v) && forall l :: 0 <= l < NUM_LEVELS ==> FilesOf(v[l]) == SavedLevel({}, ApplyAll(ToEdits(disk, es), l))
  }

  /** What the bytes call for: a failure if a corruption is reported, a record is no edit or for another comparator,
      or a counter is missing; otherwise what one builder makes of the edits. */
  ghost predicate CalledFor(o: Outcome, all: (seq<seq<Byte>>, nat), comparator: seq<Byte>, disk: Disk) {
    var (es, good) := EditsOf(all.0, comparator);
    && (o.Failed? <==> all.1 > 0 || !good || !Enough(NotedAll(es)))
    && (o.Recovered? ==> o.counters == NotedAll(es) && Saves(o.version, disk, es))
  }

  /** `records` have been read and are the edits `es`, and `rest` is still to come. */
  ghost predicate Sofar(all: (seq<seq<Byte>>, nat), records: seq<seq<Byte>>, es: seq<Edit>, rest: (seq<seq<Byte>>, nat),
                        comparator: seq<Byte>)
  {
    all.0 == records + rest.0 && all.1 == rest.1 && EditsOf(records, comparator) == (es, true)
  }

  /** What reading a record does to what has been read. */
  lemma SofarMore(crc: Checksum, file: seq<Byte>, p: nat, ok: bool, record: seq<Byte>, q: nat, reports: nat,
                  all: (seq<seq<Byte>>, nat), records: seq<seq<Byte>>, es: seq<Edit>, comparator: seq<Byte>)
    requires p <= |file| && q <= |file| && Returns(Assemble(crc, file, p, false, []), ok, record, q, reports)
    requires Sofar(all, records, es, ReadAll(crc, file, p), comparator) == true
    ensures reports > 0 ==> all.1 > 0
    ensures reports == 0 && !ok ==> all.1 == 0 && EditsOf(all.0, comparator) == (es, true)
    ensures ok ==> p < q
    ensures reports == 0 && ok ==>
      match Sound(record, comparator)
      case None => !EditsOf(all.0, comparator).1
      case Some(e) =>
        && Sofar(all, records + [record], es + [e], ReadAll(crc, file, q), comparator) == true
        && es + [e] <= EditsOf(all.0, comparator).0
  {
    ReadAllTurn(crc, file, p, ok, record, q, reports);
    if ok {
      var rest := ReadAll(crc, file, q);
      assert all.0 == (records + [record]) + rest.0;
      EditsMore(records, comparator, record);
      if EditsOf(records + [record], comparator).1 {
        EditsPrefix(records + [record], comparator, rest.0);
      } else {
        SpoiltForGood(records + [record], comparator, rest.0);
      }
    } else {
      assert records + [] == records;
    }
  }

  method ReadEdit(record: seq<Byte>, comparator: seq<Byte>) returns (r: Option<Edit>)
    ensures r == Sound(record, comparator)
  {
    var edit := new Wire.VersionEdit();
    var error := edit.DecodeFrom(record);
    r := if error.Some? || !FromComparator(edit.e, comparator) then None else Some(edit.e);
  }

  ghost predicate BuiltFrom(builder: Builder, disk: Disk, es: seq<Edit>)
    reads builder
  {
    && builder.Valid() && builder.base == NOTHING
    && forall l :: 0 <= l < NUM_LEVELS ==> builder.State(l) == ApplyAll(ToEdits(disk, es), l)
  }

  /** Apply the next edit. */
  method TakeEdit(builder: Builder, disk: Disk, edit: Edit, ghost whole: seq<Edit>, ghost es: seq<Edit>)
    requires BuiltFrom(builder, disk, es) == true
    requires Replayable(ToEdits(disk, whole)) == true && es + [edit] <= whole
    modifies builder`deletedFiles, builder`addedFiles
    ensures BuiltFrom(builder, disk, es + [edit]) == true
  {
    ApplyNext(disk, whole, es, edit, builder.addedFiles);
    builder.Apply(ToEdit(disk, edit));
  }

  lemma FailureCalledFor(all: (seq<seq<Byte>>, nat), comparator: seq<Byte>, disk: Disk)
    requires all.1 > 0 || !EditsOf(all.0, comparator).1 || !Enough(NotedAll(EditsOf(all.0, comparator).0))
    ensures CalledFor(Failed, all, comparator, disk) == true
  {}

  lemma RecoveryCalledFor(all: (seq<seq<Byte>>, nat), comparator: seq<Byte>, disk: Disk, v: Version, counters: Counters)
    requires all.1 == 0 && EditsOf(all.0, comparator).1 && Enough(counters) && counters == NotedAll(EditsOf(all.0, comparator).0)
    requires Saves(v, disk, EditsOf(all.0, comparator).0) == true
    ensures CalledFor(Recovered(v, counters), all, comparator, disk) == true
  {}

  method NewBuilder(disk: Disk) returns (builder: Builder)
    ensures fresh(builder) && BuiltFrom(builder, disk, []) == true
  {
    builder := new Builder(NOTHING);
  }

  method Save(builder: Builder, disk: Disk, ghost es: seq<Edit>) returns (v: Version)
    requires BuiltFrom(builder, disk, es) == true
    ensures Saves(v, disk, es) == true
  {
    v := builder.SaveTo();
    assert forall l :: 0 <= l < NUM_LEVELS ==> FilesOf(NOTHING[l]) == {};
  }

  /** Read the edits of a manifest, each in turn applied to the builder; `good` unless something is wrong with one. */
  method ReadEdits(reader: Reader, builder: Builder, comparator: seq<Byte>, disk: Disk)
    returns (good: bool, counters: Counters, ghost es: seq<Edit>)
    requires reader.Valid() && reader.Pos() == 0 && reader.reports == 0 && BuiltFrom(builder, disk, []) == true
    requires Replayable(ToEdits(disk, EditsOf(ReadAll(reader.crc, reader.file, 0).0, comparator).0)) == true
    modifies reader`filePos, reader`buffer, reader`eof, reader`reports, builder`deletedFiles, builder`addedFiles
    ensures var all := ReadAll(reader.crc, reader.file, 0);
      && (good <==> all.1 == 0 && EditsOf(all.0, comparator).1)
      && (good ==> es == EditsOf(all.0, comparator).0 && counters == NotedAll(es) && BuiltFrom(builder, disk, es) == true)
  {
    ghost var all := ReadAll(reader.crc, reader.file, 0);
    ghost var records: seq<seq<Byte>> := [];
    es, counters := [], Counters(None, None, None, None);
    while true
      invariant reader.Valid() == true && BuiltFrom(builder, disk, es) == true
      invariant reader.reports == 0 && counters == NotedAll(es)
      invariant Sofar(all, records, es, ReadAll(reader.crc, reader.file, reader.Pos()), comparator) == true
      decreases |reader.file| - reader.Pos()
    {
      ghost var p := reader.Pos();
      var ok, record := reader.ReadRecord();
      SofarMore(reader.crc, reader.file, p, ok, record, reader.Pos(), reader.reports, all, records, es, comparator);
      if reader.reports > 0 || !ok {
        return reader.reports == 0, counters, es;
      }
      var edit := ReadEdit(record, comparator);
      if edit.None? {
        return false, counters, es;
      }
      TakeEdit(builder, disk, edit.value, EditsOf(all.0, comparator).0, es);
      NotedNext(es, edit.value);
      counters := Noted(counters, edit.value);
      records, es := records + [record], es + [edit.value];
    }
  }

  /** Read the records of a manifest and build the version they lead to (version_set.cc:920-1006). */
  method Recover(crc: Checksum, file: seq<Byte>, comparator: seq<Byte>, disk: Disk) returns (o: Outcome)
    requires Replayable(ToEdits(disk, EditsOf(ReadAll(crc, file, 0).0, comparator).0))
    ensures CalledFor(o, ReadAll(crc, file, 0), comparator, disk) == true
  {
    var reader := new Reader(crc, file);
    var builder := NewBuilder(disk);
    var good, counters, es := ReadEdits(reader, builder, comparator, disk);
    if !good || !Enough(counters) {
      FailureCalledFor(ReadAll(crc, file, 0), comparator, disk);
      return Failed;
    }
    var v := Save(builder, disk, es);
    RecoveryCalledFor(ReadAll(crc, file, 0), comparator, disk, v, counters);
    o := Recovered(v, counters);
  }

  lemma NotedNext(es: seq<Edit>, e: Edit)
    ensures NotedAll(es + [e]) == Noted(NotedAll(es), e)
  {
    assert (es + [e])[..|es|] == es;
  }

  /** The next edit adds nothing the builder knows, and takes it one edit further. */
  lemma ApplyNext(disk: Disk, whole: seq<Edit>, es: seq<Edit>, e: Edit, added: Version)
    requires Replayable(ToEdits(disk, whole)) && es + [e] <= whole && |added| == NUM_LEVELS
    requires forall l :: 0 <= l < NUM_LEVELS ==> FilesOf(added[l]) == ApplyAll(ToEdits(disk, es), l).added
    ensures ValidEdit(ToEdit(disk, e)) && OwnPlaces(NOTHING, added, ToEdit(disk, e).added)
    ensures forall l :: 0 <= l < NUM_LEVELS ==>
              ApplyAll(ToEdits(disk, es + [e]), l) == ApplyLevel(ApplyAll(ToEdits(disk, es), l), ToEdit(disk, e), l)
  {
    var all, k := ToEdits(disk, whole), |es|;
    assert all[..k] == ToEdits(disk, es) && all[k] == ToEdit(disk, e) by {
      assert (es + [e])[k] == e && forall i :: 0 <= i < k ==> (es + [e])[i] == es[i];
    }
    NextToReplay(all, k, added);
    assert (es + [e])[..k] == es;
    assert ToEdits(disk, es + [e])[..k] == ToEdits(disk, es);
  }

  // ---- Writing and recovering ----

  method Enumerate(s: set<(nat, Word64)>) returns (order: seq<(nat, Word64)>)
    ensures Wire.Enumerates(order, s)
  {
    order := [];
    var left := s;
    while left != {}
      invariant left <= s && Wire.Enumerates(order, s - left)
      decreases left
    {
      var d :| d in left;
      order, left := order + [d], left - {d};
    }
    assert s - {} == s;
  }

  /** The records are these edits. */
  ghost predicate Stand(records: seq<seq<Byte>>, es: seq<Edit>) {
    |records| == |es| && forall i :: 0 <= i < |es| ==> Wire.Decode(BLANK, records[i]) == (es[i], None)
  }

  method WriteEdit(e: Edit) returns (record: seq<Byte>)
    requires Wire.EncodableEdit(e)
    ensures Wire.Decode(BLANK, record) == (e, None)
  {
    var edit := new Wire.VersionEdit();
    edit.e := e;
    var order := Enumerate(e.deleted);
    record := edit.EncodeTo(order);
    Wire.DecodeInto(e, order, BLANK);
    assert Wire.Cleared(BLANK) == BLANK && [] + e.pointers == e.pointers;
  }

  lemma StandMore(records: seq<seq<Byte>>, es: seq<Edit>, k: nat, record: seq<Byte>)
    requires k < |es| && Stand(records, es[..k]) && Wire.Decode(BLANK, record) == (es[k], None)
    ensures Stand(records + [record], es[..k + 1]) == true
  {}

  /** Log every edit as a record. */
  method LogEdits(crc: Checksum, es: seq<Edit>) returns (file: seq<Byte>, records: seq<seq<Byte>>)
    requires forall e :: e in es ==> Wire.EncodableEdit(e)
    ensures file == LogFrom(crc, records, 0) && Stand(records, es)
  {
    var writer := new Writer(crc, []);
    records := [];
    for i := 0 to |es|
      invariant writer.Valid() && writer.InStep() && writer.crc == crc && fresh(writer)
      invariant writer.dest == LogFrom(crc, records, 0) && Stand(records, es[..i]) == true
    {
      var record := WriteEdit(es[i]);
      LogAppend(crc, records, record, 0, |writer.dest|);
      var ok := writer.AddRecord(record, []);
      StandMore(records, es, i, record);
      records := records + [record];
    }
    assert es[..|es|] == es;
    file := writer.dest;
  }

  method LogAndCut(crc: Checksum, es: seq<Edit>, cut: nat) returns (file: seq<Byte>, records: seq<seq<Byte>>)
    requires forall e :: e in es ==> Wire.EncodableEdit(e)
    ensures Stand(records, es) == true && WholeRecords(crc, records, 0, cut) <= |records|
    ensures ReadAll(crc, file, 0) == (records[..WholeRecords(crc, records, 0, cut)], 0)
  {
    file, records := LogEdits(crc, es);
    var n := if cut < |file| then cut else |file|;
    TruncationSafe(crc, records, n);
    CutBeyondEnd(crc, records, 0, cut, n);
    file := file[..n];
  }

  lemma {:induction false} StandForEdits(records: seq<seq<Byte>>, es: seq<Edit>, comparator: seq<Byte>)
    requires Stand(records, es) && forall e :: e in es ==> FromComparator(e, comparator)
    ensures EditsOf(records, comparator) == (es, true)
  {
    if es != [] {
      var n := |es| - 1;
      StandForEdits(records[..n], es[..n], comparator);
      EditsMore(records[..n], comparator, records[n]);
      assert records == records[..n] + [records[n]] && es == es[..n] + [es[n]];
      assert es[n] in es;
    }
  }

  /** What a manifest starts with: the comparator, and the files of a version. */
  ghost predicate Snapshot(s: Edit, v: Version, comparator: seq<Byte>, disk: Disk) {
    && Wire.EncodableEdit(s) && s.comparator == Some(comparator) && s.logNumber == s.prevLogNumber == None
    && s.nextFileNumber == s.lastSequence == None
    && IsSnapshot(ToEdit(disk, s), v) && DistinctAdditions(ToEdit(disk, s))
  }

  /** What LogAndApply writes: every edit with its counters. */
  ghost predicate Logged(e: Edit) {
    && Wire.EncodableEdit(e) && e.comparator == None && e.logNumber.Some? && e.prevLogNumber.Some?
    && e.nextFileNumber.Some? && e.lastSequence.Some?
  }

  function CountersOf(e: Edit): Counters {
    Counters(e.logNumber, e.prevLogNumber, e.nextFileNumber, e.lastSequence)
  }

  /** What a manifest of `k` records is recovered to: with less than a snapshot and an edit, nothing; otherwise the
      counters of the last edit, and the version that was current after it, if and only if no file that was deleted
      comes back with its number: which none does if file numbers come from one counter. */
  ghost predicate RecoveredTo(o: Outcome, disk: Disk, v: Version, s: Edit, es: seq<Edit>, k: nat, current: Version) {
    && k <= 1 + |es|
    && (o.Failed? <==> k < 2)
    && (o.Recovered? ==>
          && o.counters == CountersOf(es[k - 2])
          && (o.version == current <==> NoneRevived([ToEdit(disk, s)] + ToEdits(disk, es[..k - 1])) == true)
          && (|v| == NUM_LEVELS && NumbersOnce(v, ToEdits(disk, es)) == true ==> o.version == current))
  }

  /** Level by level the files the edits lead to. */
  ghost predicate LedTo(v: Version, es: seq<VersionEdit>, current: Version)
    requires |v| == NUM_LEVELS
  {
    && OrderedVersion(current)
    && forall l :: 0 <= l < NUM_LEVELS ==> FilesOf(current[l]) == InstallAll(FilesOf(v[l]), es, l)
  }

  lemma CountersOfLast(s: Edit, es: seq<Edit>)
    requires s.logNumber == s.prevLogNumber == None && s.nextFileNumber == s.lastSequence == None
    requires forall e :: e in es ==> Logged(e)
    ensures NotedAll([s] + es) == if es == [] then Counters(None, None, None, None) else CountersOf(es[|es| - 1])
  {
    var n := |es|;
    if es == [] {
      assert [s] + es == [s] && [s][..0] == [];
    } else {
      assert es[n - 1] in es && ([s] + es)[n] == es[n - 1];
    }
  }

  lemma SnapshotAndEdits(disk: Disk, s: Edit, es: seq<Edit>)
    ensures ToEdits(disk, [s] + es) == [ToEdit(disk, s)] + ToEdits(disk, es)
  {}

  /** Start a manifest with a snapshot of `v`, log edits as they are applied, cut the file anywhere, recover: what
      is recovered is the version that was current when the last edit wholly in the file had been applied; always,
      if file numbers come from one counter, and otherwise exactly if no deleted file comes back with its number. */
  method WriteCutRecover(crc: Checksum, disk: Disk, comparator: seq<Byte>, v: Version, s: Edit, es: seq<Edit>, cut: nat)
    returns (o: Outcome, current: Version, records: seq<seq<Byte>>)
    requires OrderedVersion(v) && Snapshot(s, v, comparator, disk) && (forall e :: e in es ==> Logged(e))
    requires Replayable([ToEdit(disk, s)] + ToEdits(disk, es)) == true && Installable(v, ToEdits(disk, es)) == true
    ensures Stand(records, [s] + es)
    ensures var k := WholeRecords(crc, records, 0, cut);
      && RecoveredTo(o, disk, v, s, es, k, current) == true
      && LedTo(v, ToEdits(disk, es[..if k == 0 then 0 else k - 1]), current) == true
  {
    var file;
    file, records := LogAndCut(crc, [s] + es, cut);
    var k := WholeRecords(crc, records, 0, cut);
    var m := if k == 0 then 0 else k - 1;
    CutEdits(disk, v, s, es, comparator, records, k);
    o := Recover(crc, file, comparator, disk);
    current := History(v, ToEdits(disk, es[..m]));
    CutRecovered(disk, v, s, es, comparator, records, k, o, current);
  }

  /** The first `k` records stand for the snapshot and the edits after it. */
  lemma CutEdits(disk: Disk, v: Version, s: Edit, es: seq<Edit>, comparator: seq<Byte>, records: seq<seq<Byte>>, k: nat)
    requires Snapshot(s, v, comparator, disk) && (forall e :: e in es ==> Logged(e))
    requires Replayable([ToEdit(disk, s)] + ToEdits(disk, es)) && Installable(v, ToEdits(disk, es))
    requires Stand(records, [s] + es) && k <= |records|
    ensures EditsOf(records[..k], comparator) == (([s] + es)[..k], true)
    ensures Replayable(ToEdits(disk, ([s] + es)[..k])) == true
    ensures Installable(v, ToEdits(disk, es[..if k == 0 then 0 else k - 1])) == true
  {
    var all := [s] + es;
    assert forall e :: e in all[..k] ==> e == s || e in es;
    StandForEdits(records[..k], all[..k], comparator);
    SnapshotAndEdits(disk, s, es);
    ReplayablePrefix(ToEdits(disk, all), k);
    assert ToEdits(disk, all)[..k] == ToEdits(disk, all[..k]);
    var m: nat := if k == 0 then 0 else k - 1;
    InstallablePrefix(v, ToEdits(disk, es), m);
    assert ToEdits(disk, es)[..m] == ToEdits(disk, es[..m]);
  }

  lemma CutRecovered(disk: Disk, v: Version, s: Edit, es: seq<Edit>, comparator: seq<Byte>, records: seq<seq<Byte>>, k: nat,
                     o: Outcome, current: Version)
    requires OrderedVersion(v) && Snapshot(s, v, comparator, disk) && (forall e :: e in es ==> Logged(e))
    requires k <= 1 + |es| && |records| == 1 + |es| && EditsOf(records[..k], comparator) == (([s] + es)[..k], true)
    requires CalledFor(o, (records[..k], 0), comparator, disk) == true
    requires LedTo(v, ToEdits(disk, es[..if k == 0 then 0 else k - 1]), current)
    ensures RecoveredTo(o, disk, v, s, es, k, current) == true
  {
    if k == 0 {
      assert ([s] + es)[..0] == [];
    } else {
      assert ([s] + es)[..k] == [s] + es[..k - 1];
      assert forall e :: e in es[..k - 1] ==> e in es;
      CountersOfLast(s, es[..k - 1]);
      if k >= 2 {
        assert es[k - 2] in es;
        SnapshotAndEdits(disk, s, es[..k - 1]);
        RecoveredIfNoneRevived(disk, v, ToEdit(disk, s), es, k - 1, o.version, current);
      }
    }
  }

  lemma RecoveredIfNoneRevived(disk: Disk, v: Version, t: VersionEdit, es: seq<Edit>, n: nat, recovered: Version, current: Version)
    requires n <= |es| && IsSnapshot(t, v) && OrderedVersion(recovered) && LedTo(v, ToEdits(disk, es[..n]), current) == true
    requires forall l :: 0 <= l < NUM_LEVELS ==> FilesOf(recovered[l]) == SavedLevel({}, ApplyAll([t] + ToEdits(disk, es[..n]), l))
    ensures recovered == current <==> NoneRevived([t] + ToEdits(disk, es[..n])) == true
    ensures NumbersOnce(v, ToEdits(disk, es)) == true ==> recovered == current
  {
    SameIffNoneRevived(v, t, ToEdits(disk, es[..n]), recovered, current);
    if NumbersOnce(v, ToEdits(disk, es)) {
      NumbersOncePrefix(v, ToEdits(disk, es), n);
      assert ToEdits(disk, es)[..n] == ToEdits(disk, es[..n]);
      NumbersOnceNoneRevived(v, t, ToEdits(disk, es[..n]));
    }
  }
}
