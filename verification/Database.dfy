/** Reads, writes, flushes and compactions over whole runs (db/db_impl). */
module Database {
  import opened Options
  import opened InternalKeys
  import opened Versions
  import opened CompactionInputs
  import opened Compactions
  import opened Manifest
  import opened LevelInvariant
  import opened Boundaries

  ghost function Stored(mem: seq<Entry>, imm: seq<Entry>, v: Version): set<Entry> {
    Contents(mem) + Contents(imm) + AllEntries(v)
  }

  /** Everything in the memtable is newer than the immutable memtable, and that than every file. */
  ghost predicate MemoryNewest(mem: seq<Entry>, imm: seq<Entry>, v: Version) {
    && Sorted(mem) && Sorted(imm)
    && (forall e, d :: e in mem && d in imm ==> d.key.sequence < e.key.sequence)
    && (forall e, d :: (e in mem || e in imm) && d in AllEntries(v) ==> d.key.sequence < e.key.sequence)
  }

  ghost predicate OnLevel(v: Version, l: int, f: FileMeta) {
    0 <= l < |v| && f in v[l]
  }

  lemma SeenOnLevel(v: Version)
    ensures forall l, f :: 0 <= l < |v| && f in v[l] ==> OnLevel(v, l, f)
  {}

  /** Every file of a version has its own number, below `next`. */
  ghost predicate Numbered(v: Version, next: nat) {
    && (forall l, f :: OnLevel(v, l, f) ==> f.number < next)
    && (forall l, m, f, g :: OnLevel(v, l, f) && OnLevel(v, m, g) && f.number == g.number ==> l == m && f == g)
  }

  // ---- Reading ----

  /** A run whose entries are all newer than the rest decides a read if it has a candidate. */
  lemma NewerRunDecides(es: seq<Entry>, T: set<Entry>, u: UserKey, s: nat)
    requires Sorted(es) && UniqueSequences(Contents(es) + T)
    requires forall e, d :: e in es && d in T ==> d.key.sequence < e.key.sequence
    ensures NewestEntry(Contents(es) + T, u, s)
            == if RunGet(es, u, s).Some? then RunGet(es, u, s) else NewestEntry(T, u, s)
  {
    var S, r := Contents(es) + T, RunGet(es, u, s);
    RunGetIsNewest(es, u, s);
    if r.Some? {
      assert r.value in es;
      NewestDecides(S, u, s, r);
    } else {
      NewestMeaning(T, u, s);
      NewestDecides(S, u, s, NewestEntry(T, u, s));
    }
  }

  // ---- Writing ----

  /** A version newer than everything is seen the same way in any two sets that read the same. */
  lemma AddNewest(S: set<Entry>, H: set<Entry>, e: Entry, smallest: nat)
    requires S <= H && UniqueSequences(H) && SameReads(S, H, smallest)
    requires forall d :: d in H ==> d.key.sequence < e.key.sequence
    ensures SameReads(S + {e}, H + {e}, smallest)
  {
    forall u, s | s >= smallest ensures Read(S + {e}, u, s) == Read(H + {e}, u, s) {
      ReadWithNewest(S, e, u, s);
      ReadWithNewest(H, e, u, s);
      assert Read(S, u, s) == Read(H, u, s);
    }
  }

  lemma ReadWithNewest(S: set<Entry>, e: Entry, u: UserKey, s: nat)
    requires UniqueSequences(S) && forall d :: d in S ==> d.key.sequence < e.key.sequence
    ensures NewestEntry(S + {e}, u, s) == if Candidate(e, u, s) then Some(e) else NewestEntry(S, u, s)
  {
    NewestMeaning(S, u, s);
    NewestDecides(S + {e}, u, s, if Candidate(e, u, s) then Some(e) else NewestEntry(S, u, s));
  }

  // ---- Compaction ----

  lemma MemoryAboveFiles(mem: seq<Entry>, imm: seq<Entry>, v: Version)
    requires MemoryNewest(mem, imm, v) && UniqueSequences(Stored(mem, imm, v))
    ensures FilesOldest(Stored(mem, imm, v), v)
  {}

  // ---- From runs of kept entries to table files ----

  function Last(es: seq<Entry>): Entry
    requires es != []
  {
    es[|es| - 1]
  }

  ghost predicate RunsSorted(runs: seq<seq<Entry>>) {
    && (forall i :: 0 <= i < |runs| ==> runs[i] != [] && Sorted(runs[i]))
    && (forall i, j :: 0 <= i < j < |runs| ==> Less(Last(runs[i]).key, runs[j][0].key))
  }

  lemma {:induction false} FlattenMembers(runs: seq<seq<Entry>>)
    ensures forall e :: e in Flatten(runs) <==> exists i :: 0 <= i < |runs| && e in runs[i]
  {
    if runs != [] {
      var n := |runs| - 1;
      FlattenMembers(runs[..n]);
      forall e ensures e in Flatten(runs) <==> exists i :: 0 <= i < |runs| && e in runs[i] {
        if e in Flatten(runs[..n]) {
          var i :| 0 <= i < n && e in runs[..n][i];
          assert e in runs[i];
        }
        if exists i :: 0 <= i < n && e in runs[i] {
          var i :| 0 <= i < n && e in runs[i];
          assert e in runs[..n][i];
        }
      }
    }
  }

  lemma SortedParts(a: seq<Entry>, b: seq<Entry>)
    requires Sorted(a + b)
    ensures Sorted(a) && Sorted(b)
    ensures forall i, j :: 0 <= i < |a| && 0 <= j < |b| ==> Less(a[i].key, b[j].key)
  {
    var c := a + b;
    assert forall i :: 0 <= i < |a| ==> c[i] == a[i];
    forall i, j | 0 <= i < j < |b| ensures Less(b[i].key, b[j].key) {
      assert c[|a| + i] == b[i] && c[|a| + j] == b[j];
    }
    forall i, j | 0 <= i < |a| && 0 <= j < |b| ensures Less(a[i].key, b[j].key) {
      assert c[|a| + j] == b[j];
    }
  }

  lemma {:induction false} FlattenSorted(runs: seq<seq<Entry>>)
    requires Sorted(Flatten(runs)) && [] !in runs
    ensures RunsSorted(runs)
  {
    if runs != [] {
      var n := |runs| - 1;
      var a := Flatten(runs[..n]);
      SortedParts(a, runs[n]);
      FlattenSorted(runs[..n]);
      assert forall i :: 0 <= i < n ==> runs[..n][i] == runs[i];
      forall i | 0 <= i < n ensures Less(Last(runs[i]).key, runs[n][0].key) {
        LastInFlatten(runs[..n], i);
        var p :| 0 <= p < |a| && a[p] == Last(runs[i]);
      }
    }
  }

  lemma LastInFlatten(runs: seq<seq<Entry>>, i: nat)
    requires i < |runs| && runs[i] != []
    ensures Last(runs[i]) in Flatten(runs)
  {
    FlattenMembers(runs);
    assert Last(runs[i]) in runs[i];
  }

  function TableFile(number: nat, size: nat, es: seq<Entry>): (f: FileMeta)
    requires es != []
  {
    FileMeta(number, size, es[0].key, es[|es| - 1].key, es)
  }

  /** Number the outputs from `next` on; file sizes are the table builder's business. */
  function TableFiles(runs: seq<seq<Entry>>, next: nat, size: seq<Entry> -> nat): seq<FileMeta>
    requires [] !in runs
  {
    seq(|runs|, i requires 0 <= i < |runs| => TableFile(next + i, size(runs[i]), runs[i]))
  }

  ghost predicate SequencesFit(es: seq<Entry>) {
    forall e :: e in es ==> e.key.sequence <= MAX_SEQUENCE
  }

  lemma TableFileValid(number: nat, size: nat, es: seq<Entry>)
    requires es != [] && Sorted(es) && SequencesFit(es)
    ensures ValidFile(TableFile(number, size, es))
  {}

  lemma TableFilesValid(runs: seq<seq<Entry>>, next: nat, size: seq<Entry> -> nat)
    requires [] !in runs && Sorted(Flatten(runs)) && SequencesFit(Flatten(runs))
    ensures ValidFiles(TableFiles(runs, next, size)) && LevelSorted(TableFiles(runs, next, size))
  {
    var fs := TableFiles(runs, next, size);
    FlattenSorted(runs);
    FlattenMembers(runs);
    forall i | 0 <= i < |fs| ensures ValidFile(fs[i]) == true {
      assert runs[i] in runs;
      assert forall e :: e in runs[i] ==> e in Flatten(runs);
      TableFileValid(next + i, size(runs[i]), runs[i]);
    }
  }

  lemma TableFilesContents(runs: seq<seq<Entry>>, next: nat, size: seq<Entry> -> nat)
    requires [] !in runs
    ensures LevelEntries(TableFiles(runs, next, size)) == Contents(Flatten(runs))
  {
    var fs := TableFiles(runs, next, size);
    FlattenMembers(runs);
    forall e | e in Contents(Flatten(runs)) ensures e in LevelEntries(fs) {
      var i :| 0 <= i < |runs| && e in runs[i];
      assert fs[i] in fs && e in fs[i].entries;
    }
    forall e | e in LevelEntries(fs) ensures e in Flatten(runs) {
      var f :| f in fs && e in f.entries;
      var i :| 0 <= i < |fs| && fs[i] == f;
      assert e in runs[i];
    }
  }

  // ---- From an edit to the new version ----

  ghost predicate Installed(v: Version, e: VersionEdit, v': Version)
    requires |v| == |v'| == NUM_LEVELS
  {
    forall l :: 0 <= l < NUM_LEVELS ==> FilesOf(v'[l]) == SavedLevel(FilesOf(v[l]), ApplyLevel(EMPTY, e, l))
  }

  function DeletionsAt(level: nat, fs: seq<FileMeta>): set<(nat, nat)> {
    set f | f in fs :: (level, f.number)
  }

  function AdditionsAt(level: nat, fs: seq<FileMeta>): seq<(nat, FileMeta)> {
    seq(|fs|, i requires 0 <= i < |fs| => (level, fs[i]))
  }

  /** The edit of a compaction: both lists of inputs out, the outputs in (db_impl.cc:838-850). */
  function CompactionEdit(level: nat, in0: seq<FileMeta>, in1: seq<FileMeta>, outs: seq<FileMeta>): VersionEdit {
    VersionEdit(DeletionsAt(level, in0) + DeletionsAt(level + 1, in1), AdditionsAt(level + 1, outs))
  }

  lemma AdditionsMeaning(level: nat, fs: seq<FileMeta>, del: set<(nat, nat)>, l: nat)
    ensures FilesAdded(VersionEdit(del, AdditionsAt(level, fs)), l) == if l == level then FilesOf(fs) else {}
  {
    var added := AdditionsAt(level, fs);
    forall f | f in fs ensures (level, f) in added {
      var i :| 0 <= i < |fs| && fs[i] == f;
      assert added[i] == (level, f);
    }
    assert forall a :: a in added ==> a.0 == level && a.1 in fs;
  }

  lemma DeletionsMeaning(level: nat, in0: seq<FileMeta>, in1: seq<FileMeta>, added: seq<(nat, FileMeta)>, l: nat)
    ensures NumbersDeleted(VersionEdit(DeletionsAt(level, in0) + DeletionsAt(level + 1, in1), added), l)
            == NumbersOf(if l == level then FilesOf(in0) else if l == level + 1 then FilesOf(in1) else {})
  {
    forall f | f in in0 ensures (level, f.number) in DeletionsAt(level, in0) {}
    forall f | f in in1 ensures (level + 1, f.number) in DeletionsAt(level + 1, in1) {}
  }

  /** No output reuses the number of a file at the output level. */
  ghost predicate NewNumbers(fs: seq<FileMeta>, outs: seq<FileMeta>) {
    && NumbersApart(fs, outs)
    && (forall i, j :: 0 <= i < j < |outs| ==> outs[i].number != outs[j].number)
  }

  lemma SameNumberSameFile(v: Version, next: nat, l: nat, ins: seq<FileMeta>, f: FileMeta)
    requires Numbered(v, next) && l < |v| && f in v[l] && forall g :: g in ins ==> g in v[l]
    ensures f.number in NumbersOf(FilesOf(ins)) <==> f in ins
  {
    if f in ins {
      assert f in FilesOf(ins);
    }
    forall g | g in ins && g.number == f.number ensures g == f {
      assert OnLevel(v, l, f) && OnLevel(v, l, g);
    }
  }

  /** What a compaction's edit says about one level. */
  lemma EditAtLevel(v: Version, v': Version, level: nat, next: nat,
                    in0: seq<FileMeta>, in1: seq<FileMeta>, outs: seq<FileMeta>, l: nat, f: FileMeta)
    requires |v| == |v'| == NUM_LEVELS && l < NUM_LEVELS && level + 1 < NUM_LEVELS && Numbered(v, next)
    requires forall g :: g in in0 ==> g in v[level]
    requires forall g :: g in in1 ==> g in v[level + 1]
    requires NumbersApart(v[level + 1], outs)
    requires Installed(v, CompactionEdit(level, in0, in1, outs), v')
    ensures f in v'[l] <==> (f in v[l] && !(l == level && f in in0) && !(l == level + 1 && f in in1))
                            || (l == level + 1 && f in outs)
  {
    var e := CompactionEdit(level, in0, in1, outs);
    AdditionsMeaning(level + 1, outs, e.deleted, l);
    DeletionsMeaning(level, in0, in1, e.added, l);
    assert f in v'[l] <==> f in FilesOf(v'[l]);
    if f in v[l] {
      if l == level { SameNumberSameFile(v, next, level, in0, f); }
      if l == level + 1 { SameNumberSameFile(v, next, level + 1, in1, f); }
    }
    if f in outs { assert f in FilesOf(outs); }
  }

  lemma EditElsewhere(v: Version, v': Version, level: nat, next: nat,
                      in0: seq<FileMeta>, in1: seq<FileMeta>, outs: seq<FileMeta>, l: nat)
    requires OrderedVersion(v) && OrderedVersion(v') && level + 1 < NUM_LEVELS && Numbered(v, next)
    requires forall g :: g in in0 ==> g in v[level]
    requires forall g :: g in in1 ==> g in v[level + 1]
    requires NumbersApart(v[level + 1], outs)
    requires Installed(v, CompactionEdit(level, in0, in1, outs), v')
    requires l < NUM_LEVELS && l != level && l != level + 1
    ensures v'[l] == v[l]
  {
    forall f ensures f in v'[l] <==> f in v[l] {
      EditAtLevel(v, v', level, next, in0, in1, outs, l, f);
    }
    OrderedUnique(v'[l], v[l]);
  }

  lemma EditReplaces(v: Version, v': Version, level: nat, next: nat,
                     in0: seq<FileMeta>, in1: seq<FileMeta>, outs: seq<FileMeta>)
    requires OrderedVersion(v) && OrderedVersion(v') && level + 1 < NUM_LEVELS && Numbered(v, next)
    requires forall g :: g in in0 ==> g in v[level]
    requires forall g :: g in in1 ==> g in v[level + 1]
    requires NumbersApart(v[level + 1], outs)
    requires Installed(v, CompactionEdit(level, in0, in1, outs), v')
    ensures Replaced(v, v', level, in0, in1, outs)
  {
    forall f ensures f in v'[level] <==> f in v[level] && f !in in0 {
      EditAtLevel(v, v', level, next, in0, in1, outs, level, f);
    }
    forall f ensures f in v'[level + 1] <==> (f in v[level + 1] && f !in in1) || f in outs {
      EditAtLevel(v, v', level, next, in0, in1, outs, level + 1, f);
    }
    forall l | 0 <= l < NUM_LEVELS && l != level && l != level + 1 ensures v'[l] == v[l] {
      EditElsewhere(v, v', level, next, in0, in1, outs, l);
    }
  }

  // ---- The database ----

  /** The files the built-in search order and the new outputs agree on: `next` numbers nothing yet. */
  lemma FreshNumbers(v: Version, next: nat, l: nat, runs: seq<seq<Entry>>, size: seq<Entry> -> nat)
    requires Numbered(v, next) && l < |v| && [] !in runs
    ensures NewNumbers(v[l], TableFiles(runs, next, size))
  {
    SeenOnLevel(v);
  }

  lemma ReplacedNumbered(v: Version, v': Version, level: nat, next: nat, in0: seq<FileMeta>, in1: seq<FileMeta>,
                         outs: seq<FileMeta>, next': nat)
    requires Numbered(v, next) && next <= next' && Replaced(v, v', level, in0, in1, outs)
    requires forall f :: f in outs ==> next <= f.number < next'
    requires forall i, j :: 0 <= i < j < |outs| ==> outs[i].number != outs[j].number
    ensures Numbered(v', next')
  {
    SeenOnLevel(v);
    forall l, f | OnLevel(v', l, f) ensures Origin(v, level, next, outs, l, f) {
      assert f !in v[l] ==> f in outs;
    }
    forall l, m, f, g | OnLevel(v', l, f) && OnLevel(v', m, g) && f.number == g.number ensures l == m && f == g {
      assert Origin(v, level, next, outs, l, f) && Origin(v, level, next, outs, m, g);
    }
  }

  /** Where a file of the new version comes from, told by its number. */
  ghost predicate Origin(v: Version, level: nat, next: nat, outs: seq<FileMeta>, l: nat, f: FileMeta)
    requires l < |v|
  {
    if f.number < next then f in v[l] else l == level + 1 && f in outs
  }

  lemma TableFileNumbers(runs: seq<seq<Entry>>, next: nat, size: seq<Entry> -> nat)
    requires [] !in runs
    ensures var outs := TableFiles(runs, next, size);
            && (forall f :: f in outs ==> next <= f.number < next + |runs|)
            && (forall i, j :: 0 <= i < j < |outs| ==> outs[i].number != outs[j].number)
  {}

  const MAX_MEM_COMPACT_LEVEL := 2

  ghost predicate LevelOverlaps(fs: seq<FileMeta>, smallest: UserKey, largest: UserKey) {
    exists f :: f in fs && Overlaps(f, Some(smallest), Some(largest))
  }

  /** The files that a range meets are not too large together. */
  predicate RoomBelow(fs: seq<FileMeta>, smallest: UserKey, largest: UserKey, maxBytes: nat) {
    TotalFileSize(Overlapping(fs, Some(smallest), Some(largest))) <= maxBytes
  }

  /** How deep a flushed memtable goes, and why no deeper. */
  ghost predicate OutputLevel(v: Version, smallest: UserKey, largest: UserKey, maxGrandparentBytes: nat, level: nat)
    requires |v| == NUM_LEVELS
  {
    && level <= MAX_MEM_COMPACT_LEVEL
    && (level > 0 ==> forall l :: 0 <= l <= level ==> !LevelOverlaps(v[l], smallest, largest))
    && (level < MAX_MEM_COMPACT_LEVEL ==>
          || LevelOverlaps(v[0], smallest, largest)
          || LevelOverlaps(v[level + 1], smallest, largest)
          || !RoomBelow(v[level + 2], smallest, largest, maxGrandparentBytes))
    && (forall l :: 2 <= l <= level + 1 ==> RoomBelow(v[l], smallest, largest, maxGrandparentBytes))
  }

  /** The level a flushed memtable is written to (version_set.cc:491-516). */
  method PickLevelForMemTableOutput(v: Version, smallest: UserKey, largest: UserKey, maxGrandparentBytes: nat)
    returns (level: nat)
    requires ValidVersion(v)
    ensures OutputLevel(v, smallest, largest, maxGrandparentBytes, level) == true
    ensures level > 0 ==> forall l :: 0 <= l <= level ==> !LevelOverlaps(v[l], smallest, largest)
  {
    level := 0;
    var overlap := SomeFileOverlapsRange(false, v[0], Some(smallest), Some(largest));
    if !overlap {
      while level < MAX_MEM_COMPACT_LEVEL
        invariant level <= MAX_MEM_COMPACT_LEVEL
        invariant forall l :: 0 <= l <= level ==> !LevelOverlaps(v[l], smallest, largest)
        invariant forall l :: 2 <= l <= level + 1 ==> RoomBelow(v[l], smallest, largest, maxGrandparentBytes)
      {
        overlap := SomeFileOverlapsRange(true, v[level + 1], Some(smallest), Some(largest));
        if overlap { break; }
        var overlaps, _, _ := GetOverlappingInputs(level + 2, v[level + 2], Some(smallest), Some(largest));
        if TotalFileSize(overlaps) > maxGrandparentBytes { break; }
        level := level + 1;
      }
    }
  }

  function BatchEntry(op: (ValueType, UserKey, string), sequence: nat): Entry {
    Entry(InternalKey(op.1, sequence, op.0), op.2)
  }

  /** The history once a batch is in: consecutive sequence numbers, in batch order. */
  ghost function AfterBatch(history: set<Entry>, batch: seq<(ValueType, UserKey, string)>, last: nat): set<Entry> {
    if batch == [] then history
    else
      var n := |batch| - 1;
      AfterBatch(history, batch[..n], last) + {BatchEntry(batch[n], last + 1 + n)}
  }

  /** The first `i` operations of the batch are in. */
  ghost predicate HasBatch(now: set<Entry>, history: set<Entry>, batch: seq<(ValueType, UserKey, string)>, i: nat, last: nat) {
    i <= |batch| && now == AfterBatch(history, batch[..i], last)
  }

  lemma AfterBatchStep(now: set<Entry>, before: set<Entry>, history: set<Entry>, batch: seq<(ValueType, UserKey, string)>,
                       i: nat, last: nat, sequence: nat)
    requires i < |batch| && sequence == last + i + 1 && HasBatch(before, history, batch, i, last)
    requires now == before + {BatchEntry(batch[i], sequence)}
    ensures HasBatch(now, history, batch, i + 1, last)
  {
    assert batch[..i + 1][..i] == batch[..i];
  }

  // ---- Flush ----

  lemma FlushedFileFacts(f: FileMeta, mem: seq<Entry>, es: seq<Entry>, v: Version, next: nat,
                         history: set<Entry>, last: nat)
    requires es != [] && f == TableFile(next, f.size, es)
    requires Good(mem, es, v, next, history, last) && last <= MAX_SEQUENCE
    ensures FilesGood(v, next) == true && ValidFile(f) == true && NewestFile(v, f) == true
  {
    forall e | e in es ensures e.key.sequence <= MAX_SEQUENCE {
      assert e in Stored(mem, es, v);
    }
    TableFileValid(next, f.size, es);
    NewestFileFacts(v, f, mem, es);
  }

  lemma NewestFileFacts(v: Version, f: FileMeta, mem: seq<Entry>, es: seq<Entry>)
    requires MemoryNewest(mem, es, v) && f.entries == es && Numbered(v, f.number)
    ensures NewestFile(v, f)
  {
    SeenOnLevel(v);
    forall l, g, d | 0 <= l < |v| && g in v[l] && d in g.entries ensures d in AllEntries(v) {
      InVersion(v, l, g, d);
    }
  }

  lemma OverlapMeansShared(v: Version, level: nat, f: FileMeta)
    requires level < |v|
    requires level > 0 ==> forall l :: 0 <= l <= level ==> !LevelOverlaps(v[l], f.smallest.user, f.largest.user)
    ensures RoomAt(v, level, f)
  {
    if level > 0 {
      forall l, g | 0 <= l <= level && g in v[l] ensures !ShareUserKeys(f, g) {
        assert !Overlaps(g, Some(f.smallest.user), Some(f.largest.user));
      }
    }
  }

  lemma FlushEdit(v: Version, v': Version, level: nat, f: FileMeta)
    requires OrderedVersion(v) && OrderedVersion(v') && level < NUM_LEVELS
    requires Installed(v, VersionEdit({}, [(level, f)]), v')
    ensures Flushed(v, v', level, f)
  {
    var e := VersionEdit({}, [(level, f)]);
    forall l | 0 <= l < NUM_LEVELS
      ensures NumbersDeleted(e, l) == {} && FilesAdded(e, l) == if l == level then {f} else {}
    {
      assert (level, f) in e.added;
    }
    forall l, g | 0 <= l < NUM_LEVELS ensures g in v'[l] <==> g in v[l] || (l == level && g == f) {
      assert g in v'[l] <==> g in FilesOf(v'[l]);
    }
    forall l | 0 <= l < NUM_LEVELS && l != level ensures v'[l] == v[l] {
      OrderedUnique(v'[l], v[l]);
    }
  }

  lemma FlushedNumbered(v: Version, v': Version, level: nat, f: FileMeta, next: nat)
    requires Numbered(v, next) && Flushed(v, v', level, f) && f.number == next
    ensures Numbered(v', next + 1)
  {
    SeenOnLevel(v);
    forall l, g | OnLevel(v', l, g)
      ensures (g.number < next ==> g in v[l]) && (g.number >= next ==> l == level && g == f) && g.number <= next
    {
      if g !in v[l] { assert l == level && g == f; }
    }
  }

  // ---- One compaction, from inputs to reads ----

  /** One sorted stream of all input entries: what the merging iterator yields. */
  method SortEntries(S: set<Entry>) returns (es: seq<Entry>)
    requires UniqueSequences(S)
    ensures Sorted(es) && Contents(es) == S
  {
    es := [];
    var rest := S;
    while rest != {}
      invariant rest <= S && Sorted(es) && Contents(es) == S - rest
      decreases rest
    {
      var e :| e in rest;
      assert forall d :: d in es ==> d in Contents(es);
      InsertKeepsSorted(es, e);
      InsertContents(es, e);
      es := Insert(es, e);
      rest := rest - {e};
    }
  }

  lemma OutputsAreRest(v: Version, level: nat, in0: seq<FileMeta>, in1: seq<FileMeta>, input: seq<Entry>,
                       smallest: nat, outputs: seq<seq<Entry>>, next: nat, size: seq<Entry> -> nat)
    requires Sorted(input) && Contents(input) == LevelEntries(in0 + in1) && SequencesFit(input)
    requires [] !in outputs && Flatten(outputs) == Kept(v, level, input, smallest, |input|)
    ensures var outs := TableFiles(outputs, next, size);
            && GoodOutputs(outs, in0 + in1)
            && LevelEntries(outs) == LevelEntries(in0 + in1) - DroppedSet(v, level, input, smallest)
    ensures DroppedSet(v, level, input, smallest) <= LevelEntries(in0 + in1)
  {
    var outs := TableFiles(outputs, next, size);
    KeptSorted(v, level, input, smallest, |input|);
    KeptIsRest(v, level, input, smallest);
    assert forall e :: e in Flatten(outputs) ==> e in Contents(Flatten(outputs));
    TableFilesValid(outputs, next, size);
    TableFilesContents(outputs, next, size);
    forall o, e | o in outs && e in o.entries ensures EntryOf(in0 + in1, e) {
      assert e in LevelEntries(outs);
    }
    forall e | e in DroppedSet(v, level, input, smallest) ensures e in Contents(input) {}
  }

  lemma AdditionsFresh(v: Version, level: nat, outs: seq<FileMeta>)
    requires |v| == NUM_LEVELS && level < NUM_LEVELS && NewNumbers(v[level], outs)
    ensures OwnPlaces(v, seq(NUM_LEVELS, _ => []), AdditionsAt(level, outs))
  {
    var added := AdditionsAt(level, outs);
    forall a | a in added ensures a.0 == level && NumbersApart(v[level], [a.1]) {
      assert a.1 in outs;
    }
  }

  /** A compaction takes exactly what it drops away from what is stored; reads at live snapshots survive it if and
      only if it uncovers nothing. */
  lemma CompactedReads(mem: seq<Entry>, imm: seq<Entry>, v: Version, v': Version, level: nat,
                       in0: seq<FileMeta>, in1: seq<FileMeta>, input: seq<Entry>, smallest: nat)
    requires Inputs(v, level, in0, in1, input, Stored(mem, imm, v)) == true && MemoryNewest(mem, imm, v) == true
    requires AllEntries(v') == AllEntries(v) - DroppedSet(v, level, input, smallest)
    ensures Stored(mem, imm, v') == Stored(mem, imm, v) - DroppedSet(v, level, input, smallest)
    ensures SameReads(Stored(mem, imm, v'), Stored(mem, imm, v), smallest)
            == UncoversNothing(v, level, in1, input, smallest, Stored(mem, imm, v))
  {
    var S, D := Stored(mem, imm, v), DroppedSet(v, level, input, smallest);
    InvisibleIffCovered(v, level, in0, in1, input, smallest, S);
    DroppedNotInMemory(mem, imm, v, level, in0, in1, input, smallest, S);
    StoredWithout(mem, imm, v, v', D);
  }

  lemma StoredWithout(mem: seq<Entry>, imm: seq<Entry>, v: Version, v': Version, D: set<Entry>)
    requires AllEntries(v') == AllEntries(v) - D && forall e :: e in D ==> e !in mem && e !in imm
    ensures Stored(mem, imm, v') == Stored(mem, imm, v) - D
  {}

  lemma FewerFilesNewest(mem: seq<Entry>, imm: seq<Entry>, v: Version, v': Version)
    requires MemoryNewest(mem, imm, v) && AllEntries(v') <= AllEntries(v)
    ensures MemoryNewest(mem, imm, v')
  {}

  lemma InputsUnique(v: Version, level: nat, in0: seq<FileMeta>, in1: seq<FileMeta>)
    requires GoodInputs(v, level, in0, in1)
    ensures UniqueSequences(LevelEntries(in0 + in1))
    ensures forall e :: e in LevelEntries(in0 + in1) ==> e.key.sequence <= MAX_SEQUENCE
  {
    InputsValid(v, level, in0, in1);
    forall e | e in LevelEntries(in0 + in1) ensures e in AllEntries(v) && e.key.sequence <= MAX_SEQUENCE {
      var h :| h in in0 + in1 && e in h.entries;
      InVersion(v, if h in in0 then level else level + 1, h, e);
    }
  }

  lemma DroppedNotInMemory(mem: seq<Entry>, imm: seq<Entry>, v: Version, level: nat,
                           in0: seq<FileMeta>, in1: seq<FileMeta>, input: seq<Entry>, smallest: nat, S: set<Entry>)
    requires Inputs(v, level, in0, in1, input, S) && MemoryNewest(mem, imm, v)
    ensures forall e :: e in DroppedSet(v, level, input, smallest) ==> e !in mem && e !in imm
  {
    InputsAreStored(v, level, in0, in1, input, S);
    forall e | e in DroppedSet(v, level, input, smallest) ensures e in AllEntries(v) {
      assert e in Contents(input);
    }
  }

  /** Apply an edit to a version through a builder (version_set.cc:816-821, 867-869). */
  method LogAndApply(v: Version, edit: VersionEdit) returns (v': Version)
    requires OrderedVersion(v) && ValidEdit(edit)
    requires OwnPlaces(v, seq(NUM_LEVELS, _ => []), edit.added)
    ensures OrderedVersion(v') && Installed(v, edit, v')
  {
    var builder := new Builder(v);
    assert builder.addedFiles == seq(NUM_LEVELS, _ => []);
    builder.Apply(edit);
    v' := builder.SaveTo();
  }

  ghost predicate FilesGood(v: Version, next: nat) {
    ValidVersion(v) == true && OrderedVersion(v) == true && Numbered(v, next) == true
  }

  /** The outputs of a compaction, installed (db_impl.cc:838-850, 1040-1050). */
  method InstallOutputs(v: Version, level: nat, in0: seq<FileMeta>, in1: seq<FileMeta>, outs: seq<FileMeta>,
                        ghost next: nat, ghost next': nat, ghost dropped: set<Entry>)
    returns (v': Version)
    requires FilesGood(v, next) && GoodInputs(v, level, in0, in1) == true && GoodOutputs(outs, in0 + in1) == true
    requires NewNumbers(v[level + 1], outs)
    requires LevelEntries(outs) == LevelEntries(in0 + in1) - dropped && dropped <= LevelEntries(in0 + in1)
    ensures Replaced(v, v', level, in0, in1, outs) == true && ValidVersion(v') == true && OrderedVersion(v') == true
    ensures AllEntries(v') == AllEntries(v) - dropped
  {
    AdditionsFresh(v, level + 1, outs);
    v' := LogAndApply(v, CompactionEdit(level, in0, in1, outs));
    InputsValid(v, level, in0, in1);
    EditReplaces(v, v', level, next, in0, in1, outs);
    CompactionKeepsLevels(v, v', level, in0, in1, outs);
    CompactionContents(v, v', level, in0, in1, outs, dropped);
  }

  /** What a merge makes of a version: the inputs are gone, what of them is not dropped is one level down in new files,
      and nothing else has changed. */
  ghost predicate MergedDown(v: Version, v': Version, level: nat, in0: seq<FileMeta>, in1: seq<FileMeta>, outs: seq<FileMeta>,
                         dropped: set<Entry>, next: nat, next': nat)
  {
    && Replaced(v, v', level, in0, in1, outs)
    && (forall f :: f in in0 ==> f !in v'[level])
    && (forall f :: f in in1 ==> f !in v'[level + 1])
    && (forall f :: f in outs ==> f in v'[level + 1] && next <= f.number < next')
    && LevelEntries(outs) == LevelEntries(in0 + in1) - dropped
    && AllEntries(v') == AllEntries(v) - dropped
  }

  lemma OutputsMerged(v: Version, v': Version, level: nat, in0: seq<FileMeta>, in1: seq<FileMeta>, outs: seq<FileMeta>,
                      dropped: set<Entry>, next: nat, next': nat)
    requires Numbered(v, next) && GoodInputs(v, level, in0, in1) && Replaced(v, v', level, in0, in1, outs)
    requires forall f :: f in outs ==> next <= f.number < next'
    requires LevelEntries(outs) == LevelEntries(in0 + in1) - dropped && AllEntries(v') == AllEntries(v) - dropped
    ensures MergedDown(v, v', level, in0, in1, outs, dropped, next, next') == true
  {
    SeenOnLevel(v);
    InputsValid(v, level, in0, in1);
  }

  /** A compaction of one version into the next. */
  method CompactVersion(v: Version, level: nat, in0: seq<FileMeta>, in1: seq<FileMeta>, smallest: nat, next: nat,
                        stopBefore: nat -> bool, full: seq<Entry> -> bool, size: seq<Entry> -> nat)
    returns (v': Version, next': nat, ghost input: seq<Entry>, ghost outs: seq<FileMeta>)
    requires FilesGood(v, next) && GoodInputs(v, level, in0, in1) && smallest < MAX_SEQUENCE
    ensures FilesGood(v', next')
    ensures Sorted(input) && Contents(input) == LevelEntries(in0 + in1)
    ensures MergedDown(v, v', level, in0, in1, outs, DroppedSet(v, level, input, smallest), next, next') == true
  {
    InputsUnique(v, level, in0, in1);
    var merged := SortEntries(LevelEntries(in0 + in1));
    input := merged;
    var outputs;
    ghost var bounds;
    outputs, bounds := DoCompactionWork(v, level, merged, smallest, stopBefore, full);
    var files := TableFiles(outputs, next, size);
    outs := files;
    OutputsAreRest(v, level, in0, in1, input, smallest, outputs, next, size);
    FreshNumbers(v, next, level + 1, outputs, size);
    v' := InstallOutputs(v, level, in0, in1, files, next, next + |outputs|, DroppedSet(v, level, input, smallest));
    next' := next + |outputs|;
    TableFileNumbers(outputs, next, size);
    ReplacedNumbered(v, v', level, next, in0, in1, outs, next');
    OutputsMerged(v, v', level, in0, in1, outs, DroppedSet(v, level, input, smallest), next, next');
  }

  lemma MovedNumbered(v: Version, v': Version, level: nat, next: nat, f: FileMeta)
    requires Numbered(v, next) && Replaced(v, v', level, [f], [], [f]) && f in v[level]
    ensures Numbered(v', next)
  {
    SeenOnLevel(v);
    assert f in [f];
    assert f !in v'[level];
    forall l, g | OnLevel(v', l, g) ensures MovedFrom(v, level, f, l, g) {
      if l == level + 1 {
        assert g in v[l] || g in [f];
      }
    }
    forall l, m, g, h | OnLevel(v', l, g) && OnLevel(v', m, h) && g.number == h.number ensures l == m && g == h {
      assert MovedFrom(v, level, f, l, g) && MovedFrom(v, level, f, m, h);
    }
  }

  /** Where a file of the new version was before the move. */
  ghost predicate MovedFrom(v: Version, level: nat, f: FileMeta, l: nat, g: FileMeta)
    requires l < |v| && level < |v|
  {
    if g == f then l == level + 1 && g in v[level] else g in v[l]
  }

  /** A flushed memtable, installed where nothing overlaps it (db_impl.cc:501-533). */
  method FlushVersion(v: Version, f: FileMeta, maxGrandparentBytes: nat) returns (v': Version)
    requires FilesGood(v, f.number) == true && ValidFile(f) == true && NewestFile(v, f) == true
    ensures FilesGood(v', f.number + 1) == true && AllEntries(v') == AllEntries(v) + Contents(f.entries)
    ensures FlushedDown(v, v', f, maxGrandparentBytes) == true
  {
    var level := PickLevelForMemTableOutput(v, f.smallest.user, f.largest.user, maxGrandparentBytes);
    OverlapMeansShared(v, level, f);
    FlushAdditionFresh(v, level, f);
    v' := LogAndApply(v, VersionEdit({}, [(level, f)]));
    FlushedGood(v, v', level, f);
    FlushedSomewhere(v, v', f, maxGrandparentBytes, level);
  }

  /** The version with one file more, on a level where a flush may put it. */
  ghost predicate FlushedDown(v: Version, v': Version, f: FileMeta, maxGrandparentBytes: nat)
    requires |v| == NUM_LEVELS
  {
    exists level :: OutputLevel(v, f.smallest.user, f.largest.user, maxGrandparentBytes, level) && Flushed(v, v', level, f)
  }

  lemma FlushedSomewhere(v: Version, v': Version, f: FileMeta, maxGrandparentBytes: nat, level: nat)
    requires |v| == NUM_LEVELS && Flushed(v, v', level, f) == true
    requires OutputLevel(v, f.smallest.user, f.largest.user, maxGrandparentBytes, level) == true
    ensures FlushedDown(v, v', f, maxGrandparentBytes)
  {}

  lemma FlushAdditionFresh(v: Version, level: nat, f: FileMeta)
    requires |v| == NUM_LEVELS && level < NUM_LEVELS && NewestFile(v, f)
    ensures OwnPlaces(v, seq(NUM_LEVELS, _ => []), [(level, f)])
  {
    assert NumbersApart(v[level], [f]);
  }

  lemma FlushedGood(v: Version, v': Version, level: nat, f: FileMeta)
    requires FilesGood(v, f.number) && ValidFile(f) && NewestFile(v, f)
    requires OrderedVersion(v') && level < NUM_LEVELS && RoomAt(v, level, f)
    requires Installed(v, VersionEdit({}, [(level, f)]), v')
    ensures FilesGood(v', f.number + 1) && AllEntries(v') == AllEntries(v) + Contents(f.entries)
    ensures Flushed(v, v', level, f) == true
  {
    FlushEdit(v, v', level, f);
    FlushKeepsLevels(v, v', level, f);
    FlushContents(v, v', level, f);
    FlushedNumbered(v, v', level, f, f.number);
  }

  ghost predicate SnapshotsOrdered(snapshots: seq<nat>, last: nat) {
    && (forall i, j :: 0 <= i < j < |snapshots| ==> snapshots[i] <= snapshots[j])
    && (forall i :: 0 <= i < |snapshots| ==> snapshots[i] <= last)
  }

  /** The sequence number a compaction must respect (db_impl.cc:867-871). */
  function SmallestSnapshot(snapshots: seq<nat>, last: nat): nat {
    if snapshots == [] then last else snapshots[0]
  }

  /** The oldest snapshot is the smallest (snapshot.h:46-86). */
  lemma OldestIsSmallest(snapshots: seq<nat>, last: nat)
    requires SnapshotsOrdered(snapshots, last)
    ensures forall s :: s in snapshots ==> SmallestSnapshot(snapshots, last) <= s
    ensures SmallestSnapshot(snapshots, last) <= last
  {}

  /** What is held was written, and every number was given out once. */
  ghost predicate HistoryHolds(held: set<Entry>, history: set<Entry>, last: nat) {
    UniqueSequences(history) && held <= history && forall e :: e in history ==> e.key.sequence <= last
  }

  /** The invariant of the structure, on values: files, memtables and history.  (`== true` has the verifier treat
      each part as one fact instead of unfolding all three wherever the whole is stated.) */
  ghost predicate Good(mem: seq<Entry>, imm: seq<Entry>, v: Version, next: nat, history: set<Entry>, last: nat) {
    && FilesGood(v, next) == true
    && MemoryNewest(mem, imm, v) == true
    && HistoryHolds(Stored(mem, imm, v), history, last) == true
  }

  /** What holds of the database at every moment, whatever the compactions have uncovered. */
  ghost predicate Sound(mem: seq<Entry>, imm: seq<Entry>, v: Version, next: nat, history: set<Entry>, snapshots: seq<nat>,
                        last: nat)
  {
    last < MAX_SEQUENCE && SnapshotsOrdered(snapshots, last) == true && Good(mem, imm, v, next, history, last) == true
  }

  lemma EmptyIsGood(v: Version)
    requires v == seq(NUM_LEVELS, _ => [])
    ensures Good([], [], v, 2, {}, 0) && Stored([], [], v) == {}
  {
    assert Stored([], [], v) == {};
  }

  lemma GoodVersion(mem: seq<Entry>, imm: seq<Entry>, v: Version, next: nat, history: set<Entry>, last: nat)
    requires Good(mem, imm, v, next, history, last)
    ensures FilesGood(v, next) && UniqueSequences(AllEntries(v)) && MemoryNewest(mem, imm, v)
    ensures UniqueSequences(Stored(mem, imm, v))
  {
    SubsetUnique(history, Stored(mem, imm, v));
    SubsetUnique(history, AllEntries(v));
  }

  lemma SameFilesKeepGood(mem: seq<Entry>, imm: seq<Entry>, v: Version, v': Version, next: nat,
                          history: set<Entry>, last: nat)
    requires Good(mem, imm, v, next, history, last)
    requires FilesGood(v', next) && AllEntries(v') == AllEntries(v)
    ensures Good(mem, imm, v', next, history, last) == true && Stored(mem, imm, v') == Stored(mem, imm, v)
  {
    assert Stored(mem, imm, v') == Stored(mem, imm, v);
  }

  lemma AddKeepsGood(mem: seq<Entry>, imm: seq<Entry>, v: Version, next: nat, history: set<Entry>, last: nat, e: Entry)
    requires Good(mem, imm, v, next, history, last) && e.key.sequence == last + 1
    ensures Good(Insert(mem, e), imm, v, next, history + {e}, last + 1) == true
    ensures Stored(Insert(mem, e), imm, v) == Stored(mem, imm, v) + {e}
  {
    var held := Stored(mem, imm, v);
    InsertNewest(mem, imm, v, e, last, held);
    assert Stored(Insert(mem, e), imm, v) == held + {e} by { InsertContents(mem, e); }
  }

  /** What is held reads like the whole history, at the smallest live snapshot and after. */
  ghost predicate ReadsRight(held: set<Entry>, history: set<Entry>, snapshots: seq<nat>, last: nat) {
    SameReads(held, history, SmallestSnapshot(snapshots, last)) == true
  }

  /** The memtable `mem'` has one update more; the structure is kept, and reads that were right stay right, at the
      snapshots still live. */
  ghost predicate Updated(mem: seq<Entry>, mem': seq<Entry>, imm: seq<Entry>, v: Version, next: nat, history: set<Entry>,
                          snapshots: seq<nat>, last: nat, e: Entry)
  {
    && Contents(mem') == Contents(mem) + {e}
    && Sound(mem', imm, v, next, history + {e}, snapshots, last + 1) == true
    && (ReadsRight(Stored(mem, imm, v), history, snapshots, last) ==>
          ReadsRight(Stored(mem', imm, v), history + {e}, snapshots, last + 1) == true)
  }

  lemma InsertUpdates(mem: seq<Entry>, imm: seq<Entry>, v: Version, next: nat, history: set<Entry>, snapshots: seq<nat>,
                      last: nat, e: Entry)
    requires Sound(mem, imm, v, next, history, snapshots, last) && e.key.sequence == last + 1 < MAX_SEQUENCE
    ensures Updated(mem, Insert(mem, e), imm, v, next, history, snapshots, last, e) == true
  {
    AddKeepsGood(mem, imm, v, next, history, last, e);
    InsertContents(mem, e);
    if ReadsRight(Stored(mem, imm, v), history, snapshots, last) {
      AddNewest(Stored(mem, imm, v), history, e, SmallestSnapshot(snapshots, last));
    }
  }

  lemma InsertNewest(mem: seq<Entry>, imm: seq<Entry>, v: Version, e: Entry, last: nat, held: set<Entry>)
    requires MemoryNewest(mem, imm, v) && e.key.sequence == last + 1
    requires held == Stored(mem, imm, v) && forall d :: d in held ==> d.key.sequence <= last
    ensures MemoryNewest(Insert(mem, e), imm, v)
  {
    assert forall d :: d in mem || d in imm || d in AllEntries(v) ==> d in held;
    InsertKeepsSorted(mem, e);
    InsertContents(mem, e);
    assert forall d :: d in Insert(mem, e) <==> d in Contents(Insert(mem, e));
    assert forall d :: d in mem <==> d in Contents(mem);
  }

  lemma SwitchKeepsGood(mem: seq<Entry>, v: Version, next: nat, history: set<Entry>, last: nat)
    requires Good(mem, [], v, next, history, last)
    ensures Good([], mem, v, next, history, last) && Stored([], mem, v) == Stored(mem, [], v)
  {
    assert Stored([], mem, v) == Stored(mem, [], v);
  }

  /** A read through memtables and files in order of age gives what all that is stored gives. */
  lemma ReadInOrder(mem: seq<Entry>, imm: seq<Entry>, v: Version, next: nat, history: set<Entry>, last: nat,
                    u: UserKey, s: nat)
    requires Good(mem, imm, v, next, history, last)
    ensures ValidVersion(v) && UniqueSequences(AllEntries(v))
    ensures Read(Stored(mem, imm, v), u, s)
            == if RunGet(mem, u, s).Some? then ReadOf(RunGet(mem, u, s))
               else if RunGet(imm, u, s).Some? then ReadOf(RunGet(imm, u, s))
               else Read(AllEntries(v), u, s)
  {
    GoodVersion(mem, imm, v, next, history, last);
    HeldInOrder(mem, imm, v, u, s);
  }

  lemma HeldInOrder(mem: seq<Entry>, imm: seq<Entry>, v: Version, u: UserKey, s: nat)
    requires MemoryNewest(mem, imm, v) && UniqueSequences(Stored(mem, imm, v))
    ensures UniqueSequences(AllEntries(v))
    ensures NewestEntry(Stored(mem, imm, v), u, s)
            == if RunGet(mem, u, s).Some? then RunGet(mem, u, s)
               else if RunGet(imm, u, s).Some? then RunGet(imm, u, s)
               else NewestEntry(AllEntries(v), u, s)
  {
    var files := AllEntries(v);
    var rest := Contents(imm) + files;
    SubsetUnique(Stored(mem, imm, v), rest);
    SubsetUnique(rest, files);
    assert Stored(mem, imm, v) == Contents(mem) + rest;
    NewerRunDecides(mem, rest, u, s);
    NewerRunDecides(imm, files, u, s);
  }

  /** What a flush makes of a version: one table of all of the memtable, or nothing if that is empty. */
  ghost predicate AfterFlush(v: Version, v': Version, next: nat, next': nat, es: seq<Entry>, size: nat, maxGrandparentBytes: nat)
  {
    && |v| == NUM_LEVELS
    && (es == [] ==> v' == v && next' == next)
    && (es != [] ==> next' == next + 1 && FlushedDown(v, v', TableFile(next, size, es), maxGrandparentBytes) == true)
  }

  /** Flush a memtable that follows the files in age; an empty one leaves no file. */
  method FlushMemTable(ghost mem: seq<Entry>, es: seq<Entry>, v: Version, next: nat, ghost history: set<Entry>,
                       ghost last: nat, size: nat, maxGrandparentBytes: nat)
    returns (v': Version, next': nat)
    requires Good(mem, es, v, next, history, last) == true && last <= MAX_SEQUENCE
    ensures Good(mem, [], v', next', history, last) == true && Stored(mem, [], v') == Stored(mem, es, v)
    ensures AfterFlush(v, v', next, next', es, size, maxGrandparentBytes) == true
  {
    v', next' := v, next;
    if es != [] {
      var f := TableFile(next, size, es);
      FlushedFileFacts(f, mem, es, v, next, history, last);
      v' := FlushVersion(v, f, maxGrandparentBytes);
      next' := next + 1;
    }
    FlushKeepsGood(mem, es, v, next, v', next', history, last);
  }

  lemma FlushKeepsGood(mem: seq<Entry>, es: seq<Entry>, v: Version, next: nat, v': Version, next': nat,
                       history: set<Entry>, last: nat)
    requires Good(mem, es, v, next, history, last) && FilesGood(v', next') == true
    requires AllEntries(v') == AllEntries(v) + Contents(es)
    ensures Good(mem, [], v', next', history, last) == true && Stored(mem, [], v') == Stored(mem, es, v)
  {
    MemoryAfterFlush(mem, es, v, v');
    assert Stored(mem, [], v') == Stored(mem, es, v);
  }

  ghost predicate Compacted(held: set<Entry>, held': set<Entry>, v: Version, level: nat, in0: seq<FileMeta>, in1: seq<FileMeta>,
                            input: seq<Entry>, smallest: nat)
    requires level + 1 < |v|
  {
    && Sorted(input) == true && Contents(input) == LevelEntries(in0 + in1)
    && SameReads(held', held, smallest) == UncoversNothing(v, level, in1, input, smallest, held)
  }

  /** What a compaction does to reads: if they were right at the live snapshots they are right after it if and only
      if it uncovers nothing; and it uncovers nothing if its lower inputs are closed over user keys. */
  ghost predicate ReadsKept(held: set<Entry>, held': set<Entry>, history: set<Entry>, snapshots: seq<nat>, last: nat, v: Version,
                            level: nat, in0: seq<FileMeta>, in1: seq<FileMeta>, input: seq<Entry>)
    requires level + 1 < |v|
  {
    && Sorted(input) == true && Contents(input) == LevelEntries(in0 + in1)
    && (ReadsRight(held, history, snapshots, last) ==>
          ReadsRight(held', history, snapshots, last)
          == UncoversNothing(v, level, in1, input, SmallestSnapshot(snapshots, last), held))
    && (ReadsRight(held, history, snapshots, last) && ClosedParents(v, level, in1) ==>
          ReadsRight(held', history, snapshots, last) == true)
  }

  /** One merge: what it does to the version, and what that does to reads. */
  ghost predicate Merge(held: set<Entry>, held': set<Entry>, history: set<Entry>, snapshots: seq<nat>, last: nat,
                        v: Version, v': Version, next: nat, next': nat, level: nat, in0: seq<FileMeta>, in1: seq<FileMeta>,
                        input: seq<Entry>, outs: seq<FileMeta>)
  {
    && level + 1 < |v|
    && MergedDown(v, v', level, in0, in1, outs, DroppedSet(v, level, input, SmallestSnapshot(snapshots, last)), next, next') == true
    && ReadsKept(held, held', history, snapshots, last, v, level, in0, in1, input) == true
  }

  /** A compaction keeps the structure, whatever it uncovers. */
  method CompactFiles(ghost mem: seq<Entry>, ghost imm: seq<Entry>, v: Version, next: nat, ghost history: set<Entry>,
                      snapshots: seq<nat>, last: nat, level: nat, in0: seq<FileMeta>, in1: seq<FileMeta>,
                      stopBefore: nat -> bool, full: seq<Entry> -> bool, size: seq<Entry> -> nat)
    returns (v': Version, next': nat, ghost input: seq<Entry>, ghost outs: seq<FileMeta>)
    requires Sound(mem, imm, v, next, history, snapshots, last) && GoodInputs(v, level, in0, in1) == true
    ensures Sound(mem, imm, v', next', history, snapshots, last) == true
    ensures Merge(Stored(mem, imm, v), Stored(mem, imm, v'), history, snapshots, last, v, v', next, next', level, in0, in1,
                  input, outs) == true
  {
    OldestIsSmallest(snapshots, last);
    var smallest := SmallestSnapshot(snapshots, last);
    v', next', input, outs := CompactVersion(v, level, in0, in1, smallest, next, stopBefore, full, size);
    CompactedGood(mem, imm, v, next, v', next', history, last, level, in0, in1, input, smallest);
    ReadsAfter(Stored(mem, imm, v), Stored(mem, imm, v'), history, snapshots, last, v, level, in0, in1, input);
  }

  lemma CompactedGood(mem: seq<Entry>, imm: seq<Entry>, v: Version, next: nat, v': Version, next': nat, history: set<Entry>,
                      last: nat, level: nat, in0: seq<FileMeta>, in1: seq<FileMeta>, input: seq<Entry>, smallest: nat)
    requires Good(mem, imm, v, next, history, last) == true && GoodInputs(v, level, in0, in1) == true
    requires FilesGood(v', next') == true && Sorted(input) == true && Contents(input) == LevelEntries(in0 + in1)
    requires AllEntries(v') == AllEntries(v) - DroppedSet(v, level, input, smallest)
    ensures Good(mem, imm, v', next', history, last) == true
    ensures Compacted(Stored(mem, imm, v), Stored(mem, imm, v'), v, level, in0, in1, input, smallest) == true
  {
    GoodVersion(mem, imm, v, next, history, last);
    MemoryAboveFiles(mem, imm, v);
    CompactedReads(mem, imm, v, v', level, in0, in1, input, smallest);
    FewerFilesNewest(mem, imm, v, v');
    FewerHeld(Stored(mem, imm, v), Stored(mem, imm, v'), history, last);
  }

  lemma FewerHeld(held: set<Entry>, held': set<Entry>, history: set<Entry>, last: nat)
    requires HistoryHolds(held, history, last) && held' <= held
    ensures HistoryHolds(held', history, last)
  {}

  lemma ReadsAfter(held: set<Entry>, held': set<Entry>, history: set<Entry>, snapshots: seq<nat>, last: nat, v: Version,
                   level: nat, in0: seq<FileMeta>, in1: seq<FileMeta>, input: seq<Entry>)
    requires GoodInputs(v, level, in0, in1) == true
    requires Compacted(held, held', v, level, in0, in1, input, SmallestSnapshot(snapshots, last)) == true
    ensures ReadsKept(held, held', history, snapshots, last, v, level, in0, in1, input) == true
  {
    var smallest := SmallestSnapshot(snapshots, last);
    if SameReads(held, history, smallest) {
      SameAsHistory(held, held', history, smallest);
    }
    if ClosedParents(v, level, in1) {
      forall f ensures !Uncovers(v, level, in1, input, smallest, held, f) {
        ClosureSuffices(v, level, in0, in1, f);
      }
    }
  }

  lemma SameAsHistory(held: set<Entry>, held': set<Entry>, history: set<Entry>, smallest: nat)
    requires SameReads(held, history, smallest)
    ensures SameReads(held', history, smallest) == SameReads(held', held, smallest)
  {
    if SameReads(held', held, smallest) {
      forall u, s | s >= smallest ensures Read(held', u, s) == Read(history, u, s) {
        assert Read(held, u, s) == Read(history, u, s);
      }
    }
    if SameReads(held', history, smallest) {
      forall u, s | s >= smallest ensures Read(held', u, s) == Read(held, u, s) {
        assert Read(held, u, s) == Read(history, u, s);
      }
    }
  }

  /** A trivial move: one input file, nothing below it, moved as it is (db_impl.cc:702-717). */
  method MoveFile(v: Version, level: nat, f: FileMeta, ghost next: nat) returns (v': Version)
    requires FilesGood(v, next) && GoodInputs(v, level, [f], [])
    ensures FilesGood(v', next) && AllEntries(v') == AllEntries(v)
    ensures Replaced(v, v', level, [f], [], [f]) == true
  {
    InputsValid(v, level, [f], []);
    assert f in [f] && f in v[level];
    assert [f] + [] == [f];
    assert GoodOutputs([f], [f] + []) by {
      forall e | e in f.entries ensures EntryOf([f], e) { assert f in [f]; }
    }
    assert NewNumbers(v[level + 1], [f]) by { SeenOnLevel(v); }
    v' := InstallOutputs(v, level, [f], [], [f], next, next, {});
    MovedNumbered(v, v', level, next, f);
  }

  function RunOf(imm: Option<seq<Entry>>): seq<Entry> {
    if imm.Some? then imm.value else []
  }

  class DB {
    var mem: seq<Entry>
    var imm: Option<seq<Entry>>
    var current: Version
    var lastSequence: nat
    var snapshots: seq<nat>
    var nextFileNumber: nat
    /** Every version ever written. */
    ghost var history: set<Entry>

    /** The level invariant, the order of the memtables, and that all that is held was written once: what every
        operation keeps. */
    ghost predicate Valid()
      reads this
    {
      Sound(mem, RunOf(imm), current, nextFileNumber, history, snapshots, lastSequence) == true
    }

    ghost function Held(): set<Entry>
      reads this
    {
      Stored(mem, RunOf(imm), current)
    }

    function Smallest(): nat
      reads this
    {
      SmallestSnapshot(snapshots, lastSequence)
    }

    /** Every read at a live snapshot or later is answered from what is still held exactly as from the whole history:
        what every operation keeps but a compaction that uncovers an old version. */
    ghost predicate Faithful()
      reads this
    {
      ReadsRight(Held(), history, snapshots, lastSequence) == true
    }

    constructor ()
      ensures Valid() && Faithful() && history == {} && snapshots == [] && lastSequence == 0
    {
      mem, imm, current := [], None, seq(NUM_LEVELS, _ => []);
      lastSequence, snapshots, nextFileNumber := 0, [], 2;
      history := {};
      new;
      EmptyIsGood(current);
    }

    // ---- Snapshots ----

    method GetSnapshot() returns (s: nat)
      requires Valid()
      modifies this`snapshots
      ensures Valid() && snapshots == old(snapshots) + [lastSequence] && s == lastSequence
      ensures old(Faithful()) ==> Faithful()
    {
      s := lastSequence;
      snapshots := snapshots + [s];
      assert Smallest() == old(Smallest());
    }

    method ReleaseSnapshot(i: nat)
      requires Valid() && i < |snapshots|
      modifies this`snapshots
      ensures Valid() && snapshots == old(snapshots)[..i] + old(snapshots)[i + 1..]
      ensures old(Faithful()) ==> Faithful()
    {
      snapshots := snapshots[..i] + snapshots[i + 1..];
      assert Smallest() >= old(Smallest()) && Held() == old(Held());
    }

    // ---- Reads ----

    /** Memtable, then immutable memtable, then the version: the same answer as all that is held gives, and as the
        whole history gives while no compaction has uncovered anything (db_impl.cc:1098-1145). */
    method Get(u: UserKey, snapshot: Option<nat>) returns (r: Option<string>)
      requires Valid() && (snapshot.Some? ==> snapshot.value in snapshots)
      ensures r == Read(Held(), u, if snapshot.Some? then snapshot.value else lastSequence)
      ensures Faithful() ==> r == Read(history, u, if snapshot.Some? then snapshot.value else lastSequence)
    {
      OldestIsSmallest(snapshots, lastSequence);
      var s := if snapshot.Some? then snapshot.value else lastSequence;
      ReadInOrder(mem, RunOf(imm), current, nextFileNumber, history, lastSequence, u, s);
      var found := RunGet(mem, u, s);
      if found.Some? { return ReadOf(found); }
      if imm.Some? {
        found := RunGet(imm.value, u, s);
        if found.Some? { return ReadOf(found); }
      }
      r := Versions.Get(current, u, s);
    }

    // ---- Writes ----

    /** Make an update part of memtable and history; `memory` is the memtable with it. */
    method Remember(op: (ValueType, UserKey, string), memory: seq<Entry>)
      requires Updated(mem, memory, RunOf(imm), current, nextFileNumber, history, snapshots, lastSequence,
                       BatchEntry(op, lastSequence + 1)) == true
      modifies this`mem, this`lastSequence, this`history
      ensures Valid() == true && lastSequence == old(lastSequence) + 1
      ensures history == old(history) + {BatchEntry(op, lastSequence)}
      ensures Contents(mem) == Contents(old(mem)) + {BatchEntry(op, lastSequence)}
      ensures old(Faithful()) ==> Faithful() == true
    {
      mem, lastSequence := memory, lastSequence + 1;
      history := history + {BatchEntry(op, lastSequence)};
    }

    /** One operation of a batch: the next sequence number, into the memtable (write_batch.cc:116-130). */
    method Add(op: (ValueType, UserKey, string))
      requires Valid() && lastSequence + 1 < MAX_SEQUENCE
      modifies this`mem, this`lastSequence, this`history
      ensures Valid() == true && lastSequence == old(lastSequence) + 1
      ensures history == old(history) + {BatchEntry(op, lastSequence)}
      ensures Contents(mem) == Contents(old(mem)) + {BatchEntry(op, lastSequence)}
      ensures old(Faithful()) ==> Faithful() == true
    {
      var e := BatchEntry(op, lastSequence + 1);
      InsertUpdates(mem, RunOf(imm), current, nextFileNumber, history, snapshots, lastSequence, e);
      Remember(op, Insert(mem, e));
    }

    /** A whole batch takes the sequence numbers right after the last one. */
    method Write(batch: seq<(ValueType, UserKey, string)>)
      requires Valid() && lastSequence + |batch| < MAX_SEQUENCE
      modifies this`mem, this`lastSequence, this`history
      ensures Valid() == true && lastSequence == old(lastSequence) + |batch|
      ensures history == AfterBatch(old(history), batch, old(lastSequence))
      ensures Contents(mem) == AfterBatch(Contents(old(mem)), batch, old(lastSequence))
      ensures old(Faithful()) ==> Faithful() == true
    {
      for i := 0 to |batch|
        invariant Valid() == true && lastSequence == old(lastSequence) + i
        invariant HasBatch(history, old(history), batch, i, old(lastSequence)) == true
        invariant HasBatch(Contents(mem), Contents(old(mem)), batch, i, old(lastSequence)) == true
        invariant old(Faithful()) ==> Faithful() == true
      {
        ghost var before, memory := history, Contents(mem);
        Add(batch[i]);
        AfterBatchStep(Contents(mem), memory, Contents(old(mem)), batch, i, old(lastSequence), lastSequence);
        AfterBatchStep(history, before, old(history), batch, i, old(lastSequence), lastSequence);
      }
      assert batch[..|batch|] == batch;
    }

    // ---- Memtable switch and flush ----

    method SwitchMemTable()
      requires Valid() && imm.None?
      modifies this`mem, this`imm
      ensures Valid() && mem == [] && imm == Some(old(mem)) && Held() == old(Held())
      ensures old(Faithful()) ==> Faithful()
    {
      SwitchKeepsGood(mem, current, nextFileNumber, history, lastSequence);
      imm, mem := Some(mem), [];
    }

    /** Go on with another version. */
    method Install(version: Version, next: nat)
      requires Sound(mem, RunOf(imm), version, next, history, snapshots, lastSequence) == true
      modifies this`current, this`nextFileNumber
      ensures Valid() == true && current == version && nextFileNumber == next
      ensures Held() == Stored(mem, RunOf(imm), version)
    {
      current, nextFileNumber := version, next;
    }

    /** Write the immutable memtable as a table file, as deep as nothing overlaps it (db_impl.cc:535-566). */
    method CompactMemTable(size: nat, maxGrandparentBytes: nat)
      requires Valid() && imm.Some?
      modifies this`imm, this`current, this`nextFileNumber
      ensures Valid() && imm.None? && Held() == old(Held())
      ensures AfterFlush(old(current), current, old(nextFileNumber), nextFileNumber, old(RunOf(imm)), size,
                         maxGrandparentBytes) == true
      ensures old(Faithful()) ==> Faithful() == true
    {
      var version, next := FlushMemTable(mem, imm.value, current, nextFileNumber, history, lastSequence,
                                         size, maxGrandparentBytes);
      imm := None;
      Install(version, next);
    }

    // ---- Compaction ----

    /** Compact: the structure is kept; the reads at live snapshots are if and only if the file after the lower inputs
        does not begin with a value that one of the dropped tombstones was hiding. */
    method Compact(level: nat, in0: seq<FileMeta>, in1: seq<FileMeta>,
                   stopBefore: nat -> bool, full: seq<Entry> -> bool, size: seq<Entry> -> nat)
      returns (ghost input: seq<Entry>, ghost outs: seq<FileMeta>)
      requires Valid() && GoodInputs(current, level, in0, in1) == true
      modifies this`current, this`nextFileNumber
      ensures Valid()
      ensures Merge(old(Held()), Held(), history, snapshots, lastSequence, old(current), current,
                    old(nextFileNumber), nextFileNumber, level, in0, in1, input, outs) == true
    {
      var version, next;
      version, next, input, outs :=
        CompactFiles(mem, RunOf(imm), current, nextFileNumber, history, snapshots, lastSequence,
                     level, in0, in1, stopBefore, full, size);
      Install(version, next);
    }

    method TrivialMove(level: nat, f: FileMeta)
      requires Valid() && GoodInputs(current, level, [f], []) == true
      modifies this`current, this`nextFileNumber
      ensures Valid() && Held() == old(Held()) && nextFileNumber == old(nextFileNumber)
      ensures old(Faithful()) ==> Faithful()
      ensures Replaced(old(current), current, level, [f], [], [f]) == true
    {
      var version := MoveFile(current, level, f, nextFileNumber);
      SameFilesKeepGood(mem, RunOf(imm), current, version, nextFileNumber, history, lastSequence);
      Install(version, nextFileNumber);
    }

    /** An automatic compaction from any one file: the inputs SetupOtherInputs completes, moved when trivial,
        merged otherwise (db_impl.cc:668-735). */
    method BackgroundCompaction(level: nat, f: FileMeta, byteLimit: nat, maxGrandparentBytes: nat,
                                stopBefore: nat -> bool, full: seq<Entry> -> bool, size: seq<Entry> -> nat)
      returns (trivial: bool, ghost in0: seq<FileMeta>, ghost in1: seq<FileMeta>, ghost input: seq<Entry>,
               ghost outs: seq<FileMeta>)
      requires Valid() && level + 1 < NUM_LEVELS && f in current[level]
      modifies this`current, this`nextFileNumber
      ensures Valid() && GoodInputs(old(current), level, in0, in1) == true && f in in0
      ensures InputsFrom(old(current), level, f, byteLimit, in0, in1) == true
      ensures trivial <==> Movable(old(current), level, in0, in1, maxGrandparentBytes)
      ensures trivial ==>
                && Replaced(old(current), current, level, [f], [], [f]) == true && nextFileNumber == old(nextFileNumber)
                && Held() == old(Held()) && (old(Faithful()) ==> Faithful())
      ensures !trivial ==>
                Merge(old(Held()), Held(), history, snapshots, lastSequence, old(current), current,
                      old(nextFileNumber), nextFileNumber, level, in0, in1, input, outs) == true
    {
      GoodVersion(mem, RunOf(imm), current, nextFileNumber, history, lastSequence);
      var upper, lower := ChooseInputs(current, level, f, byteLimit);
      trivial := IsTrivialMove(current, level, upper, lower, maxGrandparentBytes);
      in0, in1, input, outs := upper, lower, [], [];
      if trivial {
        TrivialMove(level, upper[0]);
      } else {
        input, outs := Compact(level, upper, lower, stopBefore, full, size);
      }
    }
  }

  /** One input file, nothing below it, and not too much two levels down (version_set.cc:1515-1523). */
  ghost predicate Movable(v: Version, level: nat, in0: seq<FileMeta>, in1: seq<FileMeta>, maxGrandparentBytes: nat)
    requires |v| == NUM_LEVELS
  {
    |in0| == 1 && |in1| == 0 && (level + 2 < NUM_LEVELS ==>
      RoomBelow(v[level + 2], in0[0].smallest.user, in0[0].largest.user, maxGrandparentBytes))
  }

  /** The inputs of a compaction from file `f`. */
  ghost predicate InputsFrom(v: Version, level: nat, f: FileMeta, byteLimit: nat, in0: seq<FileMeta>, in1: seq<FileMeta>)
    requires level + 1 < |v|
  {
    exists inputs, base, wide ::
      && Picked(level, v[level], f, inputs) == true && BoundaryClosure(v[level], inputs, base) == true
      && SetUp(v, level, byteLimit, base, wide, in0, in1) == true
  }

  method ChooseInputs(v: Version, level: nat, f: FileMeta, byteLimit: nat)
    returns (in0: seq<FileMeta>, in1: seq<FileMeta>)
    requires ValidVersion(v) && UniqueSequences(AllEntries(v)) && level + 1 < NUM_LEVELS && f in v[level]
    ensures GoodInputs(v, level, in0, in1) == true && f in in0
    ensures InputsFrom(v, level, f, byteLimit, in0, in1) == true
  {
    var inputs := PickInputs(level, v[level], f);
    ghost var base, wide;
    in0, in1, base, wide := SetupOtherInputs(v, level, inputs, byteLimit);
  }

  method IsTrivialMove(v: Version, level: nat, in0: seq<FileMeta>, in1: seq<FileMeta>, maxGrandparentBytes: nat)
    returns (r: bool)
    requires ValidVersion(v) && level + 1 < NUM_LEVELS
    ensures r ==> |in0| == 1 && in0 == [in0[0]] && in1 == []
    ensures r <==> Movable(v, level, in0, in1, maxGrandparentBytes)
  {
    r := |in0| == 1 && |in1| == 0;
    if r && level + 2 < NUM_LEVELS {
      var grandparents, _, _ := GetOverlappingInputs(level + 2, v[level + 2], Some(in0[0].smallest.user),
                                                     Some(in0[0].largest.user));
      r := TotalFileSize(grandparents) <= maxGrandparentBytes;
    }
  }

  lemma MemoryAfterFlush(mem: seq<Entry>, es: seq<Entry>, v: Version, v': Version)
    requires MemoryNewest(mem, es, v) && AllEntries(v') == AllEntries(v) + Contents(es)
    ensures MemoryNewest(mem, [], v')
  {}
}
