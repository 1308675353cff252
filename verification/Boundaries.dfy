/** When a compaction brings an old version back (db/version_set SetupOtherInputs against the drop rules of
    db_impl.cc DoCompactionWork).

    The files taken at the input level are closed over user keys, those taken one level down are not: the last of
    them may end, and the next file of the level begin, within one user key.  Whether a dropped tombstone uncovers
    anything depends on that one file only.
 */
module Boundaries {
  import opened Options
  import opened InternalKeys
  import opened Versions
  import opened CompactionInputs
  import opened Compactions
  import opened LevelInvariant

  /** What is in a set besides the files of the version is newer than all of them. */
  ghost predicate FilesOldest(S: set<Entry>, v: Version) {
    && AllEntries(v) <= S && UniqueSequences(S)
    && forall e, d :: e in S && e !in AllEntries(v) && d in AllEntries(v) ==> d.key.sequence < e.key.sequence
  }

  /** The files of the lower level end at `i`, and the next one goes on with the same user key. */
  predicate ContinuesAt(fs: seq<FileMeta>, in1: seq<FileMeta>, i: nat, f: FileMeta) {
    i + 1 < |fs| && fs[i] in in1 && fs[i + 1] == f && f !in in1 && fs[i].largest.user == f.smallest.user
  }

  predicate Continues(fs: seq<FileMeta>, in1: seq<FileMeta>, f: FileMeta) {
    exists i :: 0 <= i < |fs| && ContinuesAt(fs, in1, i, f)
  }

  /** The file left behind begins with a value of a user key whose newest version at the smallest live snapshot is
      a tombstone among the inputs, with nothing of that key further down. */
  ghost predicate Uncovers(v: Version, level: nat, in1: seq<FileMeta>, input: seq<Entry>, smallest: nat, S: set<Entry>, f: FileMeta)
    requires level + 1 < |v|
  {
    && Continues(v[level + 1], in1, f) && f.smallest.kind == Value && BaseLevel(v, level, f.smallest.user)
    && exists d :: d in input && d.key.kind == Deletion && Newest(S, f.smallest.user, smallest, d)
  }

  ghost predicate UncoversNothing(v: Version, level: nat, in1: seq<FileMeta>, input: seq<Entry>, smallest: nat, S: set<Entry>)
    requires level + 1 < |v|
  {
    forall f :: !Uncovers(v, level, in1, input, smallest, S, f)
  }

  /** The inputs, and their entries in order. */
  ghost predicate Inputs(v: Version, level: nat, in0: seq<FileMeta>, in1: seq<FileMeta>, input: seq<Entry>, S: set<Entry>) {
    && GoodInputs(v, level, in0, in1) && FilesOldest(S, v) == true
    && Sorted(input) == true && Contents(input) == LevelEntries(in0 + in1)
  }

  lemma InputsAreStored(v: Version, level: nat, in0: seq<FileMeta>, in1: seq<FileMeta>, input: seq<Entry>, S: set<Entry>)
    requires Inputs(v, level, in0, in1, input, S)
    ensures Contents(input) <= AllEntries(v) <= S && UniqueSequences(S - Contents(input))
  {
    InputsValid(v, level, in0, in1);
    forall e | e in Contents(input) ensures e in AllEntries(v) {
      var h :| h in in0 + in1 && e in h.entries;
      InVersion(v, if h in in0 then level else level + 1, h, e);
    }
    SubsetUnique(S, S - Contents(input));
  }

  /** A file that is not an input is newer than an input file, shares no user key with it, lies two or more levels
      down, or is one level down like the input. */
  lemma OutsideInputs(v: Version, level: nat, in0: seq<FileMeta>, in1: seq<FileMeta>, l: nat, f: FileMeta, h: FileMeta)
    requires GoodInputs(v, level, in0, in1)
    requires l < level + 2 && f in v[l] && f !in in0 + in1 && h in in0 + in1
    ensures Newer(f, h) || !ShareUserKeys(f, h) || (l == level + 1 && h in in1)
  {
    InputsValid(v, level, in0, in1);
    if h in in0 {
      if l == level { RemainingNewer(v, level, in0, f, h); }
      if l == level + 1 { ParentsOnOneSide(v, level, in0, in1, f); }
    }
  }

  lemma InLower(v: Version, level: nat, in0: seq<FileMeta>, in1: seq<FileMeta>, l: nat, f: FileMeta, c: Entry,
                h: FileMeta, d: Entry)
    requires GoodInputs(v, level, in0, in1) && BaseLevel(v, level, d.key.user)
    requires l < |v| && f in v[l] && c in f.entries && f !in in0 + in1 && h in in0 + in1 && d in h.entries
    requires c.key.user == d.key.user && c.key.sequence < d.key.sequence
    ensures l == level + 1 && h in in1
  {
    InputsValid(v, level, in0, in1);
    SharedAndOlder(f, c, h, d);
    if l < level + 2 {
      OutsideInputs(v, level, in0, in1, l, f, h);
    }
  }

  lemma SharedAndOlder(f: FileMeta, c: Entry, h: FileMeta, d: Entry)
    requires ValidFile(f) && ValidFile(h) && c in f.entries && d in h.entries
    requires c.key.user == d.key.user && c.key.sequence < d.key.sequence
    ensures f.smallest.user <= d.key.user <= f.largest.user && ShareUserKeys(f, h) && !Newer(f, h)
  {
    FileBounds(f, c);
    FileBounds(h, d);
  }

  lemma LowerAndAfter(v: Version, level: nat, in0: seq<FileMeta>, in1: seq<FileMeta>, f: FileMeta, c: Entry,
                      h: FileMeta, d: Entry)
    requires GoodInputs(v, level, in0, in1) && f in v[level + 1] && c in f.entries && f !in in1 && h in in1 && d in h.entries
    requires c.key.user == d.key.user && c.key.sequence < d.key.sequence
    ensures AfterAll(f, in0 + in1) && h.largest.user == f.smallest.user == d.key.user
  {
    InputsValid(v, level, in0, in1);
    assert h in in0 + in1;
    FileBounds(f, c);
    FileBounds(h, d);
    ParentsOnOneSide(v, level, in0, in1, f);
    if BeforeAll(f, in0 + in1) {
      ApartEntries(f, h, c, d);
    }
  }

  lemma HomesOf(v: Version, level: nat, in0: seq<FileMeta>, in1: seq<FileMeta>, c: Entry, d: Entry)
    returns (l: nat, f: FileMeta, h: FileMeta)
    requires c in AllEntries(v) && c !in LevelEntries(in0 + in1) && d in LevelEntries(in0 + in1)
    ensures l < |v| && f in v[l] && c in f.entries && f !in in0 + in1 && h in in0 + in1 && d in h.entries
  {
    h :| h in in0 + in1 && d in h.entries;
    l, f :| 0 <= l < |v| && f in v[l] && c in f.entries;
  }

  /** A version left behind that is older than an input's is in a lower file after all inputs. */
  lemma OlderOutside(v: Version, level: nat, in0: seq<FileMeta>, in1: seq<FileMeta>, input: seq<Entry>, S: set<Entry>,
                     c: Entry, d: Entry) returns (f: FileMeta, h: FileMeta)
    requires Inputs(v, level, in0, in1, input, S) && BaseLevel(v, level, d.key.user)
    requires d in input && c in S && c !in input && c.key.user == d.key.user && c.key.sequence < d.key.sequence
    ensures f in v[level + 1] && f !in in1 && c in f.entries && h in in1 && AfterAll(f, in0 + in1)
    ensures h.largest.user == f.smallest.user == d.key.user
  {
    InputsAreStored(v, level, in0, in1, input, S);
    assert d in Contents(input) && c !in Contents(input);
    assert c in AllEntries(v);
    var l;
    l, f, h := HomesOf(v, level, in0, in1, c, d);
    InLower(v, level, in0, in1, l, f, c, h, d);
    LowerAndAfter(v, level, in0, in1, f, c, h, d);
  }

  lemma InputSlice(v: Version, level: nat, in0: seq<FileMeta>, in1: seq<FileMeta>) returns (lo: nat, hi: nat)
    requires GoodInputs(v, level, in0, in1)
    ensures lo <= hi <= |v[level + 1]| && in1 == v[level + 1][lo..hi]
  {
    var fs := v[level + 1];
    lo, hi := OverlappingIsSlice(fs, Some(SmallestKey(in0).user), Some(LargestKey(in0).user), |fs|);
    assert fs[..|fs|] == fs;
  }

  /** Only the file right after the lower inputs can go on with their last user key. */
  lemma ContinuesNext(v: Version, level: nat, in0: seq<FileMeta>, in1: seq<FileMeta>, lo: nat, hi: nat, f: FileMeta)
    requires GoodInputs(v, level, in0, in1) && lo <= hi <= |v[level + 1]| && in1 == v[level + 1][lo..hi]
    requires Continues(v[level + 1], in1, f)
    ensures lo < hi < |v[level + 1]| && f == v[level + 1][hi] && f !in in1 && v[level + 1][hi - 1].largest.user == f.smallest.user
  {
    var fs := v[level + 1];
    var i :| 0 <= i < |fs| && ContinuesAt(fs, in1, i, f);
    var k :| lo <= k < hi && fs[k] == fs[i];
    SameFileSamePlace(fs, i, k);
    OutsideSlice(fs, lo, hi, i + 1);
  }

  lemma OutsideSlice(fs: seq<FileMeta>, lo: nat, hi: nat, j: nat)
    requires lo <= hi <= |fs| && j < |fs| && fs[j] !in fs[lo..hi]
    ensures j < lo || hi <= j
  {}

  lemma SameFileSamePlace(fs: seq<FileMeta>, i: nat, k: nat)
    requires ValidFiles(fs) && LevelSorted(fs) && i < |fs| && k < |fs| && fs[i] == fs[k]
    ensures i == k
  {
    assert fs[i] in fs;
    FileOrdered(fs[i]);
  }

  lemma BoundaryFile(v: Version, level: nat, in0: seq<FileMeta>, in1: seq<FileMeta>, f: FileMeta, h: FileMeta) returns (g: FileMeta)
    requires GoodInputs(v, level, in0, in1) && f in v[level + 1] && f !in in1 && h in in1
    requires Less(h.largest, f.smallest) && h.largest.user == f.smallest.user
    ensures Continues(v[level + 1], in1, g) && g in v[level + 1] && g.smallest.user == f.smallest.user
    ensures g == f || Less(g.largest, f.smallest)
  {
    var fs := v[level + 1];
    var lo, hi := InputSlice(v, level, in0, in1);
    var k :| lo <= k < hi && fs[k] == h;
    var j :| 0 <= j < |fs| && fs[j] == f;
    assert j < lo || hi <= j;
    if j < k {
      LevelBounds(fs, j, k);
    }
    LevelBounds(fs, k, hi - 1);
    LevelBounds(fs, hi, j);
    g := fs[hi];
    if g in in1 {
      var m :| lo <= m < hi && fs[m] == g;
      SameFileSamePlace(fs, m, hi);
    }
    assert Less(fs[hi - 1].largest, g.smallest);
    assert fs[hi - 1] in in1;
    assert ContinuesAt(fs, in1, hi - 1, g);
  }

  lemma AfterInputs(v: Version, level: nat, in0: seq<FileMeta>, in1: seq<FileMeta>, g: FileMeta)
    requires GoodInputs(v, level, in0, in1) && Continues(v[level + 1], in1, g)
    ensures g in v[level + 1] && ValidFile(g) && AfterAll(g, in0 + in1) == true
  {
    var lo, hi := InputSlice(v, level, in0, in1);
    ContinuesNext(v, level, in0, in1, lo, hi, g);
    ParentsOnOneSide(v, level, in0, in1, g);
    InputsValid(v, level, in0, in1);
    var last := v[level + 1][hi - 1];
    assert last in in1 && last in in0 + in1 && Less(last.largest, g.smallest);
    FileOrdered(last);
    FileOrdered(g);
  }

  /** Entries of files before `g` are before its own, and none of them is its own. */
  lemma EntriesBefore(files: seq<FileMeta>, g: FileMeta, d: Entry, e: Entry)
    requires ValidFiles(files) && ValidFile(g) && AfterAll(g, files) && d in LevelEntries(files) && e in g.entries
    ensures Less(d.key, e.key) && e !in LevelEntries(files)
  {
    var h :| h in files && d in h.entries;
    ApartEntries(h, g, d, e);
    if e in LevelEntries(files) {
      var k :| k in files && e in k.entries;
      ApartEntries(k, g, e, e);
    }
  }

  /** The first entry of the boundary file is left behind, and older than every input of its user key. */
  lemma FirstBeyond(v: Version, level: nat, in0: seq<FileMeta>, in1: seq<FileMeta>, input: seq<Entry>, S: set<Entry>,
                    g: FileMeta, d: Entry)
    requires Inputs(v, level, in0, in1, input, S) && Continues(v[level + 1], in1, g)
    requires d in input && d.key.user == g.smallest.user
    ensures ValidFile(g) && g.entries[0] in S && g.entries[0] !in input && g.entries[0].key.sequence <= d.key.sequence
  {
    AfterInputs(v, level, in0, in1, g);
    InputsAreStored(v, level, in0, in1, input, S);
    InVersion(v, level + 1, g, g.entries[0]);
    InputsValid(v, level, in0, in1);
    BeforeBoundary(in0 + in1, input, g, d, g.entries[0]);
  }

  lemma BeforeBoundary(files: seq<FileMeta>, input: seq<Entry>, g: FileMeta, d: Entry, e: Entry)
    requires ValidFiles(files) && ValidFile(g) && AfterAll(g, files) == true && Contents(input) == LevelEntries(files)
    requires d in input && e in g.entries && d.key.user == e.key.user
    ensures e !in input && e.key.sequence <= d.key.sequence
  {
    assert d in Contents(input) && (e in input ==> e in Contents(input));
    EntriesBefore(files, g, d, e);
  }

  /** The first entry of a file is the newest of its user key, in it and after it. */
  lemma FirstIsNewer(g: FileMeta, f: FileMeta, c: Entry)
    requires ValidFile(g) && ValidFile(f) && c in f.entries && c.key.user == g.smallest.user
    requires g == f || Less(g.largest, f.smallest)
    ensures c.key.sequence <= g.entries[0].key.sequence
  {
    var e := g.entries[0];
    if g == f {
      FileBounds(f, c);
    } else {
      ApartEntries(g, f, e, c);
    }
  }

  /** If the newest version at a snapshot is among the inputs, the newest left behind is the first of the boundary
      file. */
  lemma NewestBeyond(v: Version, level: nat, in0: seq<FileMeta>, in1: seq<FileMeta>, input: seq<Entry>, S: set<Entry>,
                     u: UserKey, s: nat, d: Entry, c: Entry) returns (g: FileMeta)
    requires Inputs(v, level, in0, in1, input, S) && BaseLevel(v, level, u)
    requires d in input && Newest(S, u, s, d) && Newest(S - Contents(input), u, s, c)
    ensures Continues(v[level + 1], in1, g) && g in v[level + 1] && g.smallest.user == u
    ensures ValidFile(g) && c == g.entries[0]
  {
    LeftBehindIsOlder(v, level, in0, in1, input, S, u, s, d, c);
    var f, h := OlderOutside(v, level, in0, in1, input, S, c, d);
    InputsValid(v, level, in0, in1);
    assert h in in0 + in1;
    g := BoundaryFile(v, level, in0, in1, f, h);
    FirstBeyond(v, level, in0, in1, input, S, g, d);
    FirstIsNewer(g, f, c);
    OnlyNewest(v, level, in0, in1, input, S, u, s, d, c, g.entries[0]);
  }

  lemma LeftBehindIsOlder(v: Version, level: nat, in0: seq<FileMeta>, in1: seq<FileMeta>, input: seq<Entry>, S: set<Entry>,
                          u: UserKey, s: nat, d: Entry, c: Entry)
    requires Inputs(v, level, in0, in1, input, S)
    requires d in input && Newest(S, u, s, d) && Newest(S - Contents(input), u, s, c)
    ensures c in S && c !in input && c.key.user == d.key.user == u && c.key.sequence < d.key.sequence
  {
    InputsAreStored(v, level, in0, in1, input, S);
  }

  lemma OnlyNewest(v: Version, level: nat, in0: seq<FileMeta>, in1: seq<FileMeta>, input: seq<Entry>, S: set<Entry>,
                   u: UserKey, s: nat, d: Entry, c: Entry, e: Entry)
    requires Inputs(v, level, in0, in1, input, S)
    requires Newest(S, u, s, d) && Newest(S - Contents(input), u, s, c)
    requires e in S && e !in input && e.key.user == u && c.key.sequence <= e.key.sequence <= d.key.sequence
    ensures c == e
  {
    InputsAreStored(v, level, in0, in1, input, S);
    assert e in S - Contents(input) && Candidate(e, u, s);
  }

  lemma TombstoneDropped(v: Version, level: nat, input: seq<Entry>, smallest: nat, d: Entry)
    requires d in input && d.key.kind == Deletion && d.key.sequence <= smallest && BaseLevel(v, level, d.key.user)
    ensures d in DroppedSet(v, level, input, smallest)
  {
    var i :| 0 <= i < |input| && input[i] == d;
    assert Obsolete(v, level, d, smallest) && Drops(v, level, input, i, smallest);
  }

  lemma DroppedIsBase(v: Version, level: nat, input: seq<Entry>, smallest: nat, S: set<Entry>, u: UserKey, d: Entry)
    requires Sorted(input) && UniqueSequences(S) && Contents(input) <= S
    requires Newest(S, u, smallest, d) && d in DroppedSet(v, level, input, smallest)
    ensures BaseLevel(v, level, u) && d in input && d.key.kind == Deletion
  {
    var i :| 0 <= i < |input| && input[i] == d && Drops(v, level, input, i, smallest);
    Descending(input, S);
    assert !Shadowed(input, i, smallest);
  }

  lemma UncoveredBySome(v: Version, level: nat, in0: seq<FileMeta>, in1: seq<FileMeta>, input: seq<Entry>, smallest: nat,
                        S: set<Entry>, u: UserKey, d: Entry) returns (f: FileMeta)
    requires Inputs(v, level, in0, in1, input, S)
    requires Newest(S, u, smallest, d) && d in DroppedSet(v, level, input, smallest)
    requires Read(S - Contents(input), u, smallest).Some?
    ensures Uncovers(v, level, in1, input, smallest, S, f)
  {
    InputsAreStored(v, level, in0, in1, input, S);
    DroppedIsBase(v, level, input, smallest, S, u, d);
    NewestMeaning(S - Contents(input), u, smallest);
    var c := NewestEntry(S - Contents(input), u, smallest).value;
    f := NewestBeyond(v, level, in0, in1, input, S, u, smallest, d, c);
  }

  lemma UncoversIsRead(v: Version, level: nat, in0: seq<FileMeta>, in1: seq<FileMeta>, input: seq<Entry>, smallest: nat,
                       S: set<Entry>, f: FileMeta)
    requires Inputs(v, level, in0, in1, input, S) && Uncovers(v, level, in1, input, smallest, S, f)
    ensures !NoResurrection(v, level, input, smallest, S)
  {
    var u := f.smallest.user;
    var d :| d in input && d.key.kind == Deletion && Newest(S, u, smallest, d);
    InputsAreStored(v, level, in0, in1, input, S);
    TombstoneDropped(v, level, input, smallest, d);
    FirstBeyond(v, level, in0, in1, input, S, f, d);
    var rest := S - Contents(input);
    assert f.entries[0] in rest && Candidate(f.entries[0], u, smallest);
    NewestMeaning(rest, u, smallest);
    var c := NewestEntry(rest, u, smallest).value;
    var g := NewestBeyond(v, level, in0, in1, input, S, u, smallest, d, c);
    var lo, hi := InputSlice(v, level, in0, in1);
    ContinuesNext(v, level, in0, in1, lo, hi, f);
    ContinuesNext(v, level, in0, in1, lo, hi, g);
    assert Read(rest, u, smallest).Some?;
  }

  /** A compaction is invisible at every snapshot from the smallest live one on if and only if the file after its
      lower inputs does not begin with a value that one of its tombstones was hiding. */
  lemma InvisibleIffCovered(v: Version, level: nat, in0: seq<FileMeta>, in1: seq<FileMeta>, input: seq<Entry>, smallest: nat,
                            S: set<Entry>)
    requires Inputs(v, level, in0, in1, input, S)
    ensures SameReads(S - DroppedSet(v, level, input, smallest), S, smallest)
            == UncoversNothing(v, level, in1, input, smallest, S)
  {
    InputsAreStored(v, level, in0, in1, input, S);
    CompactionInvisible(v, level, input, smallest, S);
    if NoResurrection(v, level, input, smallest, S) {
      forall f ensures !Uncovers(v, level, in1, input, smallest, S, f) {
        if Uncovers(v, level, in1, input, smallest, S, f) {
          UncoversIsRead(v, level, in0, in1, input, smallest, S, f);
        }
      }
    } else {
      var u, d :| Newest(S, u, smallest, d) && d in DroppedSet(v, level, input, smallest)
                  && Read(S - Contents(input), u, smallest).Some?;
      var f := UncoveredBySome(v, level, in0, in1, input, smallest, S, u, d);
    }
  }

  /** No file left behind one level down shares a user key with a file taken: what AddBoundaryInputs gives
      for the input level, and what nothing gives for the level below it. */
  predicate ClosedParents(v: Version, level: nat, in1: seq<FileMeta>)
    requires level + 1 < |v|
  {
    forall f, h :: f in v[level + 1] && f !in in1 && h in in1 ==> !ShareUserKeys(f, h)
  }

  /** Then there is no such file. */
  lemma ClosureSuffices(v: Version, level: nat, in0: seq<FileMeta>, in1: seq<FileMeta>, f: FileMeta)
    requires GoodInputs(v, level, in0, in1) && ClosedParents(v, level, in1)
    ensures !Continues(v[level + 1], in1, f)
  {
    if Continues(v[level + 1], in1, f) {
      var lo, hi := InputSlice(v, level, in0, in1);
      ContinuesNext(v, level, in0, in1, lo, hi, f);
      var h := v[level + 1][hi - 1];
      assert h in in1 && f in v[level + 1];
      InputsValid(v, level, in0, in1);
      assert h in in0 + in1;
      FileOrdered(h);
      FileOrdered(f);
      assert ShareUserKeys(f, h);
    }
  }
}
