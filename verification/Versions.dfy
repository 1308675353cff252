/** A version: table files spread over levels, and the search through them (db/version_set). */
module Versions {
  import opened Options
  import opened InternalKeys

  const NUM_LEVELS := 7

  /** A table file: its metadata and, standing for the bytes on disk, the entries it holds. */
  datatype FileMeta = FileMeta(
    number: nat, size: nat, smallest: InternalKey, largest: InternalKey, entries: seq<Entry>)

  type Version = seq<seq<FileMeta>>

  ghost predicate ValidFile(f: FileMeta) {
    && f.entries != []
    && Sorted(f.entries)
    && f.smallest == f.entries[0].key
    && f.largest == f.entries[|f.entries| - 1].key
    && forall e :: e in f.entries ==> e.key.sequence <= MAX_SEQUENCE
  }

  ghost predicate ValidFiles(fs: seq<FileMeta>) {
    forall f :: f in fs ==> ValidFile(f)
  }

  /** Files in order, no two sharing an internal key (they may share a user key at a boundary). */
  ghost predicate LevelSorted(fs: seq<FileMeta>) {
    forall i, j :: 0 <= i < j < |fs| ==> Less(fs[i].largest, fs[j].smallest)
  }

  /** For every user key they share, all versions in `f` are newer than all versions in `g`. */
  ghost predicate Newer(f: FileMeta, g: FileMeta) {
    forall e, d :: e in f.entries && d in g.entries && e.key.user == d.key.user ==>
                     e.key.sequence > d.key.sequence
  }

  ghost predicate NewestNumberFirst(fs: seq<FileMeta>) {
    && (forall f, g :: f in fs && g in fs && f.number > g.number ==> Newer(f, g))
    && (forall f, g :: f in fs && g in fs && f.number == g.number ==> f == g)
  }

  ghost predicate NewerAbove(v: Version) {
    forall hi, lo, f, g :: 0 <= hi < lo < |v| && f in v[hi] && g in v[lo] ==> Newer(f, g)
  }

  /** The level invariant. */
  ghost predicate ValidVersion(v: Version) {
    && |v| == NUM_LEVELS
    && (forall l :: 0 <= l < |v| ==> ValidFiles(v[l]))
    && (forall l :: 1 <= l < |v| ==> LevelSorted(v[l]))
    && NewestNumberFirst(v[0])
    && NewerAbove(v)
  }

  function LevelEntries(fs: seq<FileMeta>): set<Entry> {
    set f, e | f in fs && e in f.entries :: e
  }

  ghost function AllEntries(v: Version): set<Entry> {
    set l, f, e | 0 <= l < |v| && f in v[l] && e in f.entries :: e
  }

  /** Every entry of a valid file lies between its recorded bounds. */
  lemma FileBounds(f: FileMeta, e: Entry)
    requires ValidFile(f) && e in f.entries
    ensures !Less(e.key, f.smallest) && !Less(f.largest, e.key)
    ensures f.smallest.user <= e.key.user <= f.largest.user
    ensures f.entries[0] in f.entries && f.entries[|f.entries| - 1] in f.entries
  {
    var i :| 0 <= i < |f.entries| && f.entries[i] == e;
    if 0 < i { assert Less(f.entries[0].key, f.entries[i].key); }
    if i < |f.entries| - 1 { assert Less(f.entries[i].key, f.entries[|f.entries| - 1].key); }
  }

  lemma FileOrdered(f: FileMeta)
    requires ValidFile(f)
    ensures !Less(f.largest, f.smallest)
    ensures f.smallest.sequence <= MAX_SEQUENCE && f.largest.sequence <= MAX_SEQUENCE
  {
    FileBounds(f, f.entries[0]);
  }

  /** Bounds are monotone along a sorted level. */
  lemma LevelBounds(fs: seq<FileMeta>, i: nat, j: nat)
    requires ValidFiles(fs) && LevelSorted(fs) && i <= j < |fs|
    ensures !Less(fs[j].largest, fs[i].largest) && !Less(fs[j].smallest, fs[i].smallest)
    ensures !Less(fs[j].largest, fs[i].smallest)
  {
    assert fs[i] in fs && fs[j] in fs;
    FileOrdered(fs[i]);
    FileOrdered(fs[j]);
  }

  /** Earliest file whose largest key is at or after `key`: binary search (version_set.cc:88-106). */
  method FindFile(fs: seq<FileMeta>, key: InternalKey) returns (r: nat)
    requires ValidFiles(fs) && LevelSorted(fs)
    ensures r <= |fs|
    ensures forall i :: 0 <= i < r ==> Less(fs[i].largest, key)
    ensures forall i :: r <= i < |fs| ==> !Less(fs[i].largest, key)
  {
    var left, right := 0, |fs|;
    while left < right
      invariant left <= right <= |fs|
      invariant forall i :: 0 <= i < left ==> Less(fs[i].largest, key)
      invariant forall i :: right <= i < |fs| ==> !Less(fs[i].largest, key)
    {
      var mid := (left + right) / 2;
      if Less(fs[mid].largest, key) {
        forall i | 0 <= i <= mid ensures Less(fs[i].largest, key) {
          LevelBounds(fs, i, mid);
        }
        left := mid + 1;
      } else {
        forall i | mid <= i < |fs| ensures !Less(fs[i].largest, key) {
          LevelBounds(fs, mid, i);
        }
        right := mid;
      }
    }
    r := right;
  }

  // ---- Overlap with a user-key range; None is an open end ----

  predicate AfterFile(k: Option<UserKey>, f: FileMeta) {
    k.Some? && k.value > f.largest.user
  }

  predicate BeforeFile(k: Option<UserKey>, f: FileMeta) {
    k.Some? && k.value < f.smallest.user
  }

  predicate Overlaps(f: FileMeta, begin: Option<UserKey>, end: Option<UserKey>) {
    !AfterFile(begin, f) && !BeforeFile(end, f)
  }

  /** The linear path and the binary-search path answer the same question (version_set.cc:122-157). */
  method SomeFileOverlapsRange(disjointSorted: bool, fs: seq<FileMeta>,
                               begin: Option<UserKey>, end: Option<UserKey>) returns (r: bool)
    requires ValidFiles(fs)
    requires disjointSorted ==> LevelSorted(fs)
    ensures r <==> exists f :: f in fs && Overlaps(f, begin, end)
  {
    if !disjointSorted {
      for i := 0 to |fs|
        invariant forall j :: 0 <= j < i ==> !Overlaps(fs[j], begin, end)
      {
        if AfterFile(begin, fs[i]) || BeforeFile(end, fs[i]) {
        } else {
          assert fs[i] in fs;
          return true;
        }
      }
      return false;
    }
    var index := 0;
    if begin.Some? {
      index := FindFile(fs, LookupKey(begin.value, MAX_SEQUENCE));
      forall i | 0 <= i < |fs| ensures i < index <==> AfterFile(begin, fs[i]) {
        assert fs[i] in fs;
        FileOrdered(fs[i]);
      }
    }
    if index >= |fs| {
      return false;
    }
    forall i | index <= i < |fs| && BeforeFile(end, fs[index]) ensures BeforeFile(end, fs[i]) {
      LevelBounds(fs, index, i);
    }
    assert fs[index] in fs;
    r := !BeforeFile(end, fs[index]);
  }

  // ---- Version::Get ----

  function InsertByNumber(f: FileMeta, fs: seq<FileMeta>): (r: seq<FileMeta>)
    ensures forall g :: g in r <==> g == f || g in fs
  {
    if fs == [] || f.number >= fs[0].number then [f] + fs
    else
      var r := InsertByNumber(f, fs[1..]);
      assert forall g :: g in fs <==> g == fs[0] || g in fs[1..];
      [fs[0]] + r
  }

  ghost predicate NumbersDescend(fs: seq<FileMeta>) {
    forall i, j :: 0 <= i < j < |fs| ==> fs[i].number >= fs[j].number
  }

  /** The order std::sort gives under NewestFirst (version_set.cc:278-280). */
  function SortNewestFirst(fs: seq<FileMeta>): (r: seq<FileMeta>)
    ensures forall g :: g in r <==> g in fs
  {
    if fs == [] then []
    else
      assert forall g :: g in fs <==> g == fs[0] || g in fs[1..];
      InsertByNumber(fs[0], SortNewestFirst(fs[1..]))
  }

  lemma {:induction false} InsertByNumberDescends(f: FileMeta, fs: seq<FileMeta>)
    requires NumbersDescend(fs)
    ensures NumbersDescend(InsertByNumber(f, fs))
  {
    if fs == [] || f.number >= fs[0].number {
    } else {
      InsertByNumberDescends(f, fs[1..]);
      var t := InsertByNumber(f, fs[1..]);
      forall j | 0 <= j < |t| ensures fs[0].number >= t[j].number {
        assert t[j] in t;
        if t[j] != f {
          var i :| 0 <= i < |fs[1..]| && fs[1..][i] == t[j];
          assert fs[i + 1] == t[j];
        }
      }
    }
  }

  lemma {:induction false} SortNewestFirstDescends(fs: seq<FileMeta>)
    ensures NumbersDescend(SortNewestFirst(fs))
  {
    if fs != [] {
      SortNewestFirstDescends(fs[1..]);
      InsertByNumberDescends(fs[0], SortNewestFirst(fs[1..]));
    }
  }

  ghost predicate NoCandidate(fs: seq<FileMeta>, u: UserKey, s: nat) {
    forall f, e :: f in fs && e in f.entries ==> !Candidate(e, u, s)
  }

  /** `e` is the newest candidate of one level. */
  ghost predicate NewestInLevel(fs: seq<FileMeta>, u: UserKey, s: nat, e: Entry) {
    && (exists f :: f in fs && e in f.entries)
    && Candidate(e, u, s)
    && forall f, d :: f in fs && d in f.entries && Candidate(d, u, s) ==> d.key.sequence <= e.key.sequence
  }

  /** `tmp` is taken from `fs` and misses no file holding a version of `u`. */
  ghost predicate CoversKey(fs: seq<FileMeta>, tmp: seq<FileMeta>, u: UserKey) {
    && (forall f :: f in tmp ==> f in fs)
    && (forall f, d :: f in fs && d in f.entries && d.key.user == u ==> f in tmp)
  }

  ghost predicate ClearBefore(files: seq<FileMeta>, i: nat, u: UserKey, s: nat)
    requires i <= |files|
  {
    forall j, d :: 0 <= j < i && d in files[j].entries ==> !Candidate(d, u, s)
  }

  /** The files whose user range holds `u`, newest first, decide a level-0 search at the first hit. */
  lemma FirstHitDecides(fs: seq<FileMeta>, files: seq<FileMeta>, u: UserKey, s: nat, i: nat, e: Entry)
    requires NewestNumberFirst(fs) && NumbersDescend(files) && i < |files|
    requires CoversKey(fs, files, u) && ClearBefore(files, i, u, s)
    requires Newest(Contents(files[i].entries), u, s, e)
    ensures NewestInLevel(fs, u, s, e)
  {
    assert files[i] in files;
    forall f, d | f in fs && d in f.entries && Candidate(d, u, s) ensures d.key.sequence <= e.key.sequence {
      var j :| 0 <= j < |files| && files[j] == f;
      assert i <= j;
      if f == files[i] {
        assert d in Contents(files[i].entries);
      } else {
        assert Newer(files[i], f);
      }
    }
  }

  lemma NoHit(fs: seq<FileMeta>, files: seq<FileMeta>, u: UserKey, s: nat)
    requires CoversKey(fs, files, u) && ClearBefore(files, |files|, u, s)
    ensures NoCandidate(fs, u, s)
  {
    forall f, e | f in fs && e in f.entries ensures !Candidate(e, u, s) {
      if e.key.user == u {
        var j :| 0 <= j < |files| && files[j] == f;
      }
    }
  }

  /** Level 0: every file whose user range holds the key, newest file first. */
  method SearchLevel0(fs: seq<FileMeta>, u: UserKey, s: nat) returns (r: Option<Entry>)
    requires ValidFiles(fs) && NewestNumberFirst(fs)
    ensures match r case Some(e) => NewestInLevel(fs, u, s, e) case None => NoCandidate(fs, u, s)
  {
    var tmp: seq<FileMeta> := [];
    for i := 0 to |fs|
      invariant forall f :: f in tmp <==> f in fs[..i] && f.smallest.user <= u <= f.largest.user
    {
      assert fs[..i + 1] == fs[..i] + [fs[i]];
      if u >= fs[i].smallest.user && u <= fs[i].largest.user {
        tmp := tmp + [fs[i]];
      }
    }
    assert fs[..|fs|] == fs;
    forall f, e | f in fs && e in f.entries && e.key.user == u ensures f in tmp {
      FileBounds(f, e);
    }
    r := SearchNewestFirst(fs, tmp, u, s);
  }

  method SearchNewestFirst(fs: seq<FileMeta>, tmp: seq<FileMeta>, u: UserKey, s: nat) returns (r: Option<Entry>)
    requires ValidFiles(fs) && NewestNumberFirst(fs) && CoversKey(fs, tmp, u)
    ensures match r case Some(e) => NewestInLevel(fs, u, s, e) case None => NoCandidate(fs, u, s)
  {
    var files := SortNewestFirst(tmp);
    SortNewestFirstDescends(tmp);
    assert CoversKey(fs, files, u);
    for i := 0 to |files|
      invariant ClearBefore(files, i, u, s)
    {
      assert files[i] in files;
      RunGetIsNewest(files[i].entries, u, s);
      r := RunGet(files[i].entries, u, s);
      if r.Some? {
        FirstHitDecides(fs, files, u, s, i, r.value);
        return;
      }
    }
    NoHit(fs, files, u, s);
    r := None;
  }

  /** A sorted level: only the file that can hold the first key at or after the lookup key matters. */
  method SearchSortedLevel(fs: seq<FileMeta>, u: UserKey, s: nat) returns (r: Option<Entry>)
    requires ValidFiles(fs) && LevelSorted(fs)
    ensures match r case Some(e) => NewestInLevel(fs, u, s, e) case None => NoCandidate(fs, u, s)
  {
    var k := LookupKey(u, s);
    var index := FindFile(fs, k);
    forall f, e | f in fs && e in f.entries && Candidate(e, u, s)
      ensures index < |fs| && exists j :: index <= j < |fs| && fs[j] == f
      ensures fs[index].smallest.user <= u && !Less(e.key, fs[index].smallest)
    {
      var j :| 0 <= j < |fs| && fs[j] == f;
      FileBounds(f, e);
      assert !Less(fs[j].largest, k);
      LevelBounds(fs, index, j);
    }
    if index >= |fs| || u < fs[index].smallest.user {
      return None;
    }
    var f := fs[index];
    assert f in fs;
    RunGetIsNewest(f.entries, u, s);
    r := RunGet(f.entries, u, s);
    var i := FirstAtOrAfter(f.entries, k);
    assert i < |f.entries| by {
      assert !Less(f.entries[|f.entries| - 1].key, k);
    }
    FileBounds(f, f.entries[i]);
    forall g, d | g in fs && d in g.entries && Candidate(d, u, s)
      ensures r.Some? && d.key.sequence <= r.value.key.sequence
    {
      var j :| index <= j < |fs| && fs[j] == g;
      FileBounds(g, d);
      if index < j { assert Less(f.largest, g.smallest); }
    }
  }

  /** Level-by-level search returns what the flat specification says (version_set.cc:326-421). */
  method Get(v: Version, u: UserKey, s: nat) returns (r: Option<string>)
    requires ValidVersion(v) && UniqueSequences(AllEntries(v))
    ensures r == Read(AllEntries(v), u, s)
  {
    for level := 0 to NUM_LEVELS
      invariant forall l :: 0 <= l < level ==> NoCandidate(v[l], u, s)
    {
      var found: Option<Entry>;
      if level == 0 {
        found := SearchLevel0(v[0], u, s);
      } else {
        found := SearchSortedLevel(v[level], u, s);
      }
      if found.Some? {
        LevelDecides(v, u, s, level, found.value);
        NewestDecides(AllEntries(v), u, s, found);
        return ReadOf(found);
      }
    }
    NewestDecides(AllEntries(v), u, s, None);
    r := None;
  }

  lemma ShallowerIsNewer(v: Version, hi: nat, f: FileMeta, e: Entry, lo: nat, g: FileMeta, d: Entry)
    requires NewerAbove(v) && hi < lo < |v|
    requires f in v[hi] && g in v[lo] && e in f.entries && d in g.entries && e.key.user == d.key.user
    ensures e.key.sequence > d.key.sequence
  {
    assert Newer(f, g);
  }

  /** The newest entry of the shallowest level that has a candidate is newest overall. */
  lemma LevelDecides(v: Version, u: UserKey, s: nat, level: nat, e: Entry)
    requires NewerAbove(v) && level < |v|
    requires forall l :: 0 <= l < level ==> NoCandidate(v[l], u, s)
    requires NewestInLevel(v[level], u, s, e)
    ensures Newest(AllEntries(v), u, s, e)
  {
    var home :| home in v[level] && e in home.entries;
    forall d | d in AllEntries(v) && Candidate(d, u, s) ensures d.key.sequence <= e.key.sequence {
      var l, f :| 0 <= l < |v| && f in v[l] && d in f.entries;
      if level < l {
        ShallowerIsNewer(v, level, home, e, l, f, d);
      }
    }
  }
}
