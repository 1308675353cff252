/** The level invariant under compaction, trivial move and memtable flush. */
module LevelInvariant {
  import opened Options
  import opened InternalKeys
  import opened Versions
  import opened CompactionInputs
  import opened Manifest

  ghost predicate Apart(f: FileMeta, g: FileMeta) {
    Less(f.largest, g.smallest) || Less(g.largest, f.smallest)
  }

  /** What InstallCompactionResults does to a version: inputs out, outputs in one level down. */
  ghost predicate Replaced(v: Version, v': Version, level: nat,
                           in0: seq<FileMeta>, in1: seq<FileMeta>, outs: seq<FileMeta>)
  {
    && |v| == NUM_LEVELS && level + 1 < NUM_LEVELS && OrderedVersion(v')
    && (forall l :: 0 <= l < NUM_LEVELS && l != level && l != level + 1 ==> v'[l] == v[l])
    && (forall f :: f in v'[level] <==> f in v[level] && f !in in0)
    && (forall f :: f in v'[level + 1] <==> (f in v[level + 1] && f !in in1) || f in outs)
  }

  ghost predicate EntryOf(files: seq<FileMeta>, e: Entry) {
    exists h :: h in files && e in h.entries
  }

  /** Outputs are sorted, valid, and hold only input entries. */
  ghost predicate GoodOutputs(outs: seq<FileMeta>, inputs: seq<FileMeta>) {
    && ValidFiles(outs) && LevelSorted(outs)
    && forall o, e :: o in outs && e in o.entries ==> EntryOf(inputs, e)
  }

  /** Inputs as SetupOtherInputs leaves them.  (`== true` has the verifier treat each part as one fact.) */
  ghost predicate GoodInputs(v: Version, level: nat, in0: seq<FileMeta>, in1: seq<FileMeta>) {
    && ValidVersion(v) == true && UniqueSequences(AllEntries(v)) == true && level + 1 < NUM_LEVELS
    && Selected(level, v[level], in0) == true && in1 == Parents(v, level, in0)
  }

  lemma InVersion(v: Version, l: nat, f: FileMeta, e: Entry)
    requires l < |v| && f in v[l] && e in f.entries
    ensures e in AllEntries(v)
  {}

  /** A file of a sorted level is before, after, or the same as another. */
  lemma SortedApart(fs: seq<FileMeta>, f: FileMeta, g: FileMeta)
    requires LevelSorted(fs) && f in fs && g in fs && f != g
    ensures Apart(f, g)
  {
    var i :| 0 <= i < |fs| && fs[i] == f;
    var j :| 0 <= j < |fs| && fs[j] == g;
  }

  lemma ApartEntries(f: FileMeta, g: FileMeta, e: Entry, d: Entry)
    requires ValidFile(f) && ValidFile(g) && Less(f.largest, g.smallest) && e in f.entries && d in g.entries
    ensures Less(e.key, d.key)
  {
    FileBounds(f, e);
    FileBounds(g, d);
  }

  lemma NoSharedKeys(f: FileMeta, g: FileMeta)
    requires ValidFile(f) && ValidFile(g) && !ShareUserKeys(f, g)
    ensures forall e, d :: e in f.entries && d in g.entries ==> e.key.user != d.key.user
    ensures Newer(f, g) && Newer(g, f) && Apart(f, g)
  {
    FileOrdered(f);
    FileOrdered(g);
    forall e, d | e in f.entries && d in g.entries ensures e.key.user != d.key.user {
      FileBounds(f, e);
      FileBounds(g, d);
    }
  }

  // ---- Files left at the input level stay newer than everything compacted away from it ----

  lemma RemainingNewer(v: Version, level: nat, in0: seq<FileMeta>, f: FileMeta, h: FileMeta)
    requires ValidVersion(v) && UniqueSequences(AllEntries(v)) && level < NUM_LEVELS
    requires Selected(level, v[level], in0)
    requires f in v[level] && f !in in0 && h in in0
    ensures Newer(f, h)
  {
    SelectedMembers(level, v[level], in0);
    if level == 0 {
      NoSharedKeys(f, h);
    } else {
      var lo, hi :| CutsCleanly(v[level], lo, hi) && in0 == v[level][lo..hi];
      if !NoKeyInCommon(f, h) {
        BeforeTheCut(v[level], lo, hi, f, h);
        StrictlyNewer(v, level, f, h);
      }
    }
  }

  ghost predicate NoKeyInCommon(f: FileMeta, h: FileMeta) {
    forall e, d :: e in f.entries && d in h.entries ==> e.key.user != d.key.user
  }

  lemma StrictlyNewer(v: Version, level: nat, f: FileMeta, h: FileMeta)
    requires ValidVersion(v) && UniqueSequences(AllEntries(v)) && level < NUM_LEVELS
    requires f in v[level] && h in v[level] && Less(f.largest, h.smallest)
    ensures Newer(f, h)
  {
    forall e, d | e in f.entries && d in h.entries && e.key.user == d.key.user
      ensures e.key.sequence > d.key.sequence
    {
      ApartEntries(f, h, e, d);
      InVersion(v, level, f, e);
      InVersion(v, level, h, d);
    }
  }

  /** Outside a clean cut, a file either precedes the whole stretch or has no user key in common with it. */
  lemma BeforeTheCut(fs: seq<FileMeta>, lo: nat, hi: nat, f: FileMeta, h: FileMeta)
    requires ValidFiles(fs) && LevelSorted(fs) && CutsCleanly(fs, lo, hi)
    requires f in fs && f !in fs[lo..hi] && h in fs[lo..hi]
    ensures Less(f.largest, h.smallest) || NoKeyInCommon(f, h)
  {
    var i :| 0 <= i < |fs| && fs[i] == f;
    var k :| lo <= k < hi && fs[k] == h;
    assert h in fs;
    assert i < lo || hi <= i;
    if hi <= i {
      LevelBounds(fs, k, hi - 1);
      LevelBounds(fs, hi, i);
      assert Less(fs[hi - 1].largest, fs[hi].smallest);
      NoSharedKeys(f, h);
    }
  }

  // ---- Files left one level down lie wholly on one side of all the inputs ----

  predicate BeforeAll(g: FileMeta, files: seq<FileMeta>) {
    forall h :: h in files ==> Less(g.largest, h.smallest)
  }

  predicate AfterAll(g: FileMeta, files: seq<FileMeta>) {
    forall h :: h in files ==> Less(h.largest, g.smallest)
  }

  lemma ParentsOnOneSide(v: Version, level: nat, in0: seq<FileMeta>, in1: seq<FileMeta>, g: FileMeta)
    requires GoodInputs(v, level, in0, in1)
    requires g in v[level + 1] && g !in in1
    ensures BeforeAll(g, in0 + in1) || AfterAll(g, in0 + in1)
    ensures forall h :: h in in0 ==> !ShareUserKeys(g, h)
  {
    var fs := v[level + 1];
    var b, e := SmallestKey(in0).user, LargestKey(in0).user;
    OverlappingMembers(fs, Some(b), Some(e));
    RangeOf(in0);
    SelectedMembers(level, v[level], in0);
    FileOrdered(g);
    forall h | h in in0 + in1
      ensures if g.largest.user < b then Less(g.largest, h.smallest) else Less(h.largest, g.smallest)
    {
      FileOrdered(h);
      if h !in in0 {
        SortedApart(fs, g, h);
      }
    }
    forall h | h in in0 ensures !ShareUserKeys(g, h) {
      FileOrdered(h);
    }
  }

  lemma OutputApart(outs: seq<FileMeta>, inputs: seq<FileMeta>, g: FileMeta, o: FileMeta)
    requires GoodOutputs(outs, inputs) && ValidFiles(inputs) && o in outs
    requires BeforeAll(g, inputs) || AfterAll(g, inputs)
    ensures Apart(g, o)
  {
    var first, last := o.entries[0], o.entries[|o.entries| - 1];
    assert first in o.entries && last in o.entries;
    assert EntryOf(inputs, first) && EntryOf(inputs, last);
    var h0 :| h0 in inputs && first in h0.entries;
    var h1 :| h1 in inputs && last in h1.entries;
    FileBounds(h0, first);
    FileBounds(h1, last);
  }

  // ---- Compaction keeps the level invariant ----

  lemma OrderedDisjoint(fs: seq<FileMeta>)
    requires ValidFiles(fs) && Ordered(fs)
    requires forall f, g :: f in fs && g in fs && f != g ==> Apart(f, g)
    ensures LevelSorted(fs)
  {
    forall i, j | 0 <= i < j < |fs| ensures Less(fs[i].largest, fs[j].smallest) {
      assert FileBefore(fs[i], fs[j]) && fs[i] in fs && fs[j] in fs;
      FileOrdered(fs[i]);
      FileOrdered(fs[j]);
    }
  }

  lemma InputsValid(v: Version, level: nat, in0: seq<FileMeta>, in1: seq<FileMeta>)
    requires GoodInputs(v, level, in0, in1)
    ensures forall h :: h in in0 ==> h in v[level]
    ensures forall h :: h in in1 ==> h in v[level + 1]
    ensures ValidFiles(in0 + in1)
  {
    SelectedMembers(level, v[level], in0);
    OverlappingMembers(v[level + 1], Some(SmallestKey(in0).user), Some(LargestKey(in0).user));
  }

  lemma CompactedLevelSorted(v: Version, v': Version, level: nat,
                             in0: seq<FileMeta>, in1: seq<FileMeta>, outs: seq<FileMeta>)
    requires GoodInputs(v, level, in0, in1) && GoodOutputs(outs, in0 + in1)
    requires Replaced(v, v', level, in0, in1, outs)
    ensures LevelSorted(v'[level + 1])
  {
    var fs := v'[level + 1];
    InputsValid(v, level, in0, in1);
    forall f, g | f in fs && g in fs && f != g ensures Apart(f, g) {
      if f in outs && g in outs {
        SortedApart(outs, f, g);
      } else if f in outs {
        ParentsOnOneSide(v, level, in0, in1, g);
        OutputApart(outs, in0 + in1, g, f);
      } else if g in outs {
        ParentsOnOneSide(v, level, in0, in1, f);
        OutputApart(outs, in0 + in1, f, g);
      } else {
        SortedApart(v[level + 1], f, g);
      }
    }
    OrderedDisjoint(fs);
  }

  lemma RemainingSorted(fs: seq<FileMeta>, fs': seq<FileMeta>)
    requires ValidFiles(fs) && LevelSorted(fs) && Ordered(fs') && forall f :: f in fs' ==> f in fs
    ensures LevelSorted(fs')
  {
    forall f, g | f in fs' && g in fs' && f != g ensures Apart(f, g) {
      SortedApart(fs, f, g);
    }
    OrderedDisjoint(fs');
  }

  /** What lies above an output is newer than it. */
  lemma NewerThanOutput(v: Version, level: nat, in0: seq<FileMeta>, in1: seq<FileMeta>, outs: seq<FileMeta>,
                        hi: nat, f: FileMeta, o: FileMeta)
    requires GoodInputs(v, level, in0, in1) && GoodOutputs(outs, in0 + in1)
    requires hi <= level && f in v[hi] && (hi == level ==> f !in in0) && o in outs
    ensures Newer(f, o)
  {
    InputsValid(v, level, in0, in1);
    forall e, d | e in f.entries && d in o.entries && e.key.user == d.key.user
      ensures e.key.sequence > d.key.sequence
    {
      assert EntryOf(in0 + in1, d);
      var h :| h in in0 + in1 && d in h.entries;
      if h in in0 && hi == level {
        RemainingNewer(v, level, in0, f, h);
      } else {
        assert Newer(f, h);
      }
    }
  }

  /** What lies below an output is older than it. */
  lemma OutputNewerThan(v: Version, level: nat, in0: seq<FileMeta>, in1: seq<FileMeta>, outs: seq<FileMeta>,
                        lo: nat, g: FileMeta, o: FileMeta)
    requires GoodInputs(v, level, in0, in1) && GoodOutputs(outs, in0 + in1)
    requires level + 1 < lo < NUM_LEVELS && g in v[lo] && o in outs
    ensures Newer(o, g)
  {
    InputsValid(v, level, in0, in1);
    forall e, d | e in o.entries && d in g.entries && e.key.user == d.key.user
      ensures e.key.sequence > d.key.sequence
    {
      assert EntryOf(in0 + in1, e);
      var h :| h in in0 + in1 && e in h.entries;
      assert Newer(h, g);
    }
  }

  /** Compaction, and trivial move as the case of one input file that is its own output, keeps the level
      invariant for the inputs SetupOtherInputs chooses. */
  lemma CompactionKeepsLevels(v: Version, v': Version, level: nat,
                              in0: seq<FileMeta>, in1: seq<FileMeta>, outs: seq<FileMeta>)
    requires GoodInputs(v, level, in0, in1) && GoodOutputs(outs, in0 + in1)
    requires Replaced(v, v', level, in0, in1, outs)
    ensures ValidVersion(v')
  {
    InputsValid(v, level, in0, in1);
    CompactedLevelSorted(v, v', level, in0, in1, outs);
    if level > 0 { RemainingSorted(v[level], v'[level]); }
    forall hi, lo, f, g | 0 <= hi < lo < |v'| && f in v'[hi] && g in v'[lo] ensures Newer(f, g) {
      if lo == level + 1 && g in outs {
        NewerThanOutput(v, level, in0, in1, outs, hi, f, g);
      } else if hi == level + 1 && f in outs {
        OutputNewerThan(v, level, in0, in1, outs, lo, g, f);
      } else {
        assert f in v[hi] && g in v[lo];
      }
    }
    forall l | 0 <= l < |v'| ensures ValidFiles(v'[l]) {
      assert forall f :: f in v'[l] ==> f in v[l] || f in outs;
    }
  }

  // ---- What a compaction leaves in the version ----

  /** No entry is stored in two places. */
  lemma OneHome(v: Version, l: nat, f: FileMeta, m: nat, g: FileMeta, e: Entry)
    requires ValidVersion(v) && l < NUM_LEVELS && m < NUM_LEVELS
    requires f in v[l] && g in v[m] && e in f.entries && e in g.entries
    ensures l == m && f == g
  {
    if l < m { ShallowerIsNewer(v, l, f, e, m, g, e); }
    if m < l { ShallowerIsNewer(v, m, g, e, l, f, e); }
    if l == 0 {
      assert f.number > g.number ==> Newer(f, g);
      assert g.number > f.number ==> Newer(g, f);
    } else if f != g {
      SortedApart(v[l], f, g);
      if Less(f.largest, g.smallest) { ApartEntries(f, g, e, e); } else { ApartEntries(g, f, e, e); }
    }
  }

  lemma CompactionContents(v: Version, v': Version, level: nat,
                           in0: seq<FileMeta>, in1: seq<FileMeta>, outs: seq<FileMeta>, dropped: set<Entry>)
    requires GoodInputs(v, level, in0, in1) && Replaced(v, v', level, in0, in1, outs)
    requires LevelEntries(outs) == LevelEntries(in0 + in1) - dropped
    requires dropped <= LevelEntries(in0 + in1)
    ensures AllEntries(v') == AllEntries(v) - dropped
  {
    forall e | e in AllEntries(v') ensures e in AllEntries(v) && e !in dropped {
      ComesFromBefore(v, v', level, in0, in1, outs, dropped, e);
    }
    forall e | e in AllEntries(v) && e !in dropped ensures e in AllEntries(v') {
      StaysAfter(v, v', level, in0, in1, outs, dropped, e);
    }
  }

  lemma ComesFromBefore(v: Version, v': Version, level: nat, in0: seq<FileMeta>, in1: seq<FileMeta>, outs: seq<FileMeta>,
                        dropped: set<Entry>, e: Entry)
    requires GoodInputs(v, level, in0, in1) && Replaced(v, v', level, in0, in1, outs) && e in AllEntries(v')
    requires LevelEntries(outs) == LevelEntries(in0 + in1) - dropped && dropped <= LevelEntries(in0 + in1)
    ensures e in AllEntries(v) && e !in dropped
  {
    InputsValid(v, level, in0, in1);
    var l, f :| 0 <= l < |v'| && f in v'[l] && e in f.entries;
    if l == level + 1 && f in outs {
      assert e in LevelEntries(outs);
      var h :| h in in0 + in1 && e in h.entries;
      InVersion(v, if h in in0 then level else level + 1, h, e);
    } else {
      assert f in v[l];
      if e in dropped {
        var h :| h in in0 + in1 && e in h.entries;
        OneHome(v, l, f, if h in in0 then level else level + 1, h, e);
      }
    }
  }

  lemma StaysAfter(v: Version, v': Version, level: nat, in0: seq<FileMeta>, in1: seq<FileMeta>, outs: seq<FileMeta>,
                   dropped: set<Entry>, e: Entry)
    requires Replaced(v, v', level, in0, in1, outs) && e in AllEntries(v) && e !in dropped
    requires LevelEntries(outs) == LevelEntries(in0 + in1) - dropped
    ensures e in AllEntries(v')
  {
    var l, f :| 0 <= l < |v| && f in v[l] && e in f.entries;
    if (l == level && f in in0) || (l == level + 1 && f in in1) {
      assert f in in0 + in1;
      assert e in LevelEntries(outs);
      var o :| o in outs && e in o.entries;
      InVersion(v', level + 1, o, e);
    } else {
      InVersion(v', l, f, e);
    }
  }

  // ---- Flush ----

  /** A memtable's table file added at `level`. */
  ghost predicate Flushed(v: Version, v': Version, level: nat, f: FileMeta) {
    && |v| == NUM_LEVELS && level < NUM_LEVELS && OrderedVersion(v')
    && (forall l :: 0 <= l < NUM_LEVELS && l != level ==> v'[l] == v[l])
    && (forall g :: g in v'[level] <==> g in v[level] || g == f)
  }

  /** Pushing the file below level 0 is safe when nothing at or above its level shares a user key range. */
  ghost predicate RoomAt(v: Version, level: nat, f: FileMeta)
    requires level < |v|
  {
    level > 0 ==> forall l, g :: 0 <= l <= level && g in v[l] ==> !ShareUserKeys(f, g)
  }

  /** Everything in `f` was written, and numbered, after everything in the version. */
  ghost predicate NewestFile(v: Version, f: FileMeta) {
    && (forall l, g :: 0 <= l < |v| && g in v[l] ==> g.number < f.number)
    && (forall l, g, e, d :: 0 <= l < |v| && g in v[l] && d in g.entries && e in f.entries ==>
                               d.key.sequence < e.key.sequence)
  }

  lemma FlushedLevelSorted(fs: seq<FileMeta>, fs': seq<FileMeta>, f: FileMeta)
    requires ValidFiles(fs) && LevelSorted(fs) && ValidFile(f) && Ordered(fs')
    requires forall g :: g in fs' <==> g in fs || g == f
    requires forall g :: g in fs ==> !ShareUserKeys(f, g)
    ensures LevelSorted(fs')
  {
    forall a, b | a in fs' && b in fs' && a != b ensures Apart(a, b) {
      if a == f {
        NoSharedKeys(f, b);
      } else if b == f {
        NoSharedKeys(f, a);
      } else {
        SortedApart(fs, a, b);
      }
    }
    OrderedDisjoint(fs');
  }

  /** Flushing keeps the level invariant wherever PickLevelForMemTableOutput may put the file. */
  lemma FlushKeepsLevels(v: Version, v': Version, level: nat, f: FileMeta)
    requires ValidVersion(v) && Flushed(v, v', level, f) && RoomAt(v, level, f) && ValidFile(f)
    requires NewestFile(v, f)
    ensures ValidVersion(v')
  {
    if level > 0 {
      FlushedLevelSorted(v[level], v'[level], f);
    } else {
      FlushedLevel0(v, v', f);
    }
    forall hi, lo, a, b | 0 <= hi < lo < |v'| && a in v'[hi] && b in v'[lo] ensures Newer(a, b) {
      if lo == level && b == f {
        assert a in v[hi];
        NoSharedKeys(f, a);
      } else {
        NewestIsNewer(v, f, lo, b);
        assert (hi == level && a == f) || a in v[hi];
      }
    }
  }

  lemma NewestIsNewer(v: Version, f: FileMeta, l: nat, g: FileMeta)
    requires NewestFile(v, f) && l < |v| && g in v[l]
    ensures Newer(f, g)
  {}

  lemma FlushedLevel0(v: Version, v': Version, f: FileMeta)
    requires ValidVersion(v) && Flushed(v, v', 0, f) && NewestFile(v, f)
    ensures NewestNumberFirst(v'[0])
  {
    forall a, b | a in v'[0] && b in v'[0] && a.number > b.number ensures Newer(a, b) {
      if a == f && b != f { NewestIsNewer(v, f, 0, b); }
    }
  }

  lemma FlushContents(v: Version, v': Version, level: nat, f: FileMeta)
    requires Flushed(v, v', level, f)
    ensures AllEntries(v') == AllEntries(v) + Contents(f.entries)
  {
    forall e | e in AllEntries(v') ensures e in AllEntries(v) + Contents(f.entries) {
      var l, g :| 0 <= l < |v'| && g in v'[l] && e in g.entries;
      if g != f || l != level { InVersion(v, l, g, e); }
    }
    forall e | e in AllEntries(v) + Contents(f.entries) ensures e in AllEntries(v') {
      if e in AllEntries(v) {
        var l, g :| 0 <= l < |v| && g in v[l] && e in g.entries;
        InVersion(v', l, g, e);
      } else {
        InVersion(v', level, f, e);
      }
    }
  }
}
