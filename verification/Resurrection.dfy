/** The case the input selection leaves open: SetupOtherInputs closes the upper inputs over user keys but not
    the lower ones, and a dropped tombstone can then bring an old version back. */
module Resurrection {
  import opened Options
  import opened InternalKeys
  import opened Versions
  import opened CompactionInputs
  import opened Compactions
  import opened Manifest
  import opened LevelInvariant
  import opened Boundaries
  import opened Database

  const newA := Entry(InternalKey(1.0, 10, Value), "a10")
  const oldA := Entry(InternalKey(1.0, 3, Value), "a3")
  const tombC := Entry(InternalKey(2.0, 5, Deletion), "")
  const oldC := Entry(InternalKey(2.0, 2, Value), "c2")

  const upper := TableFile(7, 1, [newA])
  const lower := TableFile(5, 1, [oldA, tombC])
  const beyond := TableFile(6, 1, [oldC])

  /** Level 2 holds the tombstone for one user key at the end of one file and the version it hides at the
      start of the next. */
  const version: Version := [[], [upper], [lower, beyond], [], [], [], []]

  const merged := [newA, oldA, tombC]

  lemma Files()
    ensures ValidFile(upper) && ValidFile(lower) && ValidFile(beyond)
    ensures Newer(upper, lower) && Newer(upper, beyond)
    ensures AllEntries(version) == {newA, oldA, tombC, oldC}
  {
    assert AllEntries(version) == {newA, oldA, tombC, oldC} by {
      assert upper in version[1] && lower in version[2] && beyond in version[2];
      assert newA in upper.entries && oldA in lower.entries && tombC in lower.entries && oldC in beyond.entries;
    }
  }

  lemma Levels()
    ensures forall l :: 0 <= l < |version| ==> ValidFiles(version[l])
    ensures forall l :: 1 <= l < |version| ==> LevelSorted(version[l])
  {
    Files();
    assert Less(lower.largest, beyond.smallest);
  }

  lemma VersionIsValid()
    ensures ValidVersion(version)
  {
    Levels();
    AboveIsNewer();
  }

  lemma AboveIsNewer()
    ensures NewerAbove(version)
  {
    Files();
    forall hi, lo, f, g | 0 <= hi < lo < |version| && f in version[hi] && g in version[lo] ensures Newer(f, g) {
      assert f == upper && (g == lower || g == beyond);
    }
  }

  lemma ParentsAreLower()
    ensures Parents(version, 1, [upper]) == [lower]
  {
    var fs, k := version[2], Some(1.0);
    assert fs[..1] == [lower] && fs[..1][..0] == [] && fs == [lower, beyond];
    assert Overlapping(fs[..1], k, k) == [lower];
    assert Overlapping(fs, k, k) == [lower];
  }

  lemma UpperIsSelected()
    ensures Selected(1, version[1], [upper])
  {
    assert CutsCleanly([upper], 0, 1) && [upper] == [upper][0..1];
  }

  lemma SequencesUnique()
    ensures UniqueSequences(AllEntries(version))
  {
    Files();
    assert UniqueSequences({newA, oldA, tombC, oldC});
  }

  lemma Assemble(v: Version, level: nat, in0: seq<FileMeta>, in1: seq<FileMeta>)
    requires ValidVersion(v) && UniqueSequences(AllEntries(v)) && level + 1 < NUM_LEVELS
    requires Selected(level, v[level], in0) && Parents(v, level, in0) == in1
    ensures GoodInputs(v, level, in0, in1)
  {}

  lemma InputsAreGood()
    ensures GoodInputs(version, 1, [upper], [lower])
  {
    VersionIsValid();
    SequencesUnique();
    ParentsAreLower();
    UpperIsSelected();
    Assemble(version, 1, [upper], [lower]);
  }

  lemma LowerIsNotClosed()
    ensures !ClosedParents(version, 1, [lower])
  {
    assert beyond in version[2] && lower in [lower] && ShareUserKeys(beyond, lower);
  }

  lemma MergedInputs()
    ensures Sorted(merged) && Contents(merged) == LevelEntries([upper] + [lower])
  {
    var files := [upper, lower];
    assert [upper] + [lower] == files;
    assert upper in files && lower in files;
    assert newA in upper.entries && oldA in lower.entries && tombC in lower.entries;
    forall e ensures e in Contents(merged) <==> e in LevelEntries(files) {}
  }

  lemma TombstoneIsDropped()
    ensures tombC in DroppedSet(version, 1, merged, 10)
    ensures oldC !in DroppedSet(version, 1, merged, 10)
  {
    assert merged[2] == tombC && Obsolete(version, 1, tombC, 10);
  }

  /** Compacting exactly the inputs SetupOtherInputs chooses here, with no snapshot live below 10, makes a
      deleted key readable again. */
  lemma DeletedKeyComesBack()
    ensures GoodInputs(version, 1, [upper], [lower])
    ensures Sorted(merged) && Contents(merged) == LevelEntries([upper] + [lower])
    ensures Read(AllEntries(version), 2.0, 10) == None
    ensures Read(AllEntries(version) - DroppedSet(version, 1, merged, 10), 2.0, 10) == Some("c2")
  {
    InputsAreGood();
    MergedInputs();
    Files();
    TombstoneIsDropped();
    ReadsDiffer(DroppedSet(version, 1, merged, 10));
  }

  lemma ReadsDiffer(D: set<Entry>)
    requires tombC in D && oldC !in D
    ensures Read({newA, oldA, tombC, oldC}, 2.0, 10) == None
    ensures Read({newA, oldA, tombC, oldC} - D, 2.0, 10) == Some("c2")
  {
    var S := {newA, oldA, tombC, oldC};
    assert Newest(S, 2.0, 10, tombC);
    NewestDecides(S, 2.0, 10, Some(tombC));
    assert Newest(S - D, 2.0, 10, oldC);
    NewestDecides(S - D, 2.0, 10, Some(oldC));
  }

  /** The file after the lower input is what the tombstone was hiding. */
  lemma BeyondIsUncovered()
    ensures Uncovers(version, 1, [lower], merged, 10, AllEntries(version), beyond)
  {
    Files();
    assert ContinuesAt(version[2], [lower], 0, beyond);
    assert merged[2] == tombC && Newest(AllEntries(version), 2.0, 10, tombC);
  }

  // ---- How a database comes to this version ----

  const firstFile := TableFile(3, 1, [oldC])
  const secondFile := TableFile(4, 1, [oldA, tombC])

  const empty: Version := [[], [], [], [], [], [], []]
  const afterFirst: Version := [[], [], [firstFile], [], [], [], []]
  const afterSecond: Version := [[], [secondFile], [firstFile], [], [], [], []]
  const afterMerge: Version := [[], [], [lower, beyond], [], [], [], []]

  /** A memtable is flushed to the level PickLevelForMemTableOutput picks when files two levels down are small. */
  ghost predicate FlushStep(v: Version, v': Version, number: nat, mem: seq<Entry>, level: nat)
    requires mem != []
  {
    var f := TableFile(number, 1, mem);
    && ValidFile(f) && NewestFile(v, f) && Flushed(v, v', level, f) && level <= MAX_MEM_COMPACT_LEVEL
    && (forall l :: 0 <= l <= level ==> !LevelOverlaps(v[l], f.smallest.user, f.largest.user))
    && (level < MAX_MEM_COMPACT_LEVEL ==> LevelOverlaps(v[level + 1], f.smallest.user, f.largest.user))
  }

  /** A compaction: good inputs, and outputs that hold what the drop rules leave. */
  ghost predicate CompactStep(v: Version, v': Version, level: nat, in0: seq<FileMeta>, in1: seq<FileMeta>, input: seq<Entry>,
                              smallest: nat, next: nat, runs: seq<seq<Entry>>)
  {
    && GoodInputs(v, level, in0, in1) && Sorted(input) && Contents(input) == LevelEntries(in0 + in1)
    && [] !in runs && Flatten(runs) == Kept(v, level, input, smallest, |input|)
    && Replaced(v, v', level, in0, in1, TableFiles(runs, next, _ => 1))
  }

  lemma FirstFlush()
    ensures FlushStep(empty, afterFirst, 3, [oldC], 2)
  {}

  lemma SecondFlush()
    ensures FlushStep(afterFirst, afterSecond, 4, [oldA, tombC], 1)
  {
    assert firstFile in afterFirst[2] && Overlaps(firstFile, Some(1.0), Some(2.0));
  }

  lemma LastFileIsNewest()
    ensures NewestFile(afterMerge, upper)
  {
    assert forall l, g :: 0 <= l < |afterMerge| && g in afterMerge[l] ==> g == lower || g == beyond;
    forall g, d | (g == lower || g == beyond) && d in g.entries ensures d.key.sequence < 10 {}
  }

  lemma LastFileIsFlushed()
    ensures Flushed(afterMerge, version, 1, upper)
  {}

  lemma LastFlush()
    ensures FlushStep(afterMerge, version, 7, [newA], 1)
  {
    LastFileIsNewest();
    LastFileIsFlushed();
    assert lower in afterMerge[2] && Overlaps(lower, Some(1.0), Some(1.0));
  }

  const input := [oldA, tombC, oldC]

  lemma MergeFiles()
    ensures ValidFile(secondFile) && ValidFile(firstFile) && Newer(secondFile, firstFile)
    ensures AllEntries(afterSecond) == {oldA, tombC, oldC} && UniqueSequences({oldA, tombC, oldC})
  {
    assert AllEntries(afterSecond) == {oldA, tombC, oldC} by {
      assert secondFile in afterSecond[1] && firstFile in afterSecond[2];
      assert oldA in secondFile.entries && tombC in secondFile.entries && oldC in firstFile.entries;
    }
  }

  lemma TwoFilesApart(v: Version, a: FileMeta, b: FileMeta)
    requires v == [[], [a], [b], [], [], [], []] && ValidFile(a) == true && ValidFile(b) == true
    ensures forall l :: 0 <= l < |v| ==> ValidFiles(v[l])
    ensures forall l :: 1 <= l < |v| ==> LevelSorted(v[l])
  {
    forall l, f | 0 <= l < |v| && f in v[l] ensures ValidFile(f) {
      assert f == a || f == b;
    }
    assert forall l :: 0 <= l < |v| ==> |v[l]| <= 1;
  }

  lemma SecondVersionIsValid()
    ensures ValidVersion(afterSecond)
  {
    MergeFiles();
    TwoFilesApart(afterSecond, secondFile, firstFile);
    SecondAboveFirst();
  }

  lemma SecondAboveFirst()
    ensures NewerAbove(afterSecond)
  {
    MergeFiles();
    forall hi, lo, f, g | 0 <= hi < lo < |afterSecond| && f in afterSecond[hi] && g in afterSecond[lo] ensures Newer(f, g) {
      assert f == secondFile && g == firstFile;
    }
  }

  lemma FirstFileIsLower()
    ensures Parents(afterSecond, 1, [secondFile]) == [firstFile]
  {
    var fs := afterSecond[2];
    assert fs[..0] == [] && fs == [firstFile];
    assert Overlapping(fs, Some(1.0), Some(2.0)) == [firstFile];
  }

  lemma SecondFileIsSelected()
    ensures Selected(1, afterSecond[1], [secondFile])
  {
    assert CutsCleanly([secondFile], 0, 1) && [secondFile] == [secondFile][0..1];
  }

  lemma MergeInputs()
    ensures GoodInputs(afterSecond, 1, [secondFile], [firstFile])
  {
    SecondVersionIsValid();
    MergeFiles();
    FirstFileIsLower();
    SecondFileIsSelected();
    Assemble(afterSecond, 1, [secondFile], [firstFile]);
  }

  lemma MergeStream()
    ensures Sorted(input) && Contents(input) == LevelEntries([secondFile] + [firstFile])
  {
    var files := [secondFile, firstFile];
    assert [secondFile] + [firstFile] == files && secondFile in files && firstFile in files;
    assert oldA in secondFile.entries && tombC in secondFile.entries && oldC in firstFile.entries;
    forall x ensures x in Contents(input) <==> x in LevelEntries(files) {}
  }

  /** With a snapshot live at 3 nothing is dropped: the tombstone is newer, and shadows nothing there. */
  lemma NothingDropped()
    ensures Kept(afterSecond, 1, input, 3, 3) == input
  {
    assert !Drops(afterSecond, 1, input, 0, 3) && !Drops(afterSecond, 1, input, 1, 3) && !Drops(afterSecond, 1, input, 2, 3);
    assert Kept(afterSecond, 1, input, 3, 0) == [];
    assert Kept(afterSecond, 1, input, 3, 1) == [oldA];
    assert Kept(afterSecond, 1, input, 3, 2) == [oldA, tombC];
  }

  lemma MergeReplaces()
    ensures Replaced(afterSecond, afterMerge, 1, [secondFile], [firstFile], [lower, beyond])
  {}

  const runs := [[oldA, tombC], [oldC]]

  lemma MergeOutputs()
    ensures Flatten(runs) == input && TableFiles(runs, 5, _ => 1) == [lower, beyond]
  {
    assert runs[..1] == [[oldA, tombC]] && runs[..1][..0] == [];
    assert Flatten(runs[..1]) == [oldA, tombC];
  }

  lemma Merge()
    ensures CompactStep(afterSecond, afterMerge, 1, [secondFile], [firstFile], input, 3, 5, runs)
  {
    MergeInputs();
    MergeStream();
    NothingDropped();
    MergeOutputs();
    MergeReplaces();
  }

  /** Two flushes, a compaction while a snapshot is live that keeps both versions of a key and ends an output between
      them, and a third flush: from there the next compaction brings the deleted key back. */
  lemma ReachedByRun()
    ensures FlushStep(empty, afterFirst, 3, [oldC], 2)
    ensures FlushStep(afterFirst, afterSecond, 4, [oldA, tombC], 1)
    ensures CompactStep(afterSecond, afterMerge, 1, [secondFile], [firstFile], input, 3, 5, runs)
    ensures FlushStep(afterMerge, version, 7, [newA], 1)
  {
    FirstFlush();
    SecondFlush();
    Merge();
    LastFlush();
  }
}
