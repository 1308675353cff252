/** The compaction loop and what readers can see of it (db/db_impl DoCompactionWork). */
module Compactions {
  import opened Options
  import opened InternalKeys
  import opened Versions

  /** No file two or more levels below `level` has a range holding `u`. */
  ghost predicate BaseLevel(v: Version, level: nat, u: UserKey) {
    forall l, f :: level + 2 <= l < |v| && f in v[l] ==> !(f.smallest.user <= u <= f.largest.user)
  }

  /** The part of a Compaction that remembers how far each deeper level was scanned. */
  class Compaction {
    const version: Version
    const level: nat
    const levelPtrs: array<nat>

    ghost predicate Valid()
      reads this, levelPtrs
    {
      && |version| == NUM_LEVELS == levelPtrs.Length
      && (forall l :: 1 <= l < NUM_LEVELS ==> ValidFiles(version[l]) && LevelSorted(version[l]))
      && (forall l :: 0 <= l < NUM_LEVELS ==> levelPtrs[l] <= |version[l]|)
    }

    /** Every file the scan has left behind ends before `u`. */
    ghost predicate Passed(u: UserKey)
      requires Valid()
      reads this, levelPtrs
    {
      forall l, i :: level + 2 <= l < NUM_LEVELS && 0 <= i < levelPtrs[l] ==> version[l][i].largest.user < u
    }

    constructor (v: Version, level: nat)
      requires |v| == NUM_LEVELS
      requires forall l :: 1 <= l < NUM_LEVELS ==> ValidFiles(v[l]) && LevelSorted(v[l])
      ensures Valid() && version == v && this.level == level && fresh(levelPtrs)
      ensures forall u :: Passed(u)
    {
      version := v;
      this.level := level;
      levelPtrs := new nat[NUM_LEVELS](_ => 0);
    }

    /** For nondecreasing user keys the remembered scan answers what a full scan would
        (version_set.cc:1533-1552). */
    method IsBaseLevelForKey(u: UserKey) returns (r: bool)
      requires Valid() && Passed(u)
      modifies levelPtrs
      ensures Valid() && Passed(u)
      ensures r <==> BaseLevel(version, level, u)
    {
      var lvl := level + 2;
      while lvl < NUM_LEVELS
        invariant level + 2 <= lvl
        invariant Valid() && Passed(u)
        invariant forall l, f :: level + 2 <= l < lvl && l < NUM_LEVELS && f in version[l] ==>
                                   !(f.smallest.user <= u <= f.largest.user)
      {
        var files := version[lvl];
        while levelPtrs[lvl] < |files|
          invariant Valid() && Passed(u)
          invariant levelPtrs[lvl] <= |files|
          decreases |files| - levelPtrs[lvl]
        {
          var f := files[levelPtrs[lvl]];
          if u <= f.largest.user {
            if u >= f.smallest.user {
              assert f in version[lvl];
              return false;
            }
            break;
          }
          levelPtrs[lvl] := levelPtrs[lvl] + 1;
        }
        ghost var p := levelPtrs[lvl];
        assert p < |files| ==> u < files[p].smallest.user;
        forall f | f in files ensures !(f.smallest.user <= u <= f.largest.user) {
          var i :| 0 <= i < |files| && files[i] == f;
          if p <= i { LevelBounds(files, p, i); }
        }
        lvl := lvl + 1;
      }
      r := true;
    }
  }

  // ---- Which entries of the merged input are dropped ----

  /** Rule (A): a newer version of the same user key is already visible to every live snapshot. */
  ghost predicate Shadowed(es: seq<Entry>, i: nat, smallest: nat)
    requires i < |es|
  {
    exists j :: 0 <= j < i && es[j].key.user == es[i].key.user && es[j].key.sequence <= smallest
  }

  /** The tombstone rule. */
  ghost predicate Obsolete(v: Version, level: nat, e: Entry, smallest: nat) {
    e.key.kind == Deletion && e.key.sequence <= smallest && BaseLevel(v, level, e.key.user)
  }

  ghost predicate Drops(v: Version, level: nat, es: seq<Entry>, i: nat, smallest: nat)
    requires i < |es|
  {
    Shadowed(es, i, smallest) || Obsolete(v, level, es[i], smallest)
  }

  ghost function Kept(v: Version, level: nat, es: seq<Entry>, smallest: nat, n: nat): seq<Entry>
    requires n <= |es|
  {
    if n == 0 then []
    else if Drops(v, level, es, n - 1, smallest) then Kept(v, level, es, smallest, n - 1)
    else Kept(v, level, es, smallest, n - 1) + [es[n - 1]]
  }

  ghost function DroppedSet(v: Version, level: nat, es: seq<Entry>, smallest: nat): set<Entry> {
    set i | 0 <= i < |es| && Drops(v, level, es, i, smallest) :: es[i]
  }

  function Flatten(runs: seq<seq<Entry>>): seq<Entry> {
    if runs == [] then [] else Flatten(runs[..|runs| - 1]) + runs[|runs| - 1]
  }

  // ---- Where an output ends ----

  /** One run of the loop: the entries, which of them are dropped, and when an output is cut. */
  datatype Job = Job(v: Version, level: nat, es: seq<Entry>, smallest: nat, stopBefore: nat -> bool, full: seq<Entry> -> bool)

  /** The entries kept of those from `a` on, up to `b`. */
  ghost function Segment(j: Job, a: nat, b: nat): seq<Entry>
    requires a <= b <= |j.es|
  {
    if a == b then []
    else if Drops(j.v, j.level, j.es, b - 1, j.smallest) then Segment(j, a, b - 1)
    else Segment(j, a, b - 1) + [j.es[b - 1]]
  }

  /** From `a` up to `b` nothing has called for a cut: no stop once there is an entry, and no full output. */
  ghost predicate Uncut(j: Job, a: nat, b: nat)
    requires a <= b <= |j.es|
  {
    forall i :: a < i < b ==> UncutAt(j, a, i)
  }

  ghost predicate UncutAt(j: Job, a: nat, i: nat)
    requires a <= i <= |j.es|
  {
    Segment(j, a, i) != [] ==> !j.stopBefore(i) && !j.full(Segment(j, a, i))
  }

  /** An output of the entries from `a` up to `b` is cut there: before an entry to stop before, or because the last entry
      has filled it. */
  ghost predicate CutThere(j: Job, a: nat, b: nat)
    requires a <= b <= |j.es|
  {
    && a < b && Segment(j, a, b) != [] && Uncut(j, a, b)
    && ((b < |j.es| && j.stopBefore(b)) || (j.full(Segment(j, a, b)) && !Drops(j.v, j.level, j.es, b - 1, j.smallest)))
  }

  /** The outputs closed so far lie between these bounds, and what is open goes on from the last of them to `n`. */
  ghost predicate Cuts(j: Job, outputs: seq<seq<Entry>>, bounds: seq<nat>, builder: seq<Entry>, n: nat) {
    && |bounds| == |outputs| + 1 && bounds[0] == 0 && bounds[|outputs|] <= n <= |j.es|
    && (forall k :: 0 <= k < |outputs| ==> OutputAt(j, outputs, bounds, k))
    && builder == Segment(j, bounds[|outputs|], n) && Uncut(j, bounds[|outputs|], n)
    && (builder != [] ==> !j.full(builder))
  }

  ghost predicate OutputAt(j: Job, outputs: seq<seq<Entry>>, bounds: seq<nat>, k: nat)
    requires k < |outputs| && |bounds| == |outputs| + 1
  {
    bounds[k] <= bounds[k + 1] <= |j.es| && outputs[k] == Segment(j, bounds[k], bounds[k + 1]) && CutThere(j, bounds[k], bounds[k + 1]) == true
  }

  /** One output is closed. */
  lemma OneMoreCut(j: Job, outputs: seq<seq<Entry>>, bounds: seq<nat>, output: seq<Entry>, n: nat)
    requires |bounds| == |outputs| + 1 && bounds[0] == 0 && bounds[|outputs|] <= n <= |j.es|
    requires forall k :: 0 <= k < |outputs| ==> OutputAt(j, outputs, bounds, k)
    requires output == Segment(j, bounds[|outputs|], n) && CutThere(j, bounds[|outputs|], n)
    ensures Cuts(j, outputs + [output], bounds + [n], [], n) == true
  {
    var o, b := outputs + [output], bounds + [n];
    forall k | 0 <= k < |o| ensures OutputAt(j, o, b, k) {
      assert k < |outputs| ==> OutputAt(j, outputs, bounds, k);
    }
  }

  /** Stopping before entry `n` closes what is open. */
  lemma StopCuts(j: Job, outputs: seq<seq<Entry>>, bounds: seq<nat>, builder: seq<Entry>, n: nat)
    requires Cuts(j, outputs, bounds, builder, n) && builder != [] && n < |j.es| && j.stopBefore(n)
    ensures Cuts(j, outputs + [builder], bounds + [n], [], n) == true
  {
    OneMoreCut(j, outputs, bounds, builder, n);
  }

  /** Entry `n` is dropped, or kept, which may fill the output. */
  lemma EntryCuts(j: Job, outputs: seq<seq<Entry>>, bounds: seq<nat>, builder: seq<Entry>, n: nat)
    requires Cuts(j, outputs, bounds, builder, n) && n < |j.es| && (builder != [] ==> !j.stopBefore(n))
    ensures Drops(j.v, j.level, j.es, n, j.smallest) ==> Cuts(j, outputs, bounds, builder, n + 1) == true
    ensures !Drops(j.v, j.level, j.es, n, j.smallest) ==>
              if j.full(builder + [j.es[n]]) then Cuts(j, outputs + [builder + [j.es[n]]], bounds + [n + 1], [], n + 1) == true
              else Cuts(j, outputs, bounds, builder + [j.es[n]], n + 1) == true
  {
    var a := bounds[|outputs|];
    forall i | a < i < n + 1 ensures UncutAt(j, a, i) {
      if i < n { assert UncutAt(j, a, i); }
    }
    if !Drops(j.v, j.level, j.es, n, j.smallest) && j.full(builder + [j.es[n]]) {
      OneMoreCut(j, outputs, bounds, builder + [j.es[n]], n + 1);
    }
  }

  /** All entries have been handled, and what was open is the last output. */
  ghost predicate AllCut(j: Job, outputs: seq<seq<Entry>>, bounds: seq<nat>) {
    && |bounds| == |outputs| + 1 && bounds[0] == 0
    && (forall k :: 0 <= k < |outputs| ==> FinalAt(j, outputs, bounds, k))
    && bounds[|outputs|] <= |j.es| && Segment(j, bounds[|outputs|], |j.es|) == []
  }

  ghost predicate FinalAt(j: Job, outputs: seq<seq<Entry>>, bounds: seq<nat>, k: nat)
    requires k < |outputs| && |bounds| == |outputs| + 1
  {
    && bounds[k] <= bounds[k + 1] <= |j.es| && outputs[k] == Segment(j, bounds[k], bounds[k + 1]) != []
    && Uncut(j, bounds[k], bounds[k + 1]) == true
    && (CutThere(j, bounds[k], bounds[k + 1]) == true || (k + 1 == |outputs| && bounds[k + 1] == |j.es|))
  }

  lemma LastCut(j: Job, outputs: seq<seq<Entry>>, bounds: seq<nat>, builder: seq<Entry>)
    requires Cuts(j, outputs, bounds, builder, |j.es|)
    ensures if builder == [] then AllCut(j, outputs, bounds) == true
            else AllCut(j, outputs + [builder], bounds + [|j.es|]) == true
  {
    var o, b := outputs + [builder], bounds + [|j.es|];
    forall k | 0 <= k < |outputs| ensures FinalAt(j, outputs, bounds, k) && FinalAt(j, o, b, k) {
      assert OutputAt(j, outputs, bounds, k);
    }
    assert builder != [] ==> FinalAt(j, o, b, |outputs|);
  }

  /** The state of one compaction run: the outputs closed so far, the open table builder, and the
      user key and sequence number of the entry handled last. */
  class CompactionState {
    const compaction: Compaction
    const input: seq<Entry>
    const smallestSnapshot: nat
    var outputs: seq<seq<Entry>>
    var builder: seq<Entry>
    /** Where the closed outputs end in the input. */
    ghost var bounds: seq<nat>
    var currentUserKey: Option<UserKey>
    var lastSequenceForKey: nat

    constructor (v: Version, level: nat, input: seq<Entry>, smallest: nat)
      requires |v| == NUM_LEVELS
      requires forall l :: 1 <= l < NUM_LEVELS ==> ValidFiles(v[l]) && LevelSorted(v[l])
      requires Sorted(input) && smallest < MAX_SEQUENCE
      ensures Processed(0) && fresh(compaction.levelPtrs)
      ensures compaction.version == v && compaction.level == level
      ensures this.input == input && smallestSnapshot == smallest
      ensures outputs == [] && builder == [] && bounds == [0]
    {
      compaction := new Compaction(v, level);
      this.input, smallestSnapshot := input, smallest;
      outputs, builder, bounds := [], [], [0];
      currentUserKey, lastSequenceForKey := None, MAX_SEQUENCE;
    }

    /** The first `n` input entries have been handled. */
    ghost predicate Processed(n: nat)
      reads this, compaction, compaction.levelPtrs
    {
      && n <= |input| && Sorted(input) && smallestSnapshot < MAX_SEQUENCE
      && compaction.Valid()
      && currentUserKey == (if n == 0 then None else Some(input[n - 1].key.user))
      && (n > 0 ==> lastSequenceForKey == input[n - 1].key.sequence)
      && (n < |input| ==> compaction.Passed(input[n].key.user))
      && Flatten(outputs) + builder == Kept(compaction.version, compaction.level, input, smallestSnapshot, n)
      && [] !in outputs
    }

    /** The two drop rules (db_impl.cc:932-952). */
    method DropEntry(i: nat) returns (drop: bool)
      requires Processed(i) && i < |input|
      modifies this`currentUserKey, this`lastSequenceForKey, compaction.levelPtrs
      ensures compaction.Valid() && compaction.Passed(input[i].key.user)
      ensures currentUserKey == Some(input[i].key.user) && lastSequenceForKey == input[i].key.sequence
      ensures drop <==> Drops(compaction.version, compaction.level, input, i, smallestSnapshot)
    {
      ShadowedByPrevious(input, i, smallestSnapshot);
      var ikey := input[i].key;
      if currentUserKey != Some(ikey.user) {
        currentUserKey := Some(ikey.user);
        lastSequenceForKey := MAX_SEQUENCE;
      }
      drop := false;
      if lastSequenceForKey <= smallestSnapshot {
        drop := true;
      } else if ikey.kind == Deletion && ikey.sequence <= smallestSnapshot {
        drop := compaction.IsBaseLevelForKey(ikey.user);
      }
      lastSequenceForKey := ikey.sequence;
    }

    /** Close the open output, if any, as one more table file; `n` entries have been handled. */
    method FinishOutput(ghost n: nat)
      requires [] !in outputs
      modifies this`outputs, this`builder, this`bounds
      ensures Flatten(outputs) == old(Flatten(outputs) + builder)
      ensures [] !in outputs && builder == []
      ensures if old(builder) == [] then outputs == old(outputs) && bounds == old(bounds)
              else outputs == old(outputs) + [old(builder)] && bounds == old(bounds) + [n]
    {
      if builder != [] {
        assert (outputs + [builder])[..|outputs|] == outputs;
        outputs, builder, bounds := outputs + [builder], [], bounds + [n];
      }
    }

    /** The loop is doing this job, and has cut where it should. */
    ghost predicate Doing(j: Job, n: nat)
      reads this, compaction
    {
      && j.v == compaction.version && j.level == compaction.level && j.es == input && j.smallest == smallestSnapshot
      && Cuts(j, outputs, bounds, builder, n) == true
    }

    /** ShouldStopBefore calls for a cut (db_impl.cc:921-927). */
    method CutBefore(i: nat, stopBefore: bool, ghost j: Job)
      requires Processed(i) && i < |input| && Doing(j, i) == true && stopBefore == j.stopBefore(i)
      modifies this`outputs, this`builder, this`bounds
      ensures Processed(i) && Doing(j, i) == true && (builder != [] ==> !j.stopBefore(i))
    {
      if stopBefore {
        if builder != [] { StopCuts(j, outputs, bounds, builder, i); }
        FinishOutput(i);
      }
    }

    /** Put the entry into the open output, and close that if it is full (db_impl.cc:973-995). */
    method AddEntry(i: nat, full: seq<Entry> -> bool, ghost j: Job)
      requires i < |input| && Doing(j, i) == true && full == j.full && [] !in outputs
      requires (builder != [] ==> !j.stopBefore(i)) && !Drops(j.v, j.level, j.es, i, j.smallest)
      modifies this`outputs, this`builder, this`bounds
      ensures Flatten(outputs) + builder == old(Flatten(outputs) + builder) + [input[i]] && [] !in outputs
      ensures Doing(j, i + 1) == true
    {
      EntryCuts(j, outputs, bounds, builder, i);
      assert Flatten(outputs) + (builder + [input[i]]) == Flatten(outputs) + builder + [input[i]];
      builder := builder + [input[i]];
      if full(builder) {
        FinishOutput(i + 1);
      }
    }

    method ProcessEntry(i: nat, stopBefore: bool, full: seq<Entry> -> bool, ghost j: Job)
      requires Processed(i) && i < |input| && Doing(j, i) == true && stopBefore == j.stopBefore(i) && full == j.full
      modifies this`outputs, this`builder, this`bounds, this`currentUserKey, this`lastSequenceForKey, compaction.levelPtrs
      ensures Processed(i + 1) && Doing(j, i + 1) == true
    {
      CutBefore(i, stopBefore, j);
      var drop := DropEntry(i);
      if drop {
        EntryCuts(j, outputs, bounds, builder, i);
      } else {
        AddEntry(i, full, j);
      }
      if i + 1 < |input| {
        assert Less(input[i].key, input[i + 1].key);
      }
    }
  }

  /** The merge loop of a compaction (db_impl.cc:890-985).  `input` is what the merging iterator yields; `stopBefore`
      stands for ShouldStopBefore and `full` for the size test.  The kept entries come out in order, cut into outputs
      where an entry is to be stopped before or an output is full, and nowhere else. */
  method DoCompactionWork(v: Version, level: nat, input: seq<Entry>, smallest: nat,
                          stopBefore: nat -> bool, full: seq<Entry> -> bool)
    returns (outputs: seq<seq<Entry>>, ghost bounds: seq<nat>)
    requires |v| == NUM_LEVELS
    requires forall l :: 1 <= l < NUM_LEVELS ==> ValidFiles(v[l]) && LevelSorted(v[l])
    requires Sorted(input) && smallest < MAX_SEQUENCE
    ensures Flatten(outputs) == Kept(v, level, input, smallest, |input|)
    ensures [] !in outputs
    ensures AllCut(Job(v, level, input, smallest, stopBefore, full), outputs, bounds) == true
  {
    var compact := new CompactionState(v, level, input, smallest);
    ghost var j := Job(v, level, input, smallest, stopBefore, full);
    for i := 0 to |input|
      invariant compact.Processed(i) && fresh(compact) && fresh(compact.compaction.levelPtrs)
      invariant compact.Doing(j, i) == true
    {
      compact.ProcessEntry(i, stopBefore(i), full, j);
    }
    LastCut(j, compact.outputs, compact.bounds, compact.builder);
    compact.FinishOutput(|input|);
    outputs, bounds := compact.outputs, compact.bounds;
  }

  /** Remembering only the previous entry's sequence number is enough for rule (A). */
  lemma ShadowedByPrevious(es: seq<Entry>, i: nat, smallest: nat)
    requires Sorted(es) && i < |es|
    ensures Shadowed(es, i, smallest) <==>
            i > 0 && es[i - 1].key.user == es[i].key.user && es[i - 1].key.sequence <= smallest
  {
    if Shadowed(es, i, smallest) {
      var j :| 0 <= j < i && es[j].key.user == es[i].key.user && es[j].key.sequence <= smallest;
      assert j < i - 1 ==> Less(es[j].key, es[i - 1].key);
      assert Less(es[i - 1].key, es[i].key);
    }
  }

  // ---- What the kept entries are ----

  lemma {:induction false} KeptContents(v: Version, level: nat, es: seq<Entry>, smallest: nat, n: nat)
    requires n <= |es|
    ensures forall e :: e in Kept(v, level, es, smallest, n) <==>
                          exists i :: 0 <= i < n && es[i] == e && !Drops(v, level, es, i, smallest)
  {
    if n > 0 { KeptContents(v, level, es, smallest, n - 1); }
  }

  lemma {:induction false} KeptSorted(v: Version, level: nat, es: seq<Entry>, smallest: nat, n: nat)
    requires n <= |es| && Sorted(es)
    ensures Sorted(Kept(v, level, es, smallest, n))
  {
    if n > 0 {
      KeptSorted(v, level, es, smallest, n - 1);
      var k := Kept(v, level, es, smallest, n - 1);
      forall a | 0 <= a < |k| ensures Less(k[a].key, es[n - 1].key) {
        KeptContents(v, level, es, smallest, n - 1);
        assert k[a] in k;
      }
    }
  }

  /** The outputs hold exactly the input entries that are not dropped. */
  lemma KeptIsRest(v: Version, level: nat, es: seq<Entry>, smallest: nat)
    requires Sorted(es)
    ensures Contents(Kept(v, level, es, smallest, |es|)) == Contents(es) - DroppedSet(v, level, es, smallest)
  {
    KeptContents(v, level, es, smallest, |es|);
    forall i, j | 0 <= i < j < |es| ensures es[i] != es[j] {
      assert Less(es[i].key, es[j].key);
    }
  }

  // ---- Invisibility ----

  /** No dropped tombstone was hiding a version that stays behind: whenever the newest version at the
      smallest live snapshot is dropped, the versions outside the inputs read as absent there. */
  ghost predicate NoResurrection(v: Version, level: nat, es: seq<Entry>, smallest: nat, S: set<Entry>) {
    forall u, d :: Newest(S, u, smallest, d) && d in DroppedSet(v, level, es, smallest) ==>
                     Read(S - Contents(es), u, smallest).None?
  }

  ghost predicate SameReads(S: set<Entry>, T: set<Entry>, smallest: nat) {
    forall u, s :: s >= smallest ==> Read(S, u, s) == Read(T, u, s)
  }

  lemma Descending(es: seq<Entry>, S: set<Entry>)
    requires Sorted(es) && UniqueSequences(S) && Contents(es) <= S
    ensures forall a, b :: 0 <= a < b < |es| && es[a].key.user == es[b].key.user ==>
                             es[a].key.sequence > es[b].key.sequence
    ensures forall e :: e in es ==> e in S
  {
    forall a, b | 0 <= a < b < |es| && es[a].key.user == es[b].key.user
      ensures es[a].key.sequence > es[b].key.sequence
    {
      assert Less(es[a].key, es[b].key);
      assert es[a] in Contents(es) && es[b] in Contents(es);
    }
    assert forall e :: e in es ==> e in Contents(es);
  }

  lemma SubsetUnique(S: set<Entry>, T: set<Entry>)
    requires UniqueSequences(S) && T <= S
    ensures UniqueSequences(T)
  {}

  /** If the newest visible version is dropped it is a tombstone, and what a reader then sees is
      exactly what was left outside the inputs. */
  lemma DroppedNewest(v: Version, level: nat, es: seq<Entry>, smallest: nat, S: set<Entry>,
                      u: UserKey, s: nat, d: Entry)
    requires Sorted(es) && UniqueSequences(S) && Contents(es) <= S && smallest <= s
    requires Newest(S, u, s, d) && d in DroppedSet(v, level, es, smallest)
    ensures d.key.kind == Deletion && Newest(S, u, smallest, d)
    ensures NewestEntry(S - DroppedSet(v, level, es, smallest), u, s)
            == NewestEntry(S - Contents(es), u, smallest)
  {
    var D := DroppedSet(v, level, es, smallest);
    var i :| 0 <= i < |es| && es[i] == d && Drops(v, level, es, i, smallest);
    Descending(es, S);
    assert !Shadowed(es, i, smallest);
    forall k | i < k < |es| && es[k].key.user == u ensures es[k] in D {
      assert Shadowed(es, k, smallest);
    }
    forall c | c in S - D && Candidate(c, u, s) ensures c in S - Contents(es) && Candidate(c, u, smallest) {
      assert c !in es;
    }
    NewestMeaning(S - Contents(es), u, smallest);
    SubsetUnique(S, S - D);
    NewestDecides(S - D, u, s, NewestEntry(S - Contents(es), u, smallest));
  }

  /** Replacing the inputs by the outputs is invisible to every snapshot at or above the smallest live
      one exactly when no dropped tombstone exposes an older version left outside the inputs. */
  lemma CompactionInvisible(v: Version, level: nat, es: seq<Entry>, smallest: nat, S: set<Entry>)
    requires Sorted(es) && UniqueSequences(S) && Contents(es) <= S
    ensures SameReads(S - DroppedSet(v, level, es, smallest), S, smallest)
            <==> NoResurrection(v, level, es, smallest, S)
  {
    var D := DroppedSet(v, level, es, smallest);
    SubsetUnique(S, S - D);
    forall u, s | s >= smallest && NoResurrection(v, level, es, smallest, S)
      ensures Read(S - D, u, s) == Read(S, u, s)
    {
      NewestMeaning(S, u, s);
      match NewestEntry(S, u, s) {
        case None => NewestDecides(S - D, u, s, None);
        case Some(e) =>
          if e in D {
            DroppedNewest(v, level, es, smallest, S, u, s, e);
          } else {
            NewestDecides(S - D, u, s, Some(e));
          }
      }
    }
    forall u, d | SameReads(S - D, S, smallest) && Newest(S, u, smallest, d) && d in D
      ensures Read(S - Contents(es), u, smallest).None?
    {
      DroppedNewest(v, level, es, smallest, S, u, smallest, d);
      NewestDecides(S, u, smallest, Some(d));
      assert Read(S - D, u, smallest) == Read(S, u, smallest);
    }
  }
}
