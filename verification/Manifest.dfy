/** Version edits and the builder that applies them (db/version_set VersionSet::Builder). */
module Manifest {
  import opened InternalKeys
  import opened Versions

  /** Files deleted and added, each tagged with its level. */
  datatype VersionEdit = VersionEdit(deleted: set<(nat, nat)>, added: seq<(nat, FileMeta)>)

  ghost predicate ValidEdit(e: VersionEdit) {
    && (forall d :: d in e.deleted ==> d.0 < NUM_LEVELS)
    && (forall a :: a in e.added ==> a.0 < NUM_LEVELS)
  }

  /** BySmallestKey: by smallest key, ties broken by file number. */
  predicate FileBefore(f: FileMeta, g: FileMeta) {
    Less(f.smallest, g.smallest) || (!Less(g.smallest, f.smallest) && f.number < g.number)
  }

  ghost predicate Ordered(fs: seq<FileMeta>) {
    forall i, j :: 0 <= i < j < |fs| ==> FileBefore(fs[i], fs[j])
  }

  ghost predicate OrderedVersion(v: Version) {
    |v| == NUM_LEVELS && forall l :: 0 <= l < |v| ==> Ordered(v[l])
  }

  /** An ordered list of files is determined by its members. */
  lemma {:induction false} OrderedUnique(a: seq<FileMeta>, b: seq<FileMeta>)
    requires Ordered(a) && Ordered(b)
    requires forall f :: f in a <==> f in b
    ensures a == b
  {
    if a == [] || b == [] {
      HasMember(a);
      HasMember(b);
    } else {
      FirstIsLeast(a, b[0]);
      FirstIsLeast(b, a[0]);
      forall f ensures f in a[1..] <==> f in b[1..] {
        TailMembers(a, f);
        TailMembers(b, f);
      }
      OrderedUnique(a[1..], b[1..]);
      assert a == [a[0]] + a[1..] && b == [b[0]] + b[1..];
    }
  }

  lemma HasMember(a: seq<FileMeta>)
    ensures a == [] || exists f :: f in a
  {
    assert a == [] || a[0] in a;
  }

  lemma FirstIsLeast(a: seq<FileMeta>, f: FileMeta)
    requires Ordered(a) && a != []
    ensures a[0] in a
    ensures f in a ==> f == a[0] || FileBefore(a[0], f)
  {}

  lemma TailMembers(a: seq<FileMeta>, f: FileMeta)
    requires Ordered(a) && a != []
    ensures f in a[1..] <==> f in a && f != a[0]
  {
    if f in a[1..] {
      var i :| 0 <= i < |a[1..]| && a[1..][i] == f;
      assert a[i + 1] == f && FileBefore(a[0], a[i + 1]);
    }
  }

  /** First index at which a file ordered after `f` stands (std::upper_bound). */
  function UpperBound(fs: seq<FileMeta>, f: FileMeta): (i: nat)
    ensures i <= |fs|
    ensures forall j :: 0 <= j < i ==> !FileBefore(f, fs[j])
    ensures i < |fs| ==> FileBefore(f, fs[i])
  {
    if fs == [] || FileBefore(f, fs[0]) then 0 else 1 + UpperBound(fs[1..], f)
  }

  ghost function FilesOf(fs: seq<FileMeta>): set<FileMeta> {
    set f | f in fs
  }

  ghost predicate NumbersApart(a: seq<FileMeta>, b: seq<FileMeta>) {
    forall f, g :: f in a && g in b ==> f.number != g.number
  }

  /** The order tells the files apart. */
  predicate Distinct(f: FileMeta, g: FileMeta) {
    FileBefore(f, g) || FileBefore(g, f)
  }

  ghost predicate ToldApart(a: seq<FileMeta>, b: seq<FileMeta>) {
    forall f, g :: f in a && g in b ==> Distinct(f, g)
  }

  ghost predicate SameOrToldApart(a: seq<FileMeta>, b: seq<FileMeta>) {
    forall f, g :: f in a && g in b ==> f == g || Distinct(f, g)
  }

  /** Insertion into a std::set ordered by FileBefore. */
  function InsertOrdered(fs: seq<FileMeta>, f: FileMeta): seq<FileMeta> {
    var i := UpperBound(fs, f);
    if i > 0 && !FileBefore(fs[i - 1], f) then fs else fs[..i] + [f] + fs[i..]
  }

  lemma StaysAsItIs(fs: seq<FileMeta>, f: FileMeta)
    requires Ordered(fs) && f in fs
    ensures InsertOrdered(fs, f) == fs
  {
    var i := UpperBound(fs, f);
    var p :| 0 <= p < |fs| && fs[p] == f;
    assert p < i && forall q :: p < q < |fs| ==> FileBefore(f, fs[q]);
  }

  lemma InsertOrderedKeeps(fs: seq<FileMeta>, f: FileMeta)
    requires Ordered(fs) && SameOrToldApart(fs, [f])
    ensures Ordered(InsertOrdered(fs, f))
    ensures FilesOf(InsertOrdered(fs, f)) == FilesOf(fs) + {f}
  {
    var i := UpperBound(fs, f);
    assert f in [f];
    if f in fs {
      StaysAsItIs(fs, f);
      return;
    }
    forall j | 0 <= j < i ensures FileBefore(fs[j], f) {
      assert fs[j] in fs;
    }
    forall j | i <= j < |fs| ensures FileBefore(f, fs[j]) {
      if i < j { assert FileBefore(fs[i], fs[j]); }
    }
    SpliceOrdered(fs, i, f);
    SpliceMembers(fs, i, f);
  }

  lemma SpliceMembers(fs: seq<FileMeta>, i: nat, f: FileMeta)
    requires i <= |fs|
    ensures FilesOf(fs[..i] + [f] + fs[i..]) == FilesOf(fs) + {f}
  {
    assert fs == fs[..i] + fs[i..];
    forall g ensures g in fs[..i] + [f] + fs[i..] <==> g in fs || g == f {
      assert g in fs <==> g in fs[..i] || g in fs[i..];
    }
  }

  lemma SpliceOrdered(fs: seq<FileMeta>, i: nat, f: FileMeta)
    requires Ordered(fs) && i <= |fs|
    requires forall j :: 0 <= j < i ==> FileBefore(fs[j], f)
    requires forall j :: i <= j < |fs| ==> FileBefore(f, fs[j])
    ensures Ordered(fs[..i] + [f] + fs[i..])
  {
    var r := fs[..i] + [f] + fs[i..];
    forall a, b | 0 <= a < b < |r| ensures FileBefore(r[a], r[b]) {
      assert r[a] == if a < i then fs[a] else if a == i then f else fs[a - 1];
      assert r[b] == if b < i then fs[b] else if b == i then f else fs[b - 1];
    }
  }

  // ---- What an edit does to one level, on sets of files ----

  ghost function NumbersDeleted(e: VersionEdit, l: nat): set<nat> {
    set d | d in e.deleted && d.0 == l :: d.1
  }

  ghost function FilesAdded(e: VersionEdit, l: nat): set<FileMeta> {
    set a | a in e.added && a.0 == l :: a.1
  }

  ghost function NumbersOf(fs: set<FileMeta>): set<nat> {
    set f | f in fs :: f.number
  }

  /** A builder's view of one level: numbers to leave out, files to put in. */
  datatype LevelState = LevelState(deleted: set<nat>, added: set<FileMeta>)

  /** Deletions first, then additions, each addition cancelling a pending deletion. */
  ghost function ApplyLevel(ls: LevelState, e: VersionEdit, l: nat): LevelState {
    LevelState(ls.deleted + NumbersDeleted(e, l) - NumbersOf(FilesAdded(e, l)), ls.added + FilesAdded(e, l))
  }

  ghost function SavedLevel(base: set<FileMeta>, ls: LevelState): set<FileMeta> {
    set f | f in base + ls.added && f.number !in ls.deleted
  }

  const EMPTY := LevelState({}, {})

  // ---- The builder ----

  /** Every addition has a place of its own among the files its level already knows; adding one twice is adding it
      once. */
  ghost predicate OwnPlaces(base: Version, added: seq<seq<FileMeta>>, edit: seq<(nat, FileMeta)>)
    requires |base| == |added| == NUM_LEVELS
  {
    && (forall a :: a in edit ==> a.0 < NUM_LEVELS)
    && (forall a :: a in edit ==> ToldApart(base[a.0], [a.1]) && SameOrToldApart(added[a.0], [a.1]))
    && (forall i, j :: 0 <= i < j < |edit| && edit[i].0 == edit[j].0 ==>
          edit[i].1 == edit[j].1 || Distinct(edit[i].1, edit[j].1))
  }

  class Builder {
    const base: Version
    var deletedFiles: seq<set<nat>>
    var addedFiles: seq<seq<FileMeta>>

    constructor (base: Version)
      requires OrderedVersion(base)
      ensures Valid() && this.base == base
      ensures forall l :: 0 <= l < NUM_LEVELS ==> State(l) == EMPTY && addedFiles[l] == []
    {
      this.base := base;
      deletedFiles := seq(NUM_LEVELS, _ => {});
      addedFiles := seq(NUM_LEVELS, _ => []);
    }

    ghost predicate Valid()
      reads this
    {
      && OrderedVersion(base) && |deletedFiles| == |addedFiles| == NUM_LEVELS
      && forall l :: 0 <= l < NUM_LEVELS ==> Ordered(addedFiles[l]) && ToldApart(base[l], addedFiles[l])
    }

    ghost function State(l: nat): LevelState
      requires |deletedFiles| == |addedFiles| == NUM_LEVELS && l < NUM_LEVELS
      reads this
    {
      LevelState(deletedFiles[l], FilesOf(addedFiles[l]))
    }

    method Delete(level: nat, number: nat)
      requires Valid() && level < NUM_LEVELS
      modifies this`deletedFiles
      ensures Valid()
      ensures deletedFiles == old(deletedFiles)[level := old(deletedFiles)[level] + {number}]
    {
      deletedFiles := deletedFiles[level := deletedFiles[level] + {number}];
    }

    method Add(level: nat, f: FileMeta)
      requires Valid() && level < NUM_LEVELS
      requires ToldApart(base[level], [f]) && SameOrToldApart(addedFiles[level], [f])
      modifies this`deletedFiles, this`addedFiles
      ensures Valid()
      ensures deletedFiles == old(deletedFiles)[level := old(deletedFiles)[level] - {f.number}]
      ensures addedFiles == old(addedFiles)[level := InsertOrdered(old(addedFiles)[level], f)]
    {
      InsertOrderedKeeps(addedFiles[level], f);
      assert forall g :: g in InsertOrdered(addedFiles[level], f) ==> g in FilesOf(addedFiles[level]) + {f};
      assert f in [f];
      deletedFiles := deletedFiles[level := deletedFiles[level] - {f.number}];
      addedFiles := addedFiles[level := InsertOrdered(addedFiles[level], f)];
    }

    /** One edit's deletions, then its additions (version_set.cc:650-692). */
    method Apply(edit: VersionEdit)
      requires Valid() && ValidEdit(edit) && OwnPlaces(base, addedFiles, edit.added)
      modifies this`deletedFiles, this`addedFiles
      ensures Valid()
      ensures forall l :: 0 <= l < NUM_LEVELS ==> State(l) == ApplyLevel(old(State(l)), edit, l)
    {
      ApplyDeletions(edit);
      ApplyAdditions(edit);
    }

    method ApplyDeletions(edit: VersionEdit)
      requires Valid() && ValidEdit(edit)
      modifies this`deletedFiles
      ensures Valid()
      ensures forall l :: 0 <= l < NUM_LEVELS ==> deletedFiles[l] == old(deletedFiles)[l] + NumbersDeleted(edit, l)
    {
      var del := edit.deleted;
      while del != {}
        invariant Valid() && del <= edit.deleted
        invariant forall l :: 0 <= l < NUM_LEVELS ==>
                    deletedFiles[l] == old(deletedFiles)[l] + NumbersDeleted(VersionEdit(edit.deleted - del, []), l)
        decreases del
      {
        var d :| d in del;
        Delete(d.0, d.1);
        del := del - {d};
      }
      assert edit.deleted - {} == edit.deleted;
    }

    method ApplyAdditions(edit: VersionEdit)
      requires Valid() && OwnPlaces(base, addedFiles, edit.added)
      modifies this`deletedFiles, this`addedFiles
      ensures Valid()
      ensures forall l :: 0 <= l < NUM_LEVELS ==>
                deletedFiles[l] == old(deletedFiles)[l] - NumbersOf(FilesAdded(edit, l))
      ensures forall l :: 0 <= l < NUM_LEVELS ==>
                FilesOf(addedFiles[l]) == FilesOf(old(addedFiles)[l]) + FilesAdded(edit, l)
    {
      ghost var deleted0, added0 := deletedFiles, addedFiles;
      assert edit.added[..0] == [] && edit.added[0..] == edit.added;
      for i := 0 to |edit.added|
        invariant Valid() && OwnPlaces(base, addedFiles, edit.added[i..]) == true
        invariant Took(deleted0, added0, deletedFiles, addedFiles, edit.added[..i]) == true
      {
        var a := edit.added[i];
        FreshStep(base, addedFiles, edit.added[i..]);
        TookOne(deleted0, added0, deletedFiles, addedFiles, edit.added, i);
        Add(a.0, a.1);
        assert edit.added[i..][1..] == edit.added[i + 1..];
      }
      assert edit.added[..|edit.added|] == edit.added;
      TookAll(deleted0, added0, deletedFiles, addedFiles, edit);
    }

    /** Merge the added files into the base, leaving deleted ones out (version_set.cc:695-754). */
    method SaveTo() returns (v: Version)
      requires Valid()
      ensures OrderedVersion(v)
      ensures forall l :: 0 <= l < NUM_LEVELS ==> FilesOf(v[l]) == SavedLevel(FilesOf(base[l]), State(l))
    {
      v := [];
      for level := 0 to NUM_LEVELS
        invariant |v| == level
        invariant forall l :: 0 <= l < level ==> Ordered(v[l])
        invariant forall l :: 0 <= l < level ==> FilesOf(v[l]) == SavedLevel(FilesOf(base[l]), State(l))
      {
        var fs := SaveLevel(base[level], addedFiles[level], deletedFiles[level]);
        v := v + [fs];
      }
    }
  }

  lemma FreshStep(base: Version, added: seq<seq<FileMeta>>, rest: seq<(nat, FileMeta)>)
    requires |base| == |added| == NUM_LEVELS && rest != [] && OwnPlaces(base, added, rest)
    requires Ordered(added[rest[0].0])
    ensures rest[0].0 < NUM_LEVELS
    ensures ToldApart(base[rest[0].0], [rest[0].1]) && SameOrToldApart(added[rest[0].0], [rest[0].1])
    ensures OwnPlaces(base,
              added[rest[0].0 := InsertOrdered(added[rest[0].0], rest[0].1)], rest[1..])
  {
    var a := rest[0];
    assert a in rest;
    InsertOrderedKeeps(added[a.0], a.1);
    assert forall g :: g in InsertOrdered(added[a.0], a.1) <==> g in FilesOf(InsertOrdered(added[a.0], a.1));
    forall b | b in rest[1..] && b.0 == a.0
      ensures SameOrToldApart(InsertOrdered(added[a.0], a.1), [b.1])
    {
      var j :| 0 <= j < |rest[1..]| && rest[1..][j] == b;
      assert rest[j + 1] == b && b in rest;
      assert b.1 in [b.1];
    }
    assert forall b :: b in rest[1..] ==> b in rest;
  }

  /** What a builder holds after these additions. */
  ghost predicate Took(deleted0: seq<set<nat>>, added0: seq<seq<FileMeta>>, deleted: seq<set<nat>>, added: seq<seq<FileMeta>>,
                       adds: seq<(nat, FileMeta)>)
  {
    && |deleted0| == |added0| == |deleted| == |added| == NUM_LEVELS
    && forall l :: 0 <= l < NUM_LEVELS ==>
         && deleted[l] == deleted0[l] - NumbersOf(FilesAdded(VersionEdit({}, adds), l))
         && FilesOf(added[l]) == FilesOf(added0[l]) + FilesAdded(VersionEdit({}, adds), l)
  }

  lemma TookOne(deleted0: seq<set<nat>>, added0: seq<seq<FileMeta>>, deleted: seq<set<nat>>, added: seq<seq<FileMeta>>,
                adds: seq<(nat, FileMeta)>, i: nat)
    requires i < |adds| && Took(deleted0, added0, deleted, added, adds[..i]) && adds[i].0 < NUM_LEVELS
    requires Ordered(added[adds[i].0]) && SameOrToldApart(added[adds[i].0], [adds[i].1])
    ensures var l, f := adds[i].0, adds[i].1;
      Took(deleted0, added0, deleted[l := deleted[l] - {f.number}], added[l := InsertOrdered(added[l], f)], adds[..i + 1]) == true
  {
    AddedStep(adds, i);
    InsertOrderedKeeps(added[adds[i].0], adds[i].1);
  }

  lemma TookAll(deleted0: seq<set<nat>>, added0: seq<seq<FileMeta>>, deleted: seq<set<nat>>, added: seq<seq<FileMeta>>,
                edit: VersionEdit)
    requires Took(deleted0, added0, deleted, added, edit.added)
    ensures forall l :: 0 <= l < NUM_LEVELS ==> deleted[l] == deleted0[l] - NumbersOf(FilesAdded(edit, l))
    ensures forall l :: 0 <= l < NUM_LEVELS ==> FilesOf(added[l]) == FilesOf(added0[l]) + FilesAdded(edit, l)
  {
    assert forall l: nat :: FilesAdded(VersionEdit({}, edit.added), l) == FilesAdded(edit, l);
  }

  lemma AddedStep(added: seq<(nat, FileMeta)>, i: nat)
    requires i < |added|
    ensures forall l: nat :: FilesAdded(VersionEdit({}, added[..i + 1]), l)
              == FilesAdded(VersionEdit({}, added[..i]), l) + if l == added[i].0 then {added[i].1} else {}
  {
    assert added[..i + 1] == added[..i] + [added[i]];
    forall l: nat
      ensures FilesAdded(VersionEdit({}, added[..i + 1]), l)
              == FilesAdded(VersionEdit({}, added[..i]), l) + if l == added[i].0 then {added[i].1} else {}
    {
      forall f ensures f in FilesAdded(VersionEdit({}, added[..i + 1]), l) <==>
                       f in FilesAdded(VersionEdit({}, added[..i]), l) || (l == added[i].0 && f == added[i].1)
      {
        assert (l, f) in added[..i + 1] <==> (l, f) in added[..i] || (l, f) == added[i];
      }
    }
  }

  /** `out` is the merge of the first `b` base files and the first `i` added ones, deleted ones left out,
      and everything merged so far stands before everything still to come. */
  ghost predicate Merged(base: seq<FileMeta>, added: seq<FileMeta>, deleted: set<nat>, b: nat, i: nat,
                         out: seq<FileMeta>)
  {
    && b <= |base| && i <= |added| && Ordered(out)
    && (forall f :: f in out <==> (f in base[..b] || f in added[..i]) && f.number !in deleted)
    && (forall j, k :: 0 <= j < b && i <= k < |added| ==> FileBefore(base[j], added[k]))
    && (forall j, k :: b <= j < |base| && 0 <= k < i ==> FileBefore(added[k], base[j]))
  }

  /** MaybeAddFile (version_set.cc:741-754). */
  function MaybeAddFile(out: seq<FileMeta>, deleted: set<nat>, f: FileMeta): seq<FileMeta> {
    if f.number in deleted then out else out + [f]
  }

  lemma TakeBase(base: seq<FileMeta>, added: seq<FileMeta>, deleted: set<nat>, b: nat, i: nat, out: seq<FileMeta>)
    requires Ordered(base) && Ordered(added) && Merged(base, added, deleted, b, i, out) && b < |base|
    requires forall k :: i <= k < |added| ==> FileBefore(base[b], added[k])
    ensures Merged(base, added, deleted, b + 1, i, MaybeAddFile(out, deleted, base[b]))
  {
    assert base[..b + 1] == base[..b] + [base[b]];
    forall f | f in out ensures FileBefore(f, base[b]) {
      if f in base[..b] {
        var j :| 0 <= j < b && base[j] == f;
      } else {
        var k :| 0 <= k < i && added[k] == f;
      }
    }
  }

  lemma TakeAdded(base: seq<FileMeta>, added: seq<FileMeta>, deleted: set<nat>, b: nat, i: nat, out: seq<FileMeta>)
    requires Ordered(base) && Ordered(added) && Merged(base, added, deleted, b, i, out) && i < |added|
    requires forall j :: b <= j < |base| ==> FileBefore(added[i], base[j])
    ensures Merged(base, added, deleted, b, i + 1, MaybeAddFile(out, deleted, added[i]))
  {
    assert added[..i + 1] == added[..i] + [added[i]];
    forall f | f in out ensures FileBefore(f, added[i]) {
      if f in base[..b] {
        var j :| 0 <= j < b && base[j] == f;
      } else {
        var k :| 0 <= k < i && added[k] == f;
      }
    }
  }

  /** `p` is where the base files ordered after `f` begin. */
  method FindUpperBound(base: seq<FileMeta>, from: nat, f: FileMeta) returns (p: nat)
    requires Ordered(base) && from <= |base| && ToldApart(base, [f])
    ensures from <= p <= |base|
    ensures forall j :: from <= j < p ==> FileBefore(base[j], f)
    ensures forall j :: p <= j < |base| ==> FileBefore(f, base[j])
  {
    p := from + UpperBound(base[from..], f);
    forall j | from <= j < p ensures FileBefore(base[j], f) {
      assert base[j] == base[from..][j - from];
      assert base[j] in base && f in [f];
    }
    forall j | p <= j < |base| ensures FileBefore(f, base[j]) {
      assert base[p] == base[from..][p - from];
      if p < j { assert FileBefore(base[p], base[j]); }
    }
  }

  /** One level of the merge: before each added file, the base files ordered before it. */
  method SaveLevel(base: seq<FileMeta>, added: seq<FileMeta>, deleted: set<nat>) returns (out: seq<FileMeta>)
    requires Ordered(base) && Ordered(added) && ToldApart(base, added)
    ensures Ordered(out)
    ensures FilesOf(out) == SavedLevel(FilesOf(base), LevelState(deleted, FilesOf(added)))
  {
    out := [];
    var b := 0;
    for i := 0 to |added|
      invariant Merged(base, added, deleted, b, i, out)
    {
      assert added[i] in added;
      var bpos := FindUpperBound(base, b, added[i]);
      while b < bpos
        invariant b <= bpos && Merged(base, added, deleted, b, i, out)
      {
        forall k | i <= k < |added| ensures FileBefore(base[b], added[k]) {
          if i < k { assert FileBefore(added[i], added[k]); }
        }
        TakeBase(base, added, deleted, b, i, out);
        out := MaybeAddFile(out, deleted, base[b]);
        b := b + 1;
      }
      TakeAdded(base, added, deleted, b, i, out);
      out := MaybeAddFile(out, deleted, added[i]);
    }
    while b < |base|
      invariant Merged(base, added, deleted, b, |added|, out)
    {
      TakeBase(base, added, deleted, b, |added|, out);
      out := MaybeAddFile(out, deleted, base[b]);
      b := b + 1;
    }
    assert base[..|base|] == base && added[..|added|] == added;
  }

  // ---- Replay equals history ----

  ghost function ApplyAll(es: seq<VersionEdit>, l: nat): LevelState {
    if es == [] then EMPTY else ApplyLevel(ApplyAll(es[..|es| - 1], l), es[|es| - 1], l)
  }

  /** Installing one version per edit. */
  ghost function InstallAll(base: set<FileMeta>, es: seq<VersionEdit>, l: nat): set<FileMeta> {
    if es == [] then base
    else SavedLevel(InstallAll(base, es[..|es| - 1], l), ApplyLevel(EMPTY, es[|es| - 1], l))
  }

  /** No edit adds a number the level started with or was given by an earlier edit. */
  ghost predicate AddedOnce(base: set<FileMeta>, es: seq<VersionEdit>, l: nat) {
    forall k :: 0 <= k < |es| ==>
      NumbersOf(FilesAdded(es[k], l)) !! NumbersOf(base + ApplyAll(es[..k], l).added)
  }

  /** If no (level, number) is added twice, one builder fed the whole history saves what installing the
      edits one version at a time gives (version_set.cc:924-998 against 816-821). */
  lemma {:induction false} ReplayEqualsHistory(base: set<FileMeta>, es: seq<VersionEdit>, l: nat)
    requires AddedOnce(base, es, l)
    ensures SavedLevel(base, ApplyAll(es, l)) == InstallAll(base, es, l)
  {
    if es != [] {
      var n := |es| - 1;
      forall k | 0 <= k < n
        ensures NumbersOf(FilesAdded(es[..n][k], l)) !! NumbersOf(base + ApplyAll(es[..n][..k], l).added)
      {
        assert es[..n][..k] == es[..k];
      }
      ReplayEqualsHistory(base, es[..n], l);
      var ls, e := ApplyAll(es[..n], l), es[n];
      forall f
        ensures f in SavedLevel(base, ApplyLevel(ls, e, l))
                <==> f in SavedLevel(SavedLevel(base, ls), ApplyLevel(EMPTY, e, l))
      {
        if f in FilesAdded(e, l) {
          assert f.number in NumbersOf(FilesAdded(e, l));
        } else if f in base + ls.added {
          assert f.number in NumbersOf(base + ls.added);
        }
      }
    }
  }

  // ---- When replay and history differ ----

  /** Numbers the edit deletes and does not add again. */
  ghost function NumbersGone(e: VersionEdit, l: nat): set<nat> {
    NumbersDeleted(e, l) - NumbersOf(FilesAdded(e, l))
  }

  /** Edit `j` deletes the file's number, and the file does not come back after. */
  ghost predicate Lost(es: seq<VersionEdit>, l: nat, f: FileMeta, j: nat) {
    j < |es| && f.number in NumbersGone(es[j], l) && forall k :: j < k < |es| ==> f !in FilesAdded(es[k], l)
  }

  /** Edit `i` adds a file of that number, and none deletes the number after. */
  ghost predicate Back(es: seq<VersionEdit>, l: nat, number: nat, i: nat) {
    && i < |es| && number in NumbersOf(FilesAdded(es[i], l))
    && forall k :: i < k < |es| ==> number !in NumbersGone(es[k], l)
  }

  lemma LostOf(es: seq<VersionEdit>, l: nat, f: FileMeta, e: VersionEdit)
    ensures (exists j :: Lost(es + [e], l, f, j)) <==>
            f !in FilesAdded(e, l) && (f.number in NumbersGone(e, l) || exists j :: Lost(es, l, f, j))
  {
    var all, n := es + [e], |es|;
    assert all[n] == e && forall k :: 0 <= k < n ==> all[k] == es[k];
    if f !in FilesAdded(e, l) && f.number in NumbersGone(e, l) {
      assert Lost(all, l, f, n);
    }
    if j :| Lost(es, l, f, j) && f !in FilesAdded(e, l) {
      assert Lost(all, l, f, j);
    }
    if j :| Lost(all, l, f, j) {
      if j == n {
        assert f.number in NumbersOf(FilesAdded(e, l)) || f !in FilesAdded(e, l);
      } else {
        assert Lost(es, l, f, j);
      }
    }
  }

  lemma BackOf(es: seq<VersionEdit>, l: nat, number: nat, e: VersionEdit)
    ensures (exists i :: Back(es + [e], l, number, i)) <==>
            || number in NumbersOf(FilesAdded(e, l))
            || (number !in NumbersGone(e, l) && exists i :: Back(es, l, number, i))
  {
    var all, n := es + [e], |es|;
    assert all[n] == e && forall k :: 0 <= k < n ==> all[k] == es[k];
    if number in NumbersOf(FilesAdded(e, l)) {
      assert Back(all, l, number, n);
    }
    if i :| Back(es, l, number, i) && number !in NumbersGone(e, l) {
      assert Back(all, l, number, i);
    }
    if i: nat :| Back(all, l, number, i) && i < n {
      assert Back(es, l, number, i);
    }
  }

  /** Installing edits one by one loses exactly the files that are lost. */
  lemma {:induction false} HistoryLoses(base: set<FileMeta>, es: seq<VersionEdit>, l: nat, f: FileMeta)
    requires f in base + ApplyAll(es, l).added
    ensures f !in InstallAll(base, es, l) <==> exists j :: Lost(es, l, f, j)
  {
    if es != [] {
      var n := |es| - 1;
      assert es == es[..n] + [es[n]];
      LostOf(es[..n], l, f, es[n]);
      assert f in FilesAdded(es[n], l) ==> f.number in NumbersOf(FilesAdded(es[n], l));
      if f in base + ApplyAll(es[..n], l).added {
        HistoryLoses(base, es[..n], l, f);
      }
    }
  }

  /** A builder leaves a number that was deleted out, unless it came back. */
  lemma {:induction false} ReplayForgets(es: seq<VersionEdit>, l: nat, number: nat)
    ensures (exists j :: 0 <= j < |es| && number in NumbersGone(es[j], l)) ==>
            (number !in ApplyAll(es, l).deleted <==> exists i :: Back(es, l, number, i))
    ensures number in ApplyAll(es, l).deleted ==> exists j :: 0 <= j < |es| && number in NumbersGone(es[j], l)
  {
    if es != [] {
      var n := |es| - 1;
      assert es == es[..n] + [es[n]];
      BackOf(es[..n], l, number, es[n]);
      ReplayForgets(es[..n], l, number);
      if j :| 0 <= j < n && number in NumbersGone(es[j], l) {
        assert number in NumbersGone(es[..n][j], l);
      }
      if j :| 0 <= j < n && number in NumbersGone(es[..n][j], l) {
        assert number in NumbersGone(es[j], l);
      }
    }
  }

  /** A file that is lost, and whose number came back. */
  ghost predicate Revived(base: set<FileMeta>, es: seq<VersionEdit>, l: nat, f: FileMeta) {
    f in base + ApplyAll(es, l).added && (exists j :: Lost(es, l, f, j)) && exists i :: Back(es, l, f.number, i)
  }

  lemma RevivedFile(base: set<FileMeta>, es: seq<VersionEdit>, l: nat, f: FileMeta)
    ensures f in InstallAll(base, es, l) ==> f in SavedLevel(base, ApplyAll(es, l))
    ensures f in SavedLevel(base, ApplyAll(es, l)) && f !in InstallAll(base, es, l) <==> Revived(base, es, l, f)
  {
    InstallWithin(base, es, l);
    if f in base + ApplyAll(es, l).added {
      HistoryLoses(base, es, l, f);
      ReplayForgets(es, l, f.number);
      if f.number in ApplyAll(es, l).deleted {
        DeletedIsLost(es, l, f);
      }
    }
  }

  /** If a number is left out in the end, every file of it is lost. */
  lemma {:induction false} DeletedIsLost(es: seq<VersionEdit>, l: nat, f: FileMeta)
    requires f.number in ApplyAll(es, l).deleted
    ensures exists j :: Lost(es, l, f, j)
  {
    var n := |es| - 1;
    assert es == es[..n] + [es[n]];
    LostOf(es[..n], l, f, es[n]);
    assert f.number !in NumbersOf(FilesAdded(es[n], l));
    if f.number !in NumbersGone(es[n], l) {
      DeletedIsLost(es[..n], l, f);
    }
  }

  lemma {:induction false} InstallWithin(base: set<FileMeta>, es: seq<VersionEdit>, l: nat)
    ensures InstallAll(base, es, l) <= base + ApplyAll(es, l).added
  {
    if es != [] { InstallWithin(base, es[..|es| - 1], l); }
  }

  /** One builder fed the whole history saves what installing the edits one version at a time gives, if and only if
      no file of the level has its number deleted and then added again for another file, with no deletion after. */
  lemma ReplayIffHistory(base: set<FileMeta>, es: seq<VersionEdit>, l: nat)
    ensures SavedLevel(base, ApplyAll(es, l)) == InstallAll(base, es, l) <==> forall f :: !Revived(base, es, l, f)
    ensures InstallAll(base, es, l) <= SavedLevel(base, ApplyAll(es, l))
  {
    forall f
      ensures f in InstallAll(base, es, l) ==> f in SavedLevel(base, ApplyAll(es, l))
      ensures f in SavedLevel(base, ApplyAll(es, l)) && f !in InstallAll(base, es, l) <==> Revived(base, es, l, f)
    {
      RevivedFile(base, es, l, f);
    }
  }

  /** An instance: re-adding a number revives the base file it had deleted. */
  lemma ReAddedNumberRevivesOldFile(earlier: FileMeta, later: FileMeta)
    requires earlier != later && earlier.number == later.number
    ensures var del := VersionEdit({(1, earlier.number)}, []);
            var add := VersionEdit({}, [(1, later)]);
            && SavedLevel({earlier}, ApplyAll([del, add], 1)) == {earlier, later}
            && InstallAll({earlier}, [del, add], 1) == {later}
  {
    var del := VersionEdit({(1, earlier.number)}, []);
    var add := VersionEdit({}, [(1, later)]);
    assert [del, add][..1] == [del] && [del][..0] == [];
    assert NumbersDeleted(del, 1) == {earlier.number} && FilesAdded(del, 1) == {};
    assert NumbersDeleted(add, 1) == {} && FilesAdded(add, 1) == {later} by {
      assert (1, later) in add.added;
    }
    assert ApplyAll([del], 1) == LevelState({earlier.number}, {});
    assert ApplyAll([del, add], 1) == LevelState({}, {later});
    assert InstallAll({earlier}, [del], 1) == {};
  }

  /** WriteSnapshot: one edit adding every file of a version. */
  ghost predicate IsSnapshot(e: VersionEdit, v: Version) {
    && |v| == NUM_LEVELS && e.deleted == {}
    && forall l, f :: (l, f) in e.added <==> 0 <= l < NUM_LEVELS && f in v[l]
  }

  lemma {:induction false} InstallAllConcat(s: VersionEdit, es: seq<VersionEdit>, l: nat)
    ensures InstallAll({}, [s] + es, l) == InstallAll(InstallAll({}, [s], l), es, l)
  {
    if es == [] {
      assert [s] + es == [s];
    } else {
      var n := |es| - 1;
      InstallAllConcat(s, es[..n], l);
      assert ([s] + es)[..n + 1] == [s] + es[..n];
    }
  }

  /** A manifest that starts with a snapshot of `v` and continues with `es` recovers, level by level, the
      files reached by installing `es` on `v` (version_set.cc:1088-1116). */
  lemma SnapshotThenEditsRecovers(v: Version, s: VersionEdit, es: seq<VersionEdit>, l: nat)
    requires IsSnapshot(s, v) && l < NUM_LEVELS
    requires AddedOnce(FilesOf(v[l]), es, l)
    ensures SavedLevel({}, ApplyAll([s] + es, l)) == InstallAll(FilesOf(v[l]), es, l)
  {
    SnapshotFirst(v, s, es, l);
    AddedOnceFromSnapshot(v, s, es, l);
    ReplayEqualsHistory({}, [s] + es, l);
  }

  lemma AddedOnceFromSnapshot(v: Version, s: VersionEdit, es: seq<VersionEdit>, l: nat)
    requires IsSnapshot(s, v) && l < NUM_LEVELS
    requires AddedOnce(FilesOf(v[l]), es, l)
    ensures AddedOnce({}, [s] + es, l)
  {
    forall k | 0 <= k < |[s] + es|
      ensures NumbersOf(FilesAdded(([s] + es)[k], l)) !! NumbersOf({} + ApplyAll(([s] + es)[..k], l).added)
    {
      if k == 0 {
        assert ([s] + es)[..0] == [];
      } else {
        assert ([s] + es)[..k] == [s] + es[..k - 1];
        AddedAfterSnapshot(v, s, es[..k - 1], l);
        assert NumbersOf(FilesAdded(es[k - 1], l)) !! NumbersOf(FilesOf(v[l]) + ApplyAll(es[..k - 1], l).added);
      }
    }
  }

  lemma SnapshotState(v: Version, s: VersionEdit, l: nat)
    requires IsSnapshot(s, v) && l < NUM_LEVELS
    ensures NumbersDeleted(s, l) == {} && FilesAdded(s, l) == FilesOf(v[l])
  {
    forall f ensures f in FilesAdded(s, l) <==> f in FilesOf(v[l]) {
      assert (l, f) in s.added <==> f in v[l];
    }
  }

  lemma {:induction false} AddedAfterSnapshot(v: Version, s: VersionEdit, es: seq<VersionEdit>, l: nat)
    requires IsSnapshot(s, v) && l < NUM_LEVELS
    ensures ApplyAll([s] + es, l).added == FilesOf(v[l]) + ApplyAll(es, l).added
  {
    if es == [] {
      assert [s] + es == [s] && [s][..0] == [];
      SnapshotState(v, s, l);
    } else {
      var n := |es| - 1;
      AddedAfterSnapshot(v, s, es[..n], l);
      assert ([s] + es)[..n + 1] == [s] + es[..n];
    }
  }

  // ---- Recovery ----

  /** No two additions of one edit to a level share a number. */
  ghost predicate DistinctAdditions(e: VersionEdit) {
    forall i, j :: 0 <= i < j < |e.added| && e.added[i].0 == e.added[j].0 ==> e.added[i].1.number != e.added[j].1.number
  }

  /** Edits for the levels there are, that add no number twice to a level: numbers come from one counter. */
  ghost predicate NumbersOnce(base: Version, es: seq<VersionEdit>)
    requires |base| == NUM_LEVELS
  {
    && (forall e :: e in es ==> ValidEdit(e) && DistinctAdditions(e))
    && forall l :: 0 <= l < NUM_LEVELS ==> AddedOnce(FilesOf(base[l]), es, l)
  }

  // ---- What recovery and the running database ask of the edits ----

  /** The empty version: what recovery starts from. */
  const NOTHING: Version := [[], [], [], [], [], [], []]

  ghost predicate AllToldApart(fs: set<FileMeta>) {
    forall f, g :: f in fs && g in fs ==> f == g || Distinct(f, g)
  }

  /** The files added to a level can be told apart. */
  ghost predicate Replayable(es: seq<VersionEdit>) {
    && (forall e :: e in es ==> ValidEdit(e))
    && forall l :: 0 <= l < NUM_LEVELS ==> AllToldApart(ApplyAll(es, l).added) == true
  }

  /** At every step the files added can be told apart from those of the current version. */
  ghost predicate Installable(base: Version, es: seq<VersionEdit>)
    requires |base| == NUM_LEVELS
  {
    && (forall e :: e in es ==> ValidEdit(e))
    && forall k, l :: 0 <= k < |es| && 0 <= l < NUM_LEVELS ==>
         NewThere(InstallAll(FilesOf(base[l]), es[..k], l), FilesAdded(es[k], l)) == true
  }

  ghost predicate NewThere(current: set<FileMeta>, added: set<FileMeta>) {
    AllToldApart(added) && forall f, g :: f in current && g in added ==> Distinct(f, g)
  }

  lemma {:induction false} AddedBy(es: seq<VersionEdit>, l: nat, f: FileMeta)
    ensures f in ApplyAll(es, l).added <==> exists k :: 0 <= k < |es| && f in FilesAdded(es[k], l)
  {
    if es != [] {
      var n := |es| - 1;
      AddedBy(es[..n], l, f);
      if k :| 0 <= k < n && f in FilesAdded(es[k], l) {
        assert f in FilesAdded(es[..n][k], l);
      }
      if k :| 0 <= k < n && f in FilesAdded(es[..n][k], l) {
        assert f in FilesAdded(es[k], l);
      }
    }
  }

  lemma {:induction false} AddedGrows(es: seq<VersionEdit>, k: nat, l: nat)
    requires k < |es|
    ensures ApplyAll(es[..k], l).added + FilesAdded(es[k], l) <= ApplyAll(es, l).added
  {
    forall f | f in ApplyAll(es[..k], l).added + FilesAdded(es[k], l) ensures f in ApplyAll(es, l).added {
      AddedBy(es[..k], l, f);
      if j :| 0 <= j < k && f in FilesAdded(es[..k][j], l) {
        assert f in FilesAdded(es[j], l);
      }
      AddedBy(es, l, f);
    }
  }

  /** The additions of one edit have places of their own if, level by level, they can be told apart. */
  lemma PlacesOf(known: Version, added: seq<seq<FileMeta>>, e: VersionEdit)
    requires |known| == |added| == NUM_LEVELS && ValidEdit(e)
    requires forall l :: 0 <= l < NUM_LEVELS ==> NewThere(FilesOf(known[l]), FilesAdded(e, l)) == true
    requires forall l :: 0 <= l < NUM_LEVELS ==> AllToldApart(FilesOf(added[l]) + FilesAdded(e, l)) == true
    ensures OwnPlaces(known, added, e.added)
  {
    forall a | a in e.added ensures ToldApart(known[a.0], [a.1]) && SameOrToldApart(added[a.0], [a.1]) {
      assert a.1 in FilesAdded(e, a.0);
      assert NewThere(FilesOf(known[a.0]), FilesAdded(e, a.0)) == true;
      assert AllToldApart(FilesOf(added[a.0]) + FilesAdded(e, a.0)) == true;
      assert forall f :: f in known[a.0] ==> f in FilesOf(known[a.0]);
      assert forall f :: f in added[a.0] ==> f in FilesOf(added[a.0]);
    }
    forall i, j | 0 <= i < j < |e.added| && e.added[i].0 == e.added[j].0
      ensures e.added[i].1 == e.added[j].1 || Distinct(e.added[i].1, e.added[j].1)
    {
      var l := e.added[i].0;
      assert e.added[i] in e.added && e.added[j] in e.added;
      assert e.added[i].1 in FilesAdded(e, l) && e.added[j].1 in FilesAdded(e, l);
      assert AllToldApart(FilesOf(added[l]) + FilesAdded(e, l)) == true;
    }
  }

  lemma NextToReplay(es: seq<VersionEdit>, k: nat, added: seq<seq<FileMeta>>)
    requires Replayable(es) && k < |es| && |added| == NUM_LEVELS
    requires forall l :: 0 <= l < NUM_LEVELS ==> FilesOf(added[l]) == ApplyAll(es[..k], l).added
    ensures ValidEdit(es[k]) && OwnPlaces(NOTHING, added, es[k].added)
  {
    assert es[k] in es;
    forall l | 0 <= l < NUM_LEVELS
      ensures NewThere(FilesOf(NOTHING[l]), FilesAdded(es[k], l)) == true
      ensures AllToldApart(FilesOf(added[l]) + FilesAdded(es[k], l)) == true
    {
      AddedGrows(es, k, l);
      assert AllToldApart(ApplyAll(es, l).added) == true;
      assert FilesOf(NOTHING[l]) == {};
    }
    PlacesOf(NOTHING, added, es[k]);
  }

  lemma NextToInstall(base: Version, es: seq<VersionEdit>, k: nat, known: Version)
    requires |base| == |known| == NUM_LEVELS && Installable(base, es) && k < |es|
    requires forall l :: 0 <= l < NUM_LEVELS ==> FilesOf(known[l]) == InstallAll(FilesOf(base[l]), es[..k], l)
    ensures ValidEdit(es[k]) && OwnPlaces(known, NOTHING, es[k].added)
  {
    assert es[k] in es;
    forall l | 0 <= l < NUM_LEVELS
      ensures NewThere(FilesOf(known[l]), FilesAdded(es[k], l)) == true
      ensures AllToldApart(FilesOf(NOTHING[l]) + FilesAdded(es[k], l)) == true
    {
      assert NewThere(InstallAll(FilesOf(base[l]), es[..k], l), FilesAdded(es[k], l)) == true;
      assert FilesOf(NOTHING[l]) + FilesAdded(es[k], l) == FilesAdded(es[k], l);
    }
    PlacesOf(known, NOTHING, es[k]);
  }

  /** File numbers come from one counter, so both hold of the edits of a database. */
  lemma NumbersOnceIsEnough(base: Version, es: seq<VersionEdit>)
    requires |base| == NUM_LEVELS && NumbersOnce(base, es)
    ensures Replayable(es) && Installable(base, es)
  {
    forall l | 0 <= l < NUM_LEVELS ensures AllToldApart(ApplyAll(es, l).added) == true {
      forall f, g | f in ApplyAll(es, l).added && g in ApplyAll(es, l).added ensures f == g || f.number != g.number {
        AddedBy(es, l, f);
        AddedBy(es, l, g);
        var i :| 0 <= i < |es| && f in FilesAdded(es[i], l);
        var j :| 0 <= j < |es| && g in FilesAdded(es[j], l);
        OneNumberOneFile(base, es, l, i, f, j, g);
      }
    }
    forall k, l | 0 <= k < |es| && 0 <= l < NUM_LEVELS
      ensures NewThere(InstallAll(FilesOf(base[l]), es[..k], l), FilesAdded(es[k], l)) == true
    {
      NewNumbersThere(base, es, k, l);
    }
  }

  lemma OneNumberOneFile(base: Version, es: seq<VersionEdit>, l: nat, i: nat, f: FileMeta, j: nat, g: FileMeta)
    requires |base| == NUM_LEVELS && NumbersOnce(base, es) && l < NUM_LEVELS && i < |es| && j < |es|
    requires f in FilesAdded(es[i], l) && g in FilesAdded(es[j], l)
    ensures f == g || f.number != g.number
  {
    assert AddedOnce(FilesOf(base[l]), es, l);
    if i == j {
      SameEdit(es[i], l, f, g);
    } else if i < j {
      LaterNumber(FilesOf(base[l]), es, l, i, f, j, g);
    } else {
      LaterNumber(FilesOf(base[l]), es, l, j, g, i, f);
    }
  }

  lemma SameEdit(e: VersionEdit, l: nat, f: FileMeta, g: FileMeta)
    requires DistinctAdditions(e) && f in FilesAdded(e, l) && g in FilesAdded(e, l)
    ensures f == g || f.number != g.number
  {
    var a :| a in e.added && a.0 == l && a.1 == f;
    var b :| b in e.added && b.0 == l && b.1 == g;
    var p :| 0 <= p < |e.added| && e.added[p] == a;
    var q :| 0 <= q < |e.added| && e.added[q] == b;
    assert p < q || q < p || f == g;
  }

  lemma LaterNumber(base: set<FileMeta>, es: seq<VersionEdit>, l: nat, i: nat, f: FileMeta, j: nat, g: FileMeta)
    requires AddedOnce(base, es, l) && i < j < |es| && f in FilesAdded(es[i], l) && g in FilesAdded(es[j], l)
    ensures f.number != g.number
  {
    assert f in FilesAdded(es[..j][i], l);
    AddedBy(es[..j], l, f);
    assert f.number in NumbersOf(base + ApplyAll(es[..j], l).added);
    assert g.number in NumbersOf(FilesAdded(es[j], l));
  }

  lemma NewNumbersThere(base: Version, es: seq<VersionEdit>, k: nat, l: nat)
    requires |base| == NUM_LEVELS && NumbersOnce(base, es) && k < |es| && l < NUM_LEVELS
    ensures NewThere(InstallAll(FilesOf(base[l]), es[..k], l), FilesAdded(es[k], l)) == true
  {
    InstallWithin(FilesOf(base[l]), es[..k], l);
    assert AddedOnce(FilesOf(base[l]), es, l);
    forall f, g | f in InstallAll(FilesOf(base[l]), es[..k], l) && g in FilesAdded(es[k], l) ensures f.number != g.number {
      assert f.number in NumbersOf(FilesOf(base[l]) + ApplyAll(es[..k], l).added);
      assert g.number in NumbersOf(FilesAdded(es[k], l));
    }
    forall f, g | f in FilesAdded(es[k], l) && g in FilesAdded(es[k], l) ensures f == g || f.number != g.number {
      OneNumberOneFile(base, es, l, k, f, k, g);
    }
  }

  /** As Recover does: from the empty version, one builder is fed all edits, and saves one version
      (version_set.cc:924-998). */
  method Replay(es: seq<VersionEdit>) returns (v: Version)
    requires Replayable(es)
    ensures OrderedVersion(v)
    ensures forall l :: 0 <= l < NUM_LEVELS ==> FilesOf(v[l]) == SavedLevel({}, ApplyAll(es, l))
  {
    var builder := new Builder(NOTHING);
    for i := 0 to |es|
      invariant builder.Valid() && fresh(builder) && builder.base == NOTHING
      invariant forall l :: 0 <= l < NUM_LEVELS ==> builder.State(l) == ApplyAll(es[..i], l)
    {
      NextToReplay(es, i, builder.addedFiles);
      builder.Apply(es[i]);
      assert es[..i + 1][..i] == es[..i];
    }
    assert es[..|es|] == es;
    v := builder.SaveTo();
    assert forall l :: 0 <= l < NUM_LEVELS ==> FilesOf(NOTHING[l]) == {};
  }

  /** As LogAndApply does: every edit makes a version of the one before (version_set.cc:816-821). */
  method History(base: Version, es: seq<VersionEdit>) returns (v: Version)
    requires OrderedVersion(base) && Installable(base, es)
    ensures OrderedVersion(v)
    ensures forall l :: 0 <= l < NUM_LEVELS ==> FilesOf(v[l]) == InstallAll(FilesOf(base[l]), es, l)
  {
    v := base;
    for i := 0 to |es|
      invariant OrderedVersion(v)
      invariant forall l :: 0 <= l < NUM_LEVELS ==> FilesOf(v[l]) == InstallAll(FilesOf(base[l]), es[..i], l)
    {
      var builder := new Builder(v);
      assert builder.addedFiles == NOTHING;
      NextToInstall(base, es, i, v);
      builder.Apply(es[i]);
      v := builder.SaveTo();
      assert es[..i + 1][..i] == es[..i];
    }
    assert es[..|es|] == es;
  }

  /** On no level does a file that was deleted come back with its number. */
  ghost predicate NoneRevived(es: seq<VersionEdit>) {
    forall l, f :: 0 <= l < NUM_LEVELS ==> !Revived({}, es, l, f)
  }

  /** None does if no number is added twice. */
  lemma NumbersOnceNoneRevived(v: Version, s: VersionEdit, es: seq<VersionEdit>)
    requires IsSnapshot(s, v) && NumbersOnce(v, es)
    ensures NoneRevived([s] + es)
  {
    forall l, f | 0 <= l < NUM_LEVELS ensures !Revived({}, [s] + es, l, f) {
      SnapshotThenEditsRecovers(v, s, es, l);
      SnapshotFirst(v, s, es, l);
      ReplayIffHistory({}, [s] + es, l);
    }
  }

  lemma NumbersOncePrefix(base: Version, es: seq<VersionEdit>, n: nat)
    requires |base| == NUM_LEVELS && NumbersOnce(base, es) && n <= |es|
    ensures NumbersOnce(base, es[..n])
  {
    assert forall e :: e in es[..n] ==> e in es;
    forall l | 0 <= l < NUM_LEVELS ensures AddedOnce(FilesOf(base[l]), es[..n], l) {
      assert AddedOnce(FilesOf(base[l]), es, l);
      forall k | 0 <= k < n
        ensures NumbersOf(FilesAdded(es[..n][k], l)) !! NumbersOf(FilesOf(base[l]) + ApplyAll(es[..n][..k], l).added)
      {
        assert es[..n][..k] == es[..k];
      }
    }
  }

  lemma ReplayablePrefix(es: seq<VersionEdit>, n: nat)
    requires Replayable(es) && n <= |es|
    ensures Replayable(es[..n])
  {
    assert forall e :: e in es[..n] ==> e in es;
    forall l | 0 <= l < NUM_LEVELS ensures AllToldApart(ApplyAll(es[..n], l).added) == true {
      if n < |es| { AddedGrows(es, n, l); }
      assert es[..|es|] == es;
      assert AllToldApart(ApplyAll(es, l).added) == true;
    }
  }

  lemma InstallablePrefix(base: Version, es: seq<VersionEdit>, n: nat)
    requires |base| == NUM_LEVELS && Installable(base, es) && n <= |es|
    ensures Installable(base, es[..n])
  {
    assert forall e :: e in es[..n] ==> e in es;
    forall k, l | 0 <= k < n && 0 <= l < NUM_LEVELS
      ensures NewThere(InstallAll(FilesOf(base[l]), es[..n][..k], l), FilesAdded(es[..n][k], l)) == true
    {
      assert es[..n][..k] == es[..k];
    }
  }

  /** The version recovered from a snapshot and the edits after it is the one those edits led to, if and only if on no
      level a file that was deleted comes back with its number. */
  method RecoverAndCompare(v: Version, s: VersionEdit, es: seq<VersionEdit>) returns (recovered: Version, current: Version)
    requires OrderedVersion(v) && IsSnapshot(s, v) && Replayable([s] + es) && Installable(v, es)
    ensures recovered == current <==> NoneRevived([s] + es)
  {
    recovered := Replay([s] + es);
    current := History(v, es);
    SameIffNoneRevived(v, s, es, recovered, current);
  }

  lemma SameIffNoneRevived(v: Version, s: VersionEdit, es: seq<VersionEdit>, recovered: Version, current: Version)
    requires IsSnapshot(s, v) && OrderedVersion(recovered) && OrderedVersion(current)
    requires forall l :: 0 <= l < NUM_LEVELS ==> FilesOf(recovered[l]) == SavedLevel({}, ApplyAll([s] + es, l))
    requires forall l :: 0 <= l < NUM_LEVELS ==> FilesOf(current[l]) == InstallAll(FilesOf(v[l]), es, l)
    ensures recovered == current <==> NoneRevived([s] + es)
  {
    forall l | 0 <= l < NUM_LEVELS
      ensures recovered[l] == current[l] <==> forall f :: !Revived({}, [s] + es, l, f)
    {
      SnapshotFirst(v, s, es, l);
      ReplayIffHistory({}, [s] + es, l);
      SameFilesSameLevel(recovered[l], current[l]);
    }
  }

  lemma SameFilesSameLevel(a: seq<FileMeta>, b: seq<FileMeta>)
    requires Ordered(a) && Ordered(b)
    ensures a == b <==> FilesOf(a) == FilesOf(b)
  {
    if FilesOf(a) == FilesOf(b) {
      assert forall f :: f in a <==> f in FilesOf(a);
      assert forall f :: f in b <==> f in FilesOf(b);
      OrderedUnique(a, b);
    }
  }

  /** Installing a snapshot on nothing, and then the edits, is installing the edits on its version. */
  lemma SnapshotFirst(v: Version, s: VersionEdit, es: seq<VersionEdit>, l: nat)
    requires IsSnapshot(s, v) && l < NUM_LEVELS
    ensures InstallAll({}, [s] + es, l) == InstallAll(FilesOf(v[l]), es, l)
  {
    SnapshotState(v, s, l);
    InstallAllConcat(s, es, l);
    assert [s][..0] == [];
    assert InstallAll({}, [s], l) == FilesOf(v[l]);
  }

  /** Hence whatever two ordered versions are produced, by replay or by history, they are the same version. */
  lemma RecoveredVersionIsCurrent(v: Version, s: VersionEdit, es: seq<VersionEdit>, recovered: Version, current: Version)
    requires IsSnapshot(s, v) && OrderedVersion(recovered) && OrderedVersion(current)
    requires forall l :: 0 <= l < NUM_LEVELS ==> AddedOnce(FilesOf(v[l]), es, l)
    requires forall l :: 0 <= l < NUM_LEVELS ==>
               FilesOf(recovered[l]) == SavedLevel({}, ApplyAll([s] + es, l))
    requires forall l :: 0 <= l < NUM_LEVELS ==> FilesOf(current[l]) == InstallAll(FilesOf(v[l]), es, l)
    ensures recovered == current
  {
    forall l | 0 <= l < NUM_LEVELS ensures recovered[l] == current[l] {
      SnapshotThenEditsRecovers(v, s, es, l);
      assert forall f :: f in recovered[l] <==> f in FilesOf(recovered[l]);
      assert forall f :: f in current[l] <==> f in FilesOf(current[l]);
      OrderedUnique(recovered[l], current[l]);
    }
  }
}
