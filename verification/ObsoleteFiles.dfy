/** Which files the garbage collector may delete (db/db_impl, DeleteObsoleteFiles and its callers).

    A state machine: one step is what a thread does without giving up the mutex.  Beside the directory, the
    state holds every version a crash could leave in the manifest: the one installed last, and while
    LogAndApply is under way also the one it leads to.  An edit that could not be logged may be in the
    manifest nevertheless, and a compaction that is working goes on after that: later edits are then logged
    behind it, and what the manifest holds is any combination of the edits that failed with those that did not; and
    whether it can be read that far.

    A log is the set of updates that will be read back from it.  An append to it that fails sets no background error,
    and what is appended behind it is acknowledged all the same, but may not be read back (see LogFailures): such
    updates are at risk until their memtable has been flushed.
 */
module ObsoleteFiles {
  import opened Options

  /** An acknowledged update; its contents do not matter here. */
  type Update = int

  /** A version, as the manifest records it: its tables, and the oldest log it still needs. */
  datatype Manifest = Manifest(tables: set<nat>, logNumber: nat)

  /** The immutable memtable and the log behind it. */
  datatype Frozen = Frozen(updates: set<Update>, log: nat)

  /** A version edit. */
  datatype Edit = Edit(deleted: set<nat>, added: set<nat>, logNumber: nat)

  function Applied(m: Manifest, e: Edit): Manifest {
    Manifest(m.tables - e.deleted + e.added, e.logNumber)
  }

  /** What the manifest may hold once an edit has been logged for sure. */
  ghost function AllApplied(ms: set<Manifest>, e: Edit): set<Manifest> {
    set m | m in ms :: Applied(m, e)
  }

  /** The flush of the immutable memtable: a table is being built, or its edit is being logged. */
  datatype Flush = NoFlush | Building(table: nat) | Logging(edit: Edit)

  /** A compaction: its inputs, the outputs opened so far, and those written; then its edit is being logged. */
  datatype Compaction = NoCompaction | Working(inputs: set<nat>, outputs: set<nat>, written: set<nat>)
                      | Installing(inputs: set<nat>, outputs: set<nat>, edit: Edit)

  datatype State = State(
    tables: map<nat, set<Update>>,
    logs: map<nat, set<Update>>,
    current: Manifest,
    held: seq<set<nat>>,
    pending: set<nat>,
    mem: set<Update>,
    memLog: nat,
    imm: Option<Frozen>,
    nextFile: nat,
    fault: bool,
    flush: Flush,
    compaction: Compaction,
    manifests: set<Manifest>,
    ended: set<Manifest>,
    acknowledged: set<Update>,
    dropped: set<Update>,
    torn: bool,
    atRisk: set<Update>)

  // ---- What a crash would recover ----

  ghost function InTables(s: State, ts: set<nat>): set<Update> {
    set t, u | t in ts && t in s.tables && u in s.tables[t] :: u
  }

  ghost function InLogs(s: State, from: nat): set<Update> {
    set l, u | l in s.logs && l >= from && u in s.logs[l] :: u
  }

  /** Every table of the version is there, and every acknowledged update that is not at risk and that no compaction has
      dropped is in one of them, or will be read back from a log the version still needs. */
  ghost predicate Recovers(s: State, m: Manifest) {
    && m.tables <= s.tables.Keys
    && m.logNumber <= s.memLog
    && forall u :: u in s.acknowledged ==>
         u in s.dropped || u in s.atRisk || u in InTables(s, m.tables) || u in InLogs(s, m.logNumber)
  }

  // ---- Garbage collection ----

  function UnionOf(vs: seq<set<nat>>): set<nat> {
    if vs == [] then {} else UnionOf(vs[..|vs| - 1]) + vs[|vs| - 1]
  }

  lemma {:induction false} UnionHas(vs: seq<set<nat>>, i: nat)
    requires i < |vs|
    ensures vs[i] <= UnionOf(vs)
  {
    if i < |vs| - 1 { UnionHas(vs[..|vs| - 1], i); }
  }

  lemma {:induction false} UnionIn(vs: seq<set<nat>>, t: nat)
    requires t in UnionOf(vs)
    ensures exists i :: 0 <= i < |vs| && t in vs[i]
  {
    if t !in vs[|vs| - 1] {
      UnionIn(vs[..|vs| - 1], t);
      var i :| 0 <= i < |vs| - 1 && t in vs[..|vs| - 1][i];
      assert t in vs[i];
    }
  }

  /** db_impl.cc:223-278: not after a background error; tables not in a live version or pending, and logs older
      than the current version needs, are deleted.  The previous log number is 0 since recovery. */
  function Collected(s: State): State {
    if s.fault then s
    else
      var live := s.pending + UnionOf(s.held) + s.current.tables;
      s.(tables := map t | t in s.tables && t in live :: s.tables[t],
         logs := map l | l in s.logs && l >= s.current.logNumber :: s.logs[l])
  }

  // ---- Steps ----

  datatype Step =
    | Write(updates: set<Update>, ok: bool)
    | Switch
    | Reference
    | Release(i: nat)
    | Fail
    | StartFlush
    | FlushBuilt(ok: bool)
    | FlushLogged(ok: bool)
    | StartCompaction(inputs: set<nat>)
    | OpenOutput
    | WriteOutput(table: nat, updates: set<Update>)
    | StopCompaction
    | LogCompaction
    | CompactionLogged(ok: bool)

  /** One background job at a time; a flush may run inside a compaction that is not logging its edit.  No job is
      started after a background error, but a compaction that is working goes on: it flushes the immutable memtable
      when it finds one, and in the end logs its own edit. */
  ghost predicate Enabled(s: State, a: Step) {
    match a
    case Write(us, ok) => us !! s.acknowledged && s.memLog in s.logs
    case Switch => s.imm.None? && !s.fault
    case Reference => true
    case Release(i) => i < |s.held| && !(s.compaction.Working? && i == 0) && !(s.compaction.Installing? && i == 0)
    case Fail => true
    case StartFlush => s.imm.Some? && s.flush.NoFlush? && !s.compaction.Installing? && (s.fault ==> s.compaction.Working?)
    case FlushBuilt(ok) => s.flush.Building? && s.imm.Some?
    case FlushLogged(ok) => s.flush.Logging? && s.imm.Some?
    case StartCompaction(inputs) =>
      inputs <= s.current.tables && s.compaction.NoCompaction? && s.flush.NoFlush? && !s.fault && s.imm.None?
    case OpenOutput => s.compaction.Working? && s.flush.NoFlush?
    case WriteOutput(t, us) =>
      && s.compaction.Working? && s.flush.NoFlush? && t in s.compaction.outputs && t !in s.compaction.written
      && us <= InTables(s, s.compaction.inputs)
    case StopCompaction => s.compaction.Working? && s.flush.NoFlush? && s.held != []
    case LogCompaction => s.compaction.Working? && s.flush.NoFlush? && s.compaction.written == s.compaction.outputs
    case CompactionLogged(ok) => s.compaction.Installing? && s.held != []
  }

  ghost function Next(s: State, a: Step): State
    requires Enabled(s, a)
  {
    match a
    case Write(us, ok) =>
      if !ok then s.(torn := true)
      else if s.torn then s.(mem := s.mem + us, acknowledged := s.acknowledged + us, atRisk := s.atRisk + us)
      else s.(logs := s.logs[s.memLog := s.logs[s.memLog] + us], mem := s.mem + us, acknowledged := s.acknowledged + us)
    case Switch =>
      s.(logs := s.logs[s.nextFile := {}], imm := Some(Frozen(s.mem, s.memLog)), mem := {}, memLog := s.nextFile,
         nextFile := s.nextFile + 1, torn := false)
    case Reference => s.(held := s.held + [s.current.tables])
    case Release(i) => s.(held := s.held[..i] + s.held[i + 1..])
    case Fail => s.(fault := true)
    case StartFlush => s.(pending := s.pending + {s.nextFile}, flush := Building(s.nextFile), nextFile := s.nextFile + 1)
    case FlushBuilt(ok) =>
      var n := s.flush.table;
      if !ok then s.(pending := s.pending - {n}, flush := NoFlush, fault := true)
      else
        var empty := s.imm.value.updates == {};
        var e := Edit({}, if empty then {} else {n}, s.memLog);
        s.(pending := s.pending - {n}, flush := Logging(e), manifests := s.manifests + AllApplied(s.manifests, e),
           tables := if empty then s.tables else s.tables[n := s.imm.value.updates])
    case FlushLogged(ok) =>
      if !ok then s.(flush := NoFlush, fault := true)
      else Collected(Flushed(s))
    case StartCompaction(inputs) => s.(held := [s.current.tables] + s.held, compaction := Working(inputs, {}, {}))
    case OpenOutput =>
      var n := s.nextFile;
      var c := s.compaction;
      s.(pending := s.pending + {n}, nextFile := n + 1, compaction := Working(c.inputs, c.outputs + {n}, c.written))
    case WriteOutput(t, us) =>
      var c := s.compaction;
      s.(tables := s.tables[t := us], compaction := Working(c.inputs, c.outputs, c.written + {t}))
    case StopCompaction =>
      s.(fault := true, pending := s.pending - s.compaction.outputs, held := s.held[1..], compaction := NoCompaction)
    case LogCompaction =>
      var c := s.compaction;
      var e := Edit(c.inputs, c.outputs, s.current.logNumber);
      s.(compaction := Installing(c.inputs, c.outputs, e), manifests := s.manifests + AllApplied(s.manifests, e),
         dropped := s.dropped + (InTables(s, c.inputs) - InTables(s, c.outputs)))
    case CompactionLogged(ok) =>
      var c := s.compaction;
      if !ok then
        s.(fault := true, pending := s.pending - c.outputs, held := s.held[1..], compaction := NoCompaction)
      else Collected(Installed(s))
  }

  /** Versions a reader of the manifest may stop at before the edit that has now been logged: none, if nothing failed
      before. */
  ghost function Ended(s: State): set<Manifest> {
    if s.fault then s.ended + s.manifests else {}
  }

  /** The edit of a flush is logged, and the version it leads to is the current one. */
  ghost function Flushed(s: State): State
    requires s.flush.Logging? && s.imm.Some?
  {
    var e := s.flush.edit;
    s.(current := Applied(s.current, e), manifests := AllApplied(s.manifests, e), ended := Ended(s),
       flush := NoFlush, imm := None,
       atRisk := if s.fault then s.atRisk else s.atRisk - s.imm.value.updates)
  }

  ghost function Installed(s: State): State
    requires s.compaction.Installing? && s.held != []
  {
    var c := s.compaction;
    s.(current := Applied(s.current, c.edit), manifests := AllApplied(s.manifests, c.edit), ended := Ended(s),
       pending := s.pending - c.outputs, held := s.held[1..], compaction := NoCompaction)
  }

  // ---- What every step keeps ----

  ghost predicate FilesKept(s: State) {
    && s.current.tables <= s.tables.Keys
    && (forall i :: 0 <= i < |s.held| ==> s.held[i] <= s.tables.Keys)
    && (forall n :: n in s.tables || n in s.logs || n in s.pending ==> n < s.nextFile)
  }

  /** The logs behind the memtables are kept, hold what they hold, and are the only ones still needed. */
  ghost predicate LogsKept(s: State) {
    && s.memLog in s.logs && s.logs[s.memLog] <= s.mem <= s.logs[s.memLog] + s.atRisk
    && s.mem <= s.acknowledged && s.current.logNumber <= s.memLog < s.nextFile
    && (s.imm.Some? ==>
          && s.imm.value.log in s.logs
          && s.logs[s.imm.value.log] <= s.imm.value.updates <= s.logs[s.imm.value.log] + s.atRisk
          && s.imm.value.updates <= s.acknowledged && s.imm.value.updates !! s.mem
          && s.current.logNumber <= s.imm.value.log < s.memLog)
    && forall l :: l in s.logs && l >= s.current.logNumber ==> l == s.memLog || (s.imm.Some? && l == s.imm.value.log)
  }

  ghost predicate JobsOk(s: State) {
    && (match s.flush
        case NoFlush => true
        case Building(n) => s.imm.Some? && n in s.pending && n !in s.tables && !s.compaction.Installing? && n < s.nextFile
        case Logging(e) =>
          && s.imm.Some? && e.logNumber == s.memLog && !s.compaction.Installing? && e.deleted == {}
          && (s.compaction.Working? ==> s.compaction.outputs !! e.added)
          && s.imm.value.updates <= InTables(s, e.added))
    && (match s.compaction
        case NoCompaction => true
        case Working(ins, outs, written) =>
          && s.held != [] && ins <= s.held[0] && ins <= s.current.tables && outs <= s.pending && written <= outs
          && written <= s.tables.Keys && outs !! s.current.tables && (forall n :: n in outs - written ==> n !in s.tables)
          && (s.flush.Building? ==> s.flush.table !in outs)
        case Installing(ins, outs, e) => s.held != [] && outs <= s.pending && e.logNumber == s.current.logNumber)
  }

  /** The edit that is being logged. */
  function BeingLogged(s: State): Option<Edit> {
    if s.flush.Logging? then Some(s.flush.edit) else if s.compaction.Installing? then Some(s.compaction.edit) else None
  }

  /** What the manifest may hold: the current version, with the edit being logged or without; only after a failure
      may it be anything else, and then as well with that edit as without. */
  ghost predicate ManifestsOk(s: State) {
    var e := BeingLogged(s);
    && s.current in s.manifests
    && (forall m :: m in s.manifests ==> Recovers(s, m) == true && s.current.logNumber <= m.logNumber)
    && (forall m :: m in s.ended ==> Recovers(s, m) == true) && (!s.fault ==> s.ended == {})
    && (e.Some? ==> AllApplied(s.manifests, e.value) <= s.manifests)
    && (!s.fault ==> s.manifests == {s.current} + if e.Some? then {Applied(s.current, e.value)} else {})
  }

  ghost predicate Inv(s: State) {
    FilesKept(s) && LogsKept(s) && JobsOk(s) && ManifestsOk(s)
  }

  // ---- Every step keeps it ----

  /** Nothing a recovery from `m` needs is taken away. */
  ghost predicate Grows(s: State, t: State, m: Manifest) {
    && (forall n :: n in m.tables && n in s.tables ==> n in t.tables && t.tables[n] == s.tables[n])
    && (forall l :: l in s.logs && l >= m.logNumber ==> l in t.logs && s.logs[l] <= t.logs[l])
    && s.memLog <= t.memLog && s.dropped <= t.dropped && s.atRisk <= t.atRisk
  }

  lemma RecoversGrown(s: State, t: State, m: Manifest)
    requires Recovers(s, m) && Grows(s, t, m)
    requires forall u :: u in t.acknowledged ==> u in s.acknowledged || u in t.atRisk || (t.memLog in t.logs && u in t.logs[t.memLog])
    ensures Recovers(t, m)
  {
    forall u | u in t.acknowledged
      ensures u in t.dropped || u in t.atRisk || u in InTables(t, m.tables) || u in InLogs(t, m.logNumber)
    {
      if u in s.acknowledged {
        if u in InTables(s, m.tables) {
          var n :| n in m.tables && n in s.tables && u in s.tables[n];
          assert n in t.tables && u in t.tables[n];
        } else if u in InLogs(s, m.logNumber) {
          var l :| l in s.logs && l >= m.logNumber && u in s.logs[l];
          assert l in t.logs && u in t.logs[l];
        }
      } else {
        assert t.memLog >= m.logNumber;
      }
    }
  }

  /** Nothing begins or ends to be logged, but for an edit that fails. */
  lemma ManifestsGrown(s: State, t: State)
    requires ManifestsOk(s) && t.manifests == s.manifests && t.ended == s.ended && t.current == s.current && (s.fault ==> t.fault)
    requires BeingLogged(t) == BeingLogged(s) || (BeingLogged(t) == None && t.fault)
    requires forall m :: m in s.manifests + s.ended ==> Grows(s, t, m)
    requires forall u :: u in t.acknowledged ==> u in s.acknowledged || u in t.atRisk || (t.memLog in t.logs && u in t.logs[t.memLog])
    ensures ManifestsOk(t)
  {
    forall m | m in t.manifests + t.ended ensures Recovers(t, m) == true {
      RecoversGrown(s, t, m);
    }
  }

  lemma AppliedTwice(ms: set<Manifest>, e: Edit)
    ensures AllApplied(ms + AllApplied(ms, e), e) == AllApplied(ms, e)
  {
    forall m ensures Applied(Applied(m, e), e) == Applied(m, e) {
      assert m.tables - e.deleted + e.added - e.deleted + e.added == m.tables - e.deleted + e.added;
    }
    forall m | m in AllApplied(ms + AllApplied(ms, e), e) ensures m in AllApplied(ms, e) {
      var n :| n in ms + AllApplied(ms, e) && m == Applied(n, e);
      if n !in ms {
        var k :| k in ms && n == Applied(k, e);
        assert m == Applied(k, e);
      }
    }
  }

  /** An edit begins to be logged: it may come behind whatever the manifest may hold. */
  lemma LoggingBegins(s: State, t: State, e: Edit)
    requires ManifestsOk(s) && BeingLogged(s) == None && BeingLogged(t) == Some(e) && t.current == s.current && t.fault == s.fault
    requires t.manifests == s.manifests + AllApplied(s.manifests, e) && s.current.logNumber <= e.logNumber
    requires t.ended == s.ended && forall m :: m in s.ended ==> Recovers(t, m) == true
    requires forall m :: m in s.manifests ==> Recovers(t, m) == true && Recovers(t, Applied(m, e)) == true
    ensures ManifestsOk(t)
  {
    AppliedTwice(s.manifests, e);
    if !s.fault {
      assert AllApplied({s.current}, e) == {Applied(s.current, e)};
    }
  }

  /** An edit is logged, behind whatever the manifest held; what it brings into tables is no longer at risk. */
  lemma LoggingEnds(s: State, t: State, e: Edit)
    requires ManifestsOk(s) && BeingLogged(s) == Some(e) && BeingLogged(t) == None && t.fault == s.fault
    requires t.current == Applied(s.current, e) && t.manifests == AllApplied(s.manifests, e) && t.ended == Ended(s)
    requires t.tables == s.tables && t.logs == s.logs && t.memLog == s.memLog && t.acknowledged == s.acknowledged
    requires t.dropped == s.dropped && (s.fault ==> t.atRisk == s.atRisk)
    requires forall u :: u in s.atRisk ==> u in t.atRisk || u in InTables(s, e.added)
    ensures ManifestsOk(t)
  {
    assert Applied(s.current, e) in AllApplied(s.manifests, e);
    forall m | m in t.manifests ensures Recovers(t, m) == true && t.current.logNumber <= m.logNumber {
      assert m in s.manifests && m.logNumber == e.logNumber;
      assert Recovers(s, m) == true;
      SettledRecovers(s, t, m, e);
    }
    forall m | m in t.ended ensures Recovers(t, m) == true {
      assert Recovers(s, m) == true;
      RecoversGrown(s, t, m);
    }
    OneApplied(s.current, e);
  }

  lemma SettledRecovers(s: State, t: State, m: Manifest, e: Edit)
    requires Recovers(s, m) && e.added <= m.tables
    requires t.tables == s.tables && t.logs == s.logs && t.memLog == s.memLog && t.acknowledged == s.acknowledged
    requires t.dropped == s.dropped && forall u :: u in s.atRisk ==> u in t.atRisk || u in InTables(s, e.added)
    ensures Recovers(t, m)
  {
    forall u | u in t.acknowledged
      ensures u in t.dropped || u in t.atRisk || u in InTables(t, m.tables) || u in InLogs(t, m.logNumber)
    {
      if u in InTables(s, e.added) {
        var n :| n in e.added && n in s.tables && u in s.tables[n];
        assert n in m.tables;
      }
    }
  }

  lemma OneApplied(m: Manifest, e: Edit)
    ensures AllApplied({m} + {Applied(m, e)}, e) == {Applied(m, e)}
  {
    AppliedTwice({m}, e);
    assert AllApplied({m}, e) == {Applied(m, e)};
  }

  /** A collection takes nothing away that a recovery needs: after a failure it takes nothing, and before one only
      the current version can be recovered. */
  lemma CollectedManifests(s: State)
    requires ManifestsOk(s) && BeingLogged(s) == None
    ensures ManifestsOk(Collected(s))
  {
    forall m | m in s.manifests + s.ended ensures Recovers(Collected(s), m) == true {
      assert Recovers(s, m) == true;
      RecoversGrown(s, Collected(s), m);
    }
  }

  lemma CollectedFiles(s: State)
    requires FilesKept(s)
    ensures FilesKept(Collected(s))
  {
    var t := Collected(s);
    if !s.fault {
      forall i | 0 <= i < |s.held| ensures s.held[i] <= t.tables.Keys {
        UnionHas(s.held, i);
        assert s.held[i] <= s.tables.Keys;
      }
    }
  }

  lemma CollectedLogs(s: State)
    requires LogsKept(s)
    ensures LogsKept(Collected(s))
  {}

  lemma WriteKeeps(s: State, us: set<Update>, ok: bool)
    requires Inv(s) && Enabled(s, Write(us, ok))
    ensures Inv(Next(s, Write(us, ok)))
  {
    ManifestsGrown(s, Next(s, Write(us, ok)));
  }

  lemma SwitchKeeps(s: State)
    requires Inv(s) && Enabled(s, Switch)
    ensures Inv(Next(s, Switch))
  {
    ManifestsGrown(s, Next(s, Switch));
  }

  lemma SmallKeeps(s: State, a: Step)
    requires Inv(s) && Enabled(s, a)
    requires a.Reference? || a.Release? || a.Fail? || a.StartFlush?
    ensures Inv(Next(s, a))
  {
    ManifestsGrown(s, Next(s, a));
  }

  lemma CompactionSmallKeeps(s: State, a: Step)
    requires Inv(s) && Enabled(s, a) && (a.StartCompaction? || a.OpenOutput? || a.StopCompaction?)
    ensures Inv(Next(s, a))
  {
    ManifestsGrown(s, Next(s, a));
  }

  lemma OutputKeeps(s: State, n: nat, us: set<Update>)
    requires Inv(s) && Enabled(s, WriteOutput(n, us))
    ensures Inv(Next(s, WriteOutput(n, us)))
  {
    ManifestsGrown(s, Next(s, WriteOutput(n, us)));
  }

  lemma FlushBuiltKeeps(s: State, ok: bool)
    requires Inv(s) && Enabled(s, FlushBuilt(ok))
    ensures Inv(Next(s, FlushBuilt(ok)))
  {
    var t := Next(s, FlushBuilt(ok));
    if ok {
      forall m | m in s.ended ensures Recovers(t, m) == true {
        RecoversGrown(s, t, m);
      }
      forall m | m in s.manifests ensures Recovers(t, m) == true && Recovers(t, Applied(m, t.flush.edit)) == true {
        RecoversGrown(s, t, m);
        FlushRecovers(s, t, m);
      }
      forall u | u in s.imm.value.updates ensures u in InTables(t, t.flush.edit.added) {
        assert s.flush.table in t.flush.edit.added && u in t.tables[s.flush.table];
      }
      LoggingBegins(s, t, t.flush.edit);
    } else {
      ManifestsGrown(s, t);
    }
  }

  /** A version recovers everything with the edit of a flush as well: what was only in the old logs is in its table. */
  lemma FlushRecovers(s: State, t: State, m: Manifest)
    requires LogsKept(s) && JobsOk(s) && s.flush.Building? && t == Next(s, FlushBuilt(true))
    requires Recovers(t, m) && s.current.logNumber <= m.logNumber
    ensures Recovers(t, Applied(m, t.flush.edit)) == true
  {
    var m' := Applied(m, t.flush.edit);
    forall u | u in t.acknowledged ensures u in t.dropped || u in t.atRisk || u in InTables(t, m'.tables) || u in InLogs(t, m'.logNumber) {
      if u in InTables(t, m.tables) {
        var n :| n in m.tables && n in t.tables && u in t.tables[n];
        assert n in m'.tables;
      } else if u in InLogs(t, m.logNumber) {
        var l :| l in t.logs && l >= m.logNumber && u in t.logs[l];
        if l != s.memLog {
          assert l == s.imm.value.log && u in s.imm.value.updates;
          assert s.flush.table in m'.tables && u in t.tables[s.flush.table];
        }
      }
    }
  }

  lemma FlushLoggedKeeps(s: State, ok: bool)
    requires Inv(s) && Enabled(s, FlushLogged(ok))
    ensures Inv(Next(s, FlushLogged(ok)))
  {
    if ok {
      var u := Flushed(s);
      LoggingEnds(s, u, s.flush.edit);
      LoggedFiles(s, s.flush.edit);
      CollectedManifests(u);
      CollectedFiles(u);
      CollectedLogs(u);
    } else {
      ManifestsGrown(s, Next(s, FlushLogged(ok)));
    }
  }

  lemma LoggedFiles(s: State, e: Edit)
    requires ManifestsOk(s) && BeingLogged(s) == Some(e)
    ensures Applied(s.current, e).tables <= s.tables.Keys
  {
    assert Applied(s.current, e) in AllApplied(s.manifests, e);
    assert Recovers(s, Applied(s.current, e)) == true;
  }

  lemma LogCompactionKeeps(s: State)
    requires Inv(s) && Enabled(s, LogCompaction)
    ensures Inv(Next(s, LogCompaction))
  {
    var t := Next(s, LogCompaction);
    forall m | m in s.ended ensures Recovers(t, m) == true {
      assert Recovers(s, m) == true;
      RecoversGrown(s, t, m);
    }
    forall m | m in s.manifests ensures Recovers(t, m) == true && Recovers(t, Applied(m, t.compaction.edit)) == true {
      assert Recovers(s, m) == true;
      RecoversGrown(s, t, m);
      CompactionRecovers(s, t, m);
    }
    LoggingBegins(s, t, t.compaction.edit);
  }

  /** A version recovers everything with the edit of a compaction as well, but for what the compaction dropped. */
  lemma CompactionRecovers(s: State, t: State, m: Manifest)
    requires JobsOk(s) && Enabled(s, LogCompaction) && t == Next(s, LogCompaction)
    requires Recovers(t, m) && s.current.logNumber <= m.logNumber && s.current.logNumber <= s.memLog
    ensures Recovers(t, Applied(m, t.compaction.edit)) == true
  {
    var c, m' := s.compaction, Applied(m, t.compaction.edit);
    forall u | u in t.acknowledged ensures u in t.dropped || u in t.atRisk || u in InTables(t, m'.tables) || u in InLogs(t, m'.logNumber) {
      if u in InTables(t, m.tables) {
        var n :| n in m.tables && n in s.tables && u in s.tables[n];
        if n in c.inputs {
          assert u in InTables(s, c.inputs);
          if u in InTables(s, c.outputs) {
            var o :| o in c.outputs && o in s.tables && u in s.tables[o];
            assert o in m'.tables && u in t.tables[o];
          }
        } else {
          assert n in m'.tables && u in t.tables[n];
        }
      } else if u in InLogs(t, m.logNumber) {
        var l :| l in s.logs && l >= m.logNumber && u in s.logs[l];
        assert l in t.logs && l >= m'.logNumber;
      }
    }
  }

  lemma CompactionLoggedKeeps(s: State, ok: bool)
    requires Inv(s) && Enabled(s, CompactionLogged(ok))
    ensures Inv(Next(s, CompactionLogged(ok)))
  {
    if ok {
      var u := Installed(s);
      LoggingEnds(s, u, s.compaction.edit);
      LoggedFiles(s, s.compaction.edit);
      CollectedManifests(u);
      CollectedFiles(u);
      CollectedLogs(u);
    } else {
      ManifestsGrown(s, Next(s, CompactionLogged(ok)));
    }
  }

  lemma StepKeeps(s: State, a: Step)
    requires Inv(s) && Enabled(s, a)
    ensures Inv(Next(s, a))
  {
    match a
    case Write(us, ok) => WriteKeeps(s, us, ok);
    case Switch => SwitchKeeps(s);
    case FlushBuilt(ok) => FlushBuiltKeeps(s, ok);
    case FlushLogged(ok) => FlushLoggedKeeps(s, ok);
    case WriteOutput(n, us) => OutputKeeps(s, n, us);
    case LogCompaction => LogCompactionKeeps(s);
    case CompactionLogged(ok) => CompactionLoggedKeeps(s, ok);
    case StartCompaction(_) => CompactionSmallKeeps(s, a);
    case OpenOutput => CompactionSmallKeeps(s, a);
    case StopCompaction => CompactionSmallKeeps(s, a);
    case _ => SmallKeeps(s, a);
  }

  /** An opened database with one empty log. */
  ghost predicate Initial(s: State) {
    && s.current.tables <= s.tables.Keys && s.held == [] && s.pending == {} && s.mem == {} && s.logs == map[s.memLog := {}]
    && s.current.logNumber <= s.memLog < s.nextFile && (forall n :: n in s.tables ==> n < s.nextFile)
    && s.imm == None && !s.fault && s.flush == NoFlush && s.compaction == NoCompaction
    && s.manifests == {s.current} && s.ended == {} && s.acknowledged == InTables(s, s.current.tables) && s.dropped == {}
    && !s.torn && s.atRisk == {}
  }

  lemma InitialInv(s: State)
    requires Initial(s)
    ensures Inv(s)
  {}

  ghost predicate Run(s: State, steps: seq<Step>)
    decreases |steps|
  {
    steps == [] || (Enabled(s, steps[0]) && Run(Next(s, steps[0]), steps[1..]))
  }

  ghost function After(s: State, steps: seq<Step>): State
    requires Run(s, steps)
    decreases |steps|
  {
    if steps == [] then s else After(Next(s, steps[0]), steps[1..])
  }

  lemma {:induction false} RunKeeps(s: State, steps: seq<Step>)
    requires Inv(s) && Run(s, steps)
    ensures Inv(After(s, steps))
    decreases |steps|
  {
    if steps != [] {
      StepKeeps(s, steps[0]);
      RunKeeps(Next(s, steps[0]), steps[1..]);
    }
  }

  /** The step is an append to a log that fails. */
  predicate FailedAppend(a: Step) {
    a.Write? && !a.ok
  }

  /** Nothing is at risk as long as no append to a log has failed. */
  lemma {:induction false} NothingAtRisk(s: State, steps: seq<Step>)
    requires Run(s, steps) && !s.torn && s.atRisk == {} && forall a :: a in steps ==> !FailedAppend(a)
    ensures After(s, steps).atRisk == {}
    decreases |steps|
  {
    if steps != [] {
      assert steps[0] in steps && forall a :: a in steps[1..] ==> a in steps;
      NothingAtRisk(Next(s, steps[0]), steps[1..]);
    }
  }

  /** At every moment of every run, with writes, memtable switches, flushes, compactions, readers, collections and
      failures of all of them in any order: every table of the current version and of every version a reader holds is in
      the directory, and so are the logs behind both memtables; and whatever version the manifest is read as after a
      crash, the tables it names are there, and every acknowledged update is in one of them or in the readable part of
      a log it still needs, but for those a compaction dropped and those at risk.  An update is at risk if it was
      acknowledged behind a failed append to its log and has not been flushed since. */
  lemma NothingNeededIsDeleted(s: State, steps: seq<Step>)
    requires Initial(s) && Run(s, steps)
    ensures var t := After(s, steps);
            && t.current.tables <= t.tables.Keys
            && (forall i :: 0 <= i < |t.held| ==> t.held[i] <= t.tables.Keys)
            && t.memLog in t.logs && t.mem <= t.logs[t.memLog] + t.atRisk
            && (t.imm.Some? ==> t.imm.value.log in t.logs && t.imm.value.updates <= t.logs[t.imm.value.log] + t.atRisk)
            && t.current in t.manifests && (forall m :: m in t.manifests + t.ended ==> Recovers(t, m))
            && (!t.fault && BeingLogged(t) == None ==> t.manifests == {t.current} && t.ended == {})
    ensures (forall a :: a in steps ==> !FailedAppend(a)) ==> After(s, steps).atRisk == {}
  {
    InitialInv(s);
    RunKeeps(s, steps);
    var t := After(s, steps);
    forall m | m in t.manifests + t.ended ensures Recovers(t, m) {
      assert Recovers(t, m) == true;
    }
    if forall a :: a in steps ==> !FailedAppend(a) {
      NothingAtRisk(s, steps);
    }
  }

  /** What a collection keeps, exactly. */
  lemma CollectedExactly(s: State, n: nat)
    requires !s.fault
    ensures n in Collected(s).tables <==> n in s.tables && (n in s.pending || n in s.current.tables
                                                            || exists i :: 0 <= i < |s.held| && n in s.held[i])
    ensures n in Collected(s).logs <==> n in s.logs && n >= s.current.logNumber
  {
    if n in UnionOf(s.held) {
      UnionIn(s.held, n);
    }
    if i :| 0 <= i < |s.held| && n in s.held[i] {
      UnionHas(s.held, i);
    }
  }

  /** Why one background job at a time matters: the table of a flush is no longer pending while its edit is being
      logged, and a collection then would delete it. */
  lemma CollectionWhileLoggingLosesTheTable(s: State, n: nat)
    requires Inv(s) && s.flush.Logging? && !s.fault
    requires n in s.flush.edit.added && n !in s.current.tables && n !in s.pending
    requires forall i :: 0 <= i < |s.held| ==> n !in s.held[i]
    ensures n in s.tables && n !in Collected(s).tables && !Recovers(Collected(s), Applied(s.current, s.flush.edit))
  {
    LoggedFiles(s, s.flush.edit);
    CollectedExactly(s, n);
  }
}
