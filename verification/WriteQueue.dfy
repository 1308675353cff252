/** Every interleaving of concurrent calls of Write (db/db_impl.cc:1185-1258).

    One step is what a thread does between taking and giving up the mutex, or one log append, one sync or
    one memtable insertion of the writer at the front, which holds no lock meanwhile.  Calls are numbered
    in the order they join the queue; the queue is a deque, so the calls still in it are the latest ones.
 */
module WriteQueue {
  import opened Options
  import opened WriteBatches
  import opened GroupCommit

  // ---- The state ----

  datatype Outcome = Fine | Failed

  /** A call of Write: asleep on its condition variable (and perhaps signalled), at work, or back. */
  datatype Thread = Waiting(signalled: bool) | Leading | Returned

  datatype Progress = ToLog | ToSync | Inserting(done: nat, synced: bool) | GivenUp(kept: bool, syncError: bool)

  /** What the front writer is about. */
  datatype Stage = Idle | MakingRoom | Writing(members: nat, first: nat, ops: seq<Op>, progress: Progress)

  datatype LogRecord = LogRecord(first: nat, ops: seq<Op>, synced: bool)

  /** A group that has left the queue: calls `start..start + members`. */
  datatype Commit = Commit(start: nat, members: nat, written: bool, record: LogRecord, outcome: Outcome, kept: bool)

  datatype State = State(
    base: nat,
    arrivals: seq<Request>,
    threads: seq<Thread>,
    outcomes: seq<Outcome>,
    stage: Stage,
    log: seq<LogRecord>,
    table: seq<Versioned>,
    lastSequence: nat,
    fault: bool,
    commits: seq<Commit>)
  {
    /** The call at the front of the queue, if any. */
    function Front(): nat { |outcomes| }

    function Queue(): seq<Request>
      requires |outcomes| <= |arrivals|
    {
      arrivals[|outcomes|..]
    }
  }

  ghost predicate Initial(s: State) {
    && s.arrivals == [] && s.threads == [] && s.outcomes == [] && s.stage == Idle && s.log == [] && s.table == []
    && s.commits == [] && s.lastSequence == s.base
  }

  // ---- The steps ----

  datatype Step =
    | Arrive(r: Request)
    | Wake(id: nat)
    | Fault
    | RoomMade(ok: bool, members: nat)
    | Appended(ok: bool, kept: bool)
    | Synced(ok: bool)
    | Insert
    | Finish

  ghost predicate Enabled(s: State, a: Step) {
    |s.outcomes| <= |s.arrivals| == |s.threads| &&
    match a
    case Arrive(_) => true
    case Wake(id) => id < |s.threads| && s.threads[id].Waiting?
    case Fault => true
    case RoomMade(ok, n) =>
      && s.stage == MakingRoom && s.Queue() != [] && (ok ==> !s.fault)
      && if ok && s.Queue()[0].batch.Some? then IsGroup(s.Queue(), n) else n == 1
    case Appended(ok, kept) => s.stage.Writing? && s.stage.progress == ToLog && (ok ==> kept)
    case Synced(_) => s.stage.Writing? && s.stage.progress == ToSync && s.log != []
    case Insert => s.stage.Writing? && s.stage.progress.Inserting? && s.stage.progress.done < |s.stage.ops|
    case Finish =>
      && s.stage.Writing? && s.stage.first > 0 && s.Front() + s.stage.members <= |s.arrivals|
      && (s.stage.progress.GivenUp? || (s.stage.progress.Inserting? && s.stage.progress.done == |s.stage.ops|))
  }

  /** Pop the group off the queue, wake its followers and the new front writer (db_impl.cc:1239-1256). */
  function Complete(s: State, c: Commit): State
    requires |s.outcomes| <= |s.arrivals| == |s.threads|
  {
    var front, next := s.Front(), s.Front() + c.members;
    s.(outcomes := s.outcomes + seq(c.members, _ => c.outcome),
       threads := seq(|s.threads|, i requires 0 <= i < |s.threads| =>
                        if i == front then Returned
                        else if front < i <= next then Waiting(true)
                        else s.threads[i]),
       stage := Idle,
       commits := s.commits + [c])
  }

  function Next(s: State, a: Step): State
    requires Enabled(s, a)
  {
    match a
    case Arrive(r) =>
      var alone := s.Queue() == [];
      s.(arrivals := s.arrivals + [r], threads := s.threads + [if alone then Leading else Waiting(false)],
         stage := if alone then MakingRoom else s.stage)
    case Wake(id) =>
      if id < s.Front() then s.(threads := s.threads[id := Returned])
      else if id == s.Front() then s.(threads := s.threads[id := Leading], stage := MakingRoom)
      else s.(threads := s.threads[id := Waiting(false)])
    case Fault => s.(fault := true)
    case RoomMade(ok, n) =>
      if ok && s.Queue()[0].batch.Some? then
        s.(stage := Writing(n, s.lastSequence + 1, Joined(s.Queue()[..n]), ToLog))
      else
        Complete(s, Commit(s.Front(), 1, false, LogRecord(s.lastSequence + 1, [], false),
                           if ok then Fine else Failed, false))
    case Appended(ok, kept) =>
      var w := s.stage;
      var progress := if !ok then GivenUp(kept, false) else if s.Queue() != [] && s.Queue()[0].sync then ToSync
                      else Inserting(0, false);
      s.(stage := w.(progress := progress), log := if kept then s.log + [LogRecord(w.first, w.ops, false)] else s.log)
    case Synced(ok) =>
      var last := |s.log| - 1;
      if ok then
        s.(stage := s.stage.(progress := Inserting(0, true)), log := s.log[last := s.log[last].(synced := true)])
      else
        s.(stage := s.stage.(progress := GivenUp(true, true)))
    case Insert =>
      var w := s.stage;
      var i := w.progress.done;
      s.(stage := w.(progress := Inserting(i + 1, w.progress.synced)), table := s.table + [Versioned(w.first + i, w.ops[i])])
    case Finish =>
      var w := s.stage;
      var good := w.progress.Inserting?;
      var c := Commit(s.Front(), w.members, true, LogRecord(w.first, w.ops, good && w.progress.synced),
                      if good then Fine else Failed, good || w.progress.kept);
      var t := Complete(s, c);
      t.(lastSequence := w.first + |w.ops| - 1, fault := s.fault || (!good && w.progress.syncError))
  }

  ghost predicate Run(s: State, steps: seq<Step>)
    decreases |steps|
  {
    steps == [] || (Enabled(s, steps[0]) && Run(Next(s, steps[0]), steps[1..]))
  }

  function After(s: State, steps: seq<Step>): State
    requires Run(s, steps)
    decreases |steps|
  {
    if steps == [] then s else After(Next(s, steps[0]), steps[1..])
  }

  // ---- What holds at every step ----

  /** Who sleeps, who works, who is back; the front writer is at work or has been signalled. */
  ghost predicate ThreadsOk(s: State) {
    && |s.outcomes| <= |s.arrivals| == |s.threads|
    && (forall i :: 0 <= i < s.Front() ==> s.threads[i] in {Waiting(true), Returned})
    && (forall i :: s.Front() < i < |s.threads| ==> s.threads[i].Waiting?)
    && (s.stage == Idle && s.Front() < |s.threads| ==> s.threads[s.Front()] == Waiting(true))
    && (s.stage != Idle ==> s.Front() < |s.threads| && s.threads[s.Front()] == Leading)
  }

  /** The groups follow each other through the queue, and through the sequence numbers. */
  ghost predicate Chained(cs: seq<Commit>, base: nat, front: nat, last: nat)
    decreases |cs|
  {
    if cs == [] then front == 0 && last == base
    else
      var c := cs[|cs| - 1];
      && c.members > 0 && front == c.start + c.members && last + 1 == c.record.first + |c.record.ops|
      && c.record.first > 0
      && Chained(cs[..|cs| - 1], base, c.start, c.record.first - 1)
  }

  /** What one group did, against the calls it served. */
  ghost predicate CommitOk(c: Commit, arrivals: seq<Request>, outcomes: seq<Outcome>) {
    && c.members > 0 && c.start + c.members <= |outcomes| <= |arrivals|
    && (forall i :: c.start <= i < c.start + c.members ==> outcomes[i] == c.outcome)
    && (if c.written then
          var group := arrivals[c.start..c.start + c.members];
          && AllJoin(group, c.members) && c.record.ops == Joined(group)
          && (c.outcome == Fine ==> c.kept && (group[0].sync ==> c.record.synced))
        else
          c.members == 1 && c.record.ops == [] && !c.kept && (arrivals[c.start].batch.Some? ==> c.outcome == Failed))
  }

  /** The records in the log: one for every group that was kept. */
  function Logged(cs: seq<Commit>): seq<LogRecord> {
    if cs == [] then []
    else Logged(cs[..|cs| - 1]) + if cs[|cs| - 1].kept then [cs[|cs| - 1].record] else []
  }

  /** The memtable insertions, in order: all updates of every group that went well. */
  function Inserted(cs: seq<Commit>): seq<Versioned> {
    if cs == [] then []
    else
      var c := cs[|cs| - 1];
      Inserted(cs[..|cs| - 1]) + if c.outcome == Fine then Number(c.record.ops, c.record.first) else []
  }

  /** The record of the group being written. */
  function Pending(g: Stage): seq<LogRecord> {
    if g.Writing? then
      match g.progress
      case ToLog => []
      case ToSync => [LogRecord(g.first, g.ops, false)]
      case Inserting(_, synced) => [LogRecord(g.first, g.ops, synced)]
      case GivenUp(kept, _) => if kept then [LogRecord(g.first, g.ops, false)] else []
    else []
  }

  function Partial(g: Stage): seq<Versioned> {
    if g.Writing? && g.progress.Inserting? && g.progress.done <= |g.ops| then Number(g.ops[..g.progress.done], g.first)
    else []
  }

  /** The group being written. */
  ghost predicate StageOk(s: State)
    requires |s.outcomes| <= |s.arrivals|
  {
    s.stage.Writing? ==>
      var w := s.stage;
      && AllJoin(s.Queue(), w.members) && w.ops == Joined(s.Queue()[..w.members]) && w.first == s.lastSequence + 1
      && match w.progress
         case ToLog => true
         case ToSync => s.Queue()[0].sync
         case Inserting(i, synced) => i <= |w.ops| && synced == s.Queue()[0].sync
         case GivenUp(kept, syncError) => syncError ==> kept
  }

  ghost predicate Inv(s: State) {
    && ThreadsOk(s) == true
    && StageOk(s) == true
    && Chained(s.commits, s.base, |s.outcomes|, s.lastSequence) == true
    && (forall c :: c in s.commits ==> CommitOk(c, s.arrivals, s.outcomes) == true)
    && s.log == Logged(s.commits) + Pending(s.stage)
    && s.table == Inserted(s.commits) + Partial(s.stage)
  }

  // ---- Every step keeps it ----

  lemma AllJoinPrefix(rs: seq<Request>, rs': seq<Request>, n: nat)
    requires AllJoin(rs, n) && n <= |rs'| && rs'[..n] == rs[..n]
    ensures AllJoin(rs', n)
  {
    forall i | 0 <= i < n ensures rs'[i] == rs[i] && rs'[..i] == rs[..i] {
      assert rs'[i] == rs'[..n][i] && rs[i] == rs[..n][i];
      assert rs'[..i] == rs'[..n][..i] && rs[..i] == rs[..n][..i];
    }
    forall i | 1 <= i < n ensures Joins(rs', i) {
      assert Joins(rs, i);
    }
  }

  lemma CommitKept(c: Commit, a: seq<Request>, o: seq<Outcome>, a': seq<Request>, o': seq<Outcome>)
    requires CommitOk(c, a, o) && a <= a' && o <= o' && |o'| <= |a'|
    ensures CommitOk(c, a', o')
  {
    assert a'[c.start..c.start + c.members] == a[c.start..c.start + c.members];
    assert forall i :: 0 <= i < |o| ==> o'[i] == o[i];
  }

  lemma CommitsKept(cs: seq<Commit>, a: seq<Request>, o: seq<Outcome>, a': seq<Request>, o': seq<Outcome>)
    requires (forall c :: c in cs ==> CommitOk(c, a, o)) && a <= a' && o <= o' && |o'| <= |a'|
    ensures forall c :: c in cs ==> CommitOk(c, a', o')
  {
    forall c | c in cs ensures CommitOk(c, a', o') {
      CommitKept(c, a, o, a', o');
    }
  }

  lemma ThreadsKept(s: State, a: Step)
    requires ThreadsOk(s) && StageOk(s) && Enabled(s, a)
    ensures ThreadsOk(Next(s, a))
  {}

  lemma ArriveKeeps(s: State, r: Request)
    requires Inv(s) && Enabled(s, Arrive(r))
    ensures Inv(Next(s, Arrive(r)))
  {
    var t := Next(s, Arrive(r));
    ThreadsKept(s, Arrive(r));
    CommitsKept(s.commits, s.arrivals, s.outcomes, t.arrivals, t.outcomes);
    assert t.Queue() == s.Queue() + [r];
    if s.stage.Writing? {
      assert t.Queue()[..s.stage.members] == s.Queue()[..s.stage.members];
      AllJoinPrefix(s.Queue(), t.Queue(), s.stage.members);
    }
  }

  lemma WakeKeeps(s: State, id: nat)
    requires Inv(s) && Enabled(s, Wake(id))
    ensures Inv(Next(s, Wake(id)))
  {
    ThreadsKept(s, Wake(id));
  }

  /** A group leaves the queue. */
  lemma CompleteKeeps(s: State, c: Commit, t: State)
    requires Inv(s) && s.stage != Idle
    requires c.start == s.Front() && c.members > 0 && c.start + c.members <= |s.arrivals|
    requires CommitOk(c, s.arrivals, s.outcomes + seq(c.members, _ => c.outcome))
    requires c.record.first == s.lastSequence + 1
    requires if c.kept then Pending(s.stage) == [c.record] else Pending(s.stage) == []
    requires Partial(s.stage) == if c.outcome == Fine then Number(c.record.ops, c.record.first) else []
    requires t == Complete(s, c).(lastSequence := s.lastSequence + |c.record.ops|, fault := t.fault)
    ensures Inv(t)
  {
    CommitAppended(s.commits, c, s.base, |s.outcomes|, s.lastSequence);
    CommitsKept(s.commits, s.arrivals, s.outcomes, t.arrivals, t.outcomes);
    CompleteThreads(s, c);
    assert forall d :: d in t.commits <==> d in s.commits || d == c;
  }

  lemma CommitAppended(cs: seq<Commit>, c: Commit, base: nat, front: nat, last: nat)
    requires Chained(cs, base, front, last) && c.start == front && c.members > 0 && c.record.first == last + 1
    ensures Chained(cs + [c], base, front + c.members, last + |c.record.ops|)
    ensures Logged(cs + [c]) == Logged(cs) + if c.kept then [c.record] else []
    ensures Inserted(cs + [c]) == Inserted(cs) + if c.outcome == Fine then Number(c.record.ops, c.record.first) else []
  {
    assert (cs + [c])[..|cs|] == cs;
  }

  lemma CompleteThreads(s: State, c: Commit)
    requires ThreadsOk(s) && s.stage != Idle
    requires c.start == s.Front() && c.members > 0 && c.start + c.members <= |s.arrivals|
    ensures ThreadsOk(Complete(s, c))
  {
  }

  lemma RoomKeeps(s: State, ok: bool, n: nat)
    requires Inv(s) && Enabled(s, RoomMade(ok, n))
    ensures Inv(Next(s, RoomMade(ok, n)))
  {
    var t := Next(s, RoomMade(ok, n));
    assert s.Queue()[0] == s.arrivals[s.Front()];
    if ok && s.Queue()[0].batch.Some? {
      ThreadsKept(s, RoomMade(ok, n));
      assert s.stage == MakingRoom && t.stage.progress == ToLog;
    } else {
      CompleteKeeps(s, t.commits[|t.commits| - 1], t);
    }
  }

  lemma WriteKeeps(s: State, a: Step)
    requires Inv(s) && Enabled(s, a) && (a.Appended? || a.Synced?)
    ensures Inv(Next(s, a))
  {
    ThreadsKept(s, a);
    var t := Next(s, a);
    match a
    case Appended(ok, kept) =>
      assert Pending(s.stage) == [];
    case Synced(ok) =>
      var head := Logged(s.commits);
      assert s.log == head + [LogRecord(s.stage.first, s.stage.ops, false)];
      assert ok ==> t.log == head + [LogRecord(s.stage.first, s.stage.ops, true)];
  }

  lemma InsertKeeps(s: State)
    requires Inv(s) && Enabled(s, Insert)
    ensures Inv(Next(s, Insert))
  {
    ThreadsKept(s, Insert);
    var t, w := Next(s, Insert), s.stage;
    var i := w.progress.done;
    assert w.ops[..i + 1] == w.ops[..i] + [w.ops[i]];
    assert Partial(t.stage) == Partial(s.stage) + [Versioned(w.first + i, w.ops[i])];
  }

  lemma FinishKeeps(s: State)
    requires Inv(s) && Enabled(s, Finish)
    ensures Inv(Next(s, Finish))
  {
    var t := Next(s, Finish);
    var w := s.stage;
    var c := t.commits[|t.commits| - 1];
    var group := s.arrivals[c.start..c.start + c.members];
    assert group == s.Queue()[..w.members] == group[..w.members];
    AllJoinPrefix(s.Queue(), group, w.members);
    assert group[0] == s.Queue()[0];
    assert w.ops[..|w.ops|] == w.ops;
    CompleteKeeps(s, c, t);
  }

  lemma StepKeepsInv(s: State, a: Step)
    requires Inv(s) && Enabled(s, a)
    ensures Inv(Next(s, a))
  {
    match a
    case Arrive(r) => ArriveKeeps(s, r);
    case Wake(id) => WakeKeeps(s, id);
    case Fault => ThreadsKept(s, a);
    case RoomMade(ok, n) => RoomKeeps(s, ok, n);
    case Appended(_, _) => WriteKeeps(s, a);
    case Synced(_) => WriteKeeps(s, a);
    case Insert => InsertKeeps(s);
    case Finish => FinishKeeps(s);
  }

  lemma {:induction false} RunKeepsInv(s: State, steps: seq<Step>)
    requires Inv(s) && Run(s, steps)
    ensures Inv(After(s, steps))
    decreases |steps|
  {
    if steps != [] {
      StepKeepsInv(s, steps[0]);
      RunKeepsInv(Next(s, steps[0]), steps[1..]);
    }
  }

  lemma InitialInv(s: State)
    requires Initial(s)
    ensures Inv(s)
  {}

  // ---- Order: groups follow each other ----

  lemma {:induction false} ChainBefore(cs: seq<Commit>, base: nat, front: nat, last: nat, k: nat)
    requires Chained(cs, base, front, last) && k < |cs|
    ensures cs[k].record.first > base && cs[k].record.first + |cs[k].record.ops| <= last + 1
    ensures cs[k].start + cs[k].members <= front
    ensures base <= last
    decreases |cs|
  {
    var c, cs' := cs[|cs| - 1], cs[..|cs| - 1];
    if k < |cs'| {
      ChainBefore(cs', base, c.start, c.record.first - 1, k);
      assert cs'[k] == cs[k];
    } else {
      ChainGrows(cs', base, c.start, c.record.first - 1);
    }
  }

  lemma {:induction false} ChainGrows(cs: seq<Commit>, base: nat, front: nat, last: nat)
    requires Chained(cs, base, front, last)
    ensures base <= last
    decreases |cs|
  {
    if cs != [] {
      var c := cs[|cs| - 1];
      ChainGrows(cs[..|cs| - 1], base, c.start, c.record.first - 1);
    }
  }

  /** What is committed after a group was is later in the queue and has later sequence numbers. */
  lemma {:induction false} ChainAfter(cs: seq<Commit>, base: nat, front: nat, last: nat, m: nat, front': nat, last': nat)
    requires Chained(cs, base, front, last) && m <= |cs| && Chained(cs[..m], base, front', last')
    ensures front' <= front && last' <= last
    ensures forall k :: m <= k < |cs| ==> cs[k].record.first > last' && cs[k].start >= front'
    decreases |cs|
  {
    if m < |cs| {
      var c, cs' := cs[|cs| - 1], cs[..|cs| - 1];
      assert cs'[..m] == cs[..m];
      ChainAfter(cs', base, c.start, c.record.first - 1, m, front', last');
      assert forall k :: m <= k < |cs'| ==> cs[k] == cs'[k];
    } else {
      assert cs[..m] == cs;
    }
  }

  // ---- Exactly once, in queue order ----

  /** The sequence number of the first update of call `id`. */
  function FirstSequence(cs: seq<Commit>, arrivals: seq<Request>, id: nat): nat
    requires id < |arrivals|
  {
    if cs == [] then 0
    else
      var c := cs[|cs| - 1];
      if c.start <= id then c.record.first + |Joined(arrivals[c.start..id])|
      else FirstSequence(cs[..|cs| - 1], arrivals, id)
  }

  /** The updates of the calls before `n` that returned without an error, call by call in queue order, each
      under its sequence number. */
  function Served(cs: seq<Commit>, arrivals: seq<Request>, outcomes: seq<Outcome>, n: nat): seq<Versioned>
    requires n <= |outcomes| <= |arrivals|
  {
    if n == 0 then []
    else
      Served(cs, arrivals, outcomes, n - 1)
      + if outcomes[n - 1] == Fine then Number(OpsOf(arrivals[n - 1]), FirstSequence(cs, arrivals, n - 1)) else []
  }

  lemma JoinedSlice(rs: seq<Request>, i: nat, j: nat)
    requires i <= j < |rs|
    ensures Joined(rs[i..j + 1]) == Joined(rs[i..j]) + OpsOf(rs[j])
  {
    assert rs[i..j + 1][..j - i] == rs[i..j];
  }

  /** Calls before the last group were numbered without it. */
  lemma {:induction false} ServedWithout(cs: seq<Commit>, arrivals: seq<Request>, outcomes: seq<Outcome>, n: nat)
    requires cs != [] && n <= cs[|cs| - 1].start && n <= |outcomes| <= |arrivals|
    ensures Served(cs, arrivals, outcomes, n) == Served(cs[..|cs| - 1], arrivals, outcomes, n)
  {
    if n > 0 { ServedWithout(cs, arrivals, outcomes, n - 1); }
  }

  lemma NumberSum(a: seq<Op>, b: seq<Op>, first: nat)
    ensures Number(a + b, first) == Number(a, first) + Number(b, first + |a|)
  {}

  lemma ServedStep(cs: seq<Commit>, arrivals: seq<Request>, outcomes: seq<Outcome>, id: nat)
    requires cs != [] && cs[|cs| - 1].start <= id < |outcomes| <= |arrivals|
    ensures var c := cs[|cs| - 1];
            Served(cs, arrivals, outcomes, id + 1)
            == Served(cs, arrivals, outcomes, id)
               + if outcomes[id] == Fine
                 then Number(OpsOf(arrivals[id]), c.record.first + |Joined(arrivals[c.start..id])|) else []
  {}

  /** A group is its calls, one after the other. */
  lemma {:induction false} ServedGroup(cs: seq<Commit>, arrivals: seq<Request>, outcomes: seq<Outcome>, m: nat)
    requires cs != [] && CommitOk(cs[|cs| - 1], arrivals, outcomes) && m <= cs[|cs| - 1].members
    ensures var c := cs[|cs| - 1];
            Served(cs, arrivals, outcomes, c.start + m)
            == Served(cs, arrivals, outcomes, c.start)
               + if c.outcome == Fine then Number(Joined(arrivals[c.start..c.start + m]), c.record.first) else []
  {
    var c := cs[|cs| - 1];
    if m == 0 {
      assert arrivals[c.start..c.start] == [] && Joined([]) == [] && Number([], c.record.first) == [];
    } else {
      ServedGroup(cs, arrivals, outcomes, m - 1);
      var id := c.start + m - 1;
      if c.outcome == Fine {
        ServedOne(cs, arrivals, outcomes, id, Served(cs, arrivals, outcomes, c.start));
      } else {
        ServedStep(cs, arrivals, outcomes, id);
      }
    }
  }

  /** The next call of a group that went well. */
  lemma ServedOne(cs: seq<Commit>, arrivals: seq<Request>, outcomes: seq<Outcome>, id: nat, head: seq<Versioned>)
    requires cs != [] && cs[|cs| - 1].start <= id < |outcomes| <= |arrivals| && outcomes[id] == Fine
    requires var c := cs[|cs| - 1];
      Served(cs, arrivals, outcomes, id) == head + Number(Joined(arrivals[c.start..id]), c.record.first)
    ensures var c := cs[|cs| - 1];
      Served(cs, arrivals, outcomes, id + 1) == head + Number(Joined(arrivals[c.start..id + 1]), c.record.first)
  {
    var c := cs[|cs| - 1];
    var before, ops, first := Joined(arrivals[c.start..id]), OpsOf(arrivals[id]), c.record.first;
    ServedStep(cs, arrivals, outcomes, id);
    JoinedSlice(arrivals, c.start, id);
    NumberSum(before, ops, first);
    assert Joined(arrivals[c.start..id + 1]) == before + ops;
    SumTurn(Served(cs, arrivals, outcomes, id + 1), Served(cs, arrivals, outcomes, id), head, Number(before, first),
            Number(ops, first + |before|), Number(before + ops, first));
  }

  lemma SumTurn<T>(after: seq<T>, before: seq<T>, head: seq<T>, a: seq<T>, b: seq<T>, ab: seq<T>)
    requires before == head + a && after == before + b && ab == a + b
    ensures after == head + ab
  {}

  /** The record of a group that went well is made of its calls. */
  lemma GroupOps(c: Commit, arrivals: seq<Request>, outcomes: seq<Outcome>)
    requires CommitOk(c, arrivals, outcomes) && c.outcome == Fine
    ensures c.record.ops == Joined(arrivals[c.start..c.start + c.members])
  {
    if !c.written {
      assert arrivals[c.start..c.start + 1] == [arrivals[c.start]];
      OpsOfOne(arrivals[c.start]);
    }
  }

  lemma OpsOfOne(r: Request)
    ensures Joined([r]) == OpsOf(r)
  {
    assert [r][..0] == [];
    assert Joined([r]) == Joined([]) + OpsOf(r);
  }

  /** What a group adds to the memtables. */
  function Added(c: Commit): seq<Versioned> {
    if c.outcome == Fine then Number(c.record.ops, c.record.first) else []
  }

  lemma InsertedLast(cs: seq<Commit>)
    requires cs != []
    ensures Inserted(cs) == Inserted(cs[..|cs| - 1]) + Added(cs[|cs| - 1])
  {}

  lemma ServedLast(cs: seq<Commit>, arrivals: seq<Request>, outcomes: seq<Outcome>)
    requires cs != [] && CommitOk(cs[|cs| - 1], arrivals, outcomes)
    ensures var c := cs[|cs| - 1];
            Served(cs, arrivals, outcomes, c.start + c.members)
            == Served(cs[..|cs| - 1], arrivals, outcomes, c.start) + Added(c)
  {
    var c := cs[|cs| - 1];
    ServedWithout(cs, arrivals, outcomes, c.start);
    ServedGroup(cs, arrivals, outcomes, c.members);
    if c.outcome == Fine {
      GroupOps(c, arrivals, outcomes);
    }
  }

  lemma {:induction false} InsertedIsServed(cs: seq<Commit>, arrivals: seq<Request>, outcomes: seq<Outcome>,
                                            base: nat, front: nat, last: nat)
    requires Chained(cs, base, front, last) && front <= |outcomes| <= |arrivals|
    requires forall c :: c in cs ==> CommitOk(c, arrivals, outcomes) == true
    ensures Inserted(cs) == Served(cs, arrivals, outcomes, front)
    decreases |cs|
  {
    if cs != [] {
      var c, cs' := cs[|cs| - 1], cs[..|cs| - 1];
      InsertedIsServed(cs', arrivals, outcomes, base, c.start, c.record.first - 1);
      assert CommitOk(c, arrivals, outcomes) == true;
      InsertedLast(cs);
      ServedLast(cs, arrivals, outcomes);
    }
  }

  /** At every step of every run, the memtable insertions are: all updates of every call that has left the
      queue without an error, once each, in queue order; then part of the group being written.  Calls that
      failed have left nothing. */
  lemma EachCallOnce(start: State, steps: seq<Step>)
    requires Initial(start) && Run(start, steps)
    ensures var s := After(start, steps);
      && |s.outcomes| <= |s.arrivals|
      && s.table == Served(s.commits, s.arrivals, s.outcomes, |s.outcomes|) + Partial(s.stage)
  {
    InitialInv(start);
    RunKeepsInv(start, steps);
    var s := After(start, steps);
    InsertedIsServed(s.commits, s.arrivals, s.outcomes, s.base, |s.outcomes|, s.lastSequence);
  }

  /** The group that served a call. */
  lemma {:induction false} GroupOf(cs: seq<Commit>, arrivals: seq<Request>, outcomes: seq<Outcome>, base: nat, front: nat,
                                   last: nat, id: nat) returns (k: nat)
    requires Chained(cs, base, front, last) && id < front <= |outcomes| <= |arrivals|
    requires forall c :: c in cs ==> CommitOk(c, arrivals, outcomes)
    ensures k < |cs| && cs[k].start <= id < cs[k].start + cs[k].members
    ensures FirstSequence(cs, arrivals, id) == cs[k].record.first + |Joined(arrivals[cs[k].start..id])|
    decreases |cs|
  {
    var c := cs[|cs| - 1];
    if c.start <= id {
      k := |cs| - 1;
    } else {
      k := GroupOf(cs[..|cs| - 1], arrivals, outcomes, base, c.start, c.record.first - 1, id);
    }
  }

  /** Where a call's updates stand among those joined with them. */
  lemma {:induction false} JoinedParts(rs: seq<Request>, i: nat, n: nat, at: nat, b: seq<Op>)
    requires i < n <= |rs| && at == |Joined(rs[..i])| && b == OpsOf(rs[i])
    ensures at + |b| <= |Joined(rs[..n])| && Joined(rs[..n])[at..at + |b|] == b
  {
    JoinedStep(rs, n - 1);
    if i < n - 1 {
      JoinedParts(rs, i, n - 1, at, b);
    }
    PartOfSum(Joined(rs[..n - 1]), OpsOf(rs[n - 1]), Joined(rs[..n]), at, b, i == n - 1);
  }

  lemma PartOfSum<T>(x: seq<T>, y: seq<T>, xy: seq<T>, at: nat, b: seq<T>, last: bool)
    requires xy == x + y
    requires if last then at == |x| && b == y else at + |b| <= |x| && x[at..at + |b|] == b
    ensures at + |b| <= |xy| && xy[at..at + |b|] == b
  {}

  /** A call that returned without an error, in its group: its updates stand in one piece in the group's
      record, which is in the log, and synced if the call asked for it. */
  lemma GroupServes(c: Commit, arrivals: seq<Request>, outcomes: seq<Outcome>, id: nat, at: nat, b: seq<Op>)
    requires CommitOk(c, arrivals, outcomes) && c.start <= id < c.start + c.members
    requires outcomes[id] == Fine && arrivals[id].batch == Some(b) && at == |Joined(arrivals[c.start..id])|
    ensures c.written && c.kept && (arrivals[id].sync ==> c.record.synced)
    ensures at + |b| <= |c.record.ops| && c.record.ops[at..at + |b|] == b
  {
    var group, i := arrivals[c.start..c.start + c.members], id - c.start;
    assert group[i] == arrivals[id];
    assert c.written;
    assert group[..i] == arrivals[c.start..id] && group[..c.members] == group;
    JoinedParts(group, i, c.members, at, b);
    GroupKeepsRules(group, c.members);
  }

  /** In every run, a call that returned without an error: its group was handed to the log as one record, which holds
      its updates in one piece, under consecutive sequence numbers, and is synced if the call asked for it. */
  lemma Acknowledged(start: State, steps: seq<Step>, s: State, id: nat, a: nat, b: seq<Op>) returns (k: nat)
    requires Initial(start) && Run(start, steps) && s == After(start, steps)
    requires |s.outcomes| <= |s.arrivals| && id < |s.outcomes| && s.outcomes[id] == Fine && s.arrivals[id].batch == Some(b)
    requires a == FirstSequence(s.commits, s.arrivals, id)
    ensures k < |s.commits| && s.commits[k].start <= id < s.commits[k].start + s.commits[k].members
    ensures var r := s.commits[k].record;
            && r in s.log && (s.arrivals[id].sync ==> r.synced)
            && s.base < r.first <= a && a + |b| <= r.first + |r.ops| <= s.lastSequence + 1
            && r.ops[a - r.first..a - r.first + |b|] == b
  {
    InitialInv(start);
    RunKeepsInv(start, steps);
    k := InOnePiece(s, id, a, b);
  }

  lemma InOnePiece(s: State, id: nat, a: nat, b: seq<Op>) returns (k: nat)
    requires Inv(s) && id < |s.outcomes| && s.outcomes[id] == Fine && s.arrivals[id].batch == Some(b)
    requires a == FirstSequence(s.commits, s.arrivals, id)
    ensures k < |s.commits| && s.commits[k].start <= id < s.commits[k].start + s.commits[k].members
    ensures var r := s.commits[k].record;
            && r in s.log && (s.arrivals[id].sync ==> r.synced)
            && s.base < r.first <= a && a + |b| <= r.first + |r.ops| <= s.lastSequence + 1
            && r.ops[a - r.first..a - r.first + |b|] == b
  {
    k := GroupOf(s.commits, s.arrivals, s.outcomes, s.base, |s.outcomes|, s.lastSequence, id);
    var c := s.commits[k];
    ChainBefore(s.commits, s.base, |s.outcomes|, s.lastSequence, k);
    GroupServes(c, s.arrivals, s.outcomes, id, a - c.record.first, b);
    KeptIsLogged(s.commits, k);
  }

  lemma {:induction false} KeptIsLogged(cs: seq<Commit>, k: nat)
    requires k < |cs|
    ensures cs[k].kept ==> cs[k].record in Logged(cs)
    decreases |cs|
  {
    if k < |cs| - 1 {
      KeptIsLogged(cs[..|cs| - 1], k);
      assert cs[..|cs| - 1][k] == cs[k];
    }
  }

  /** Two calls of one group do not overlap. */
  lemma SameGroup(c: Commit, arrivals: seq<Request>, outcomes: seq<Outcome>, i: nat, j: nat)
    requires CommitOk(c, arrivals, outcomes) && c.start <= i < j < c.start + c.members
    ensures |Joined(arrivals[c.start..i])| + |OpsOf(arrivals[i])| <= |Joined(arrivals[c.start..j])|
  {
    var group, k := arrivals[c.start..j], i - c.start;
    assert group[..k] == arrivals[c.start..i];
    assert group[..|group|] == group;
    assert group[k] == arrivals[i];
    JoinedParts(group, k, |group|, |Joined(arrivals[c.start..i])|, OpsOf(arrivals[i]));
  }

  /** The runs of sequence numbers of two calls are disjoint, and in queue order. */
  lemma RunsInOrder(s: State, i: nat, j: nat, a: nat, b: seq<Op>, a': nat, b': seq<Op>)
    requires Inv(s) && i < j < |s.outcomes| && s.outcomes[i] == s.outcomes[j] == Fine
    requires s.arrivals[i].batch == Some(b) && s.arrivals[j].batch == Some(b')
    requires a == FirstSequence(s.commits, s.arrivals, i) && a' == FirstSequence(s.commits, s.arrivals, j)
    ensures a + |b| <= a'
  {
    var cs := s.commits;
    var m := GroupOf(cs, s.arrivals, s.outcomes, s.base, |s.outcomes|, s.lastSequence, i);
    var n := GroupOf(cs, s.arrivals, s.outcomes, s.base, |s.outcomes|, s.lastSequence, j);
    GroupServes(cs[m], s.arrivals, s.outcomes, i, a - cs[m].record.first, b);
    if m == n {
      SameGroup(cs[m], s.arrivals, s.outcomes, i, j);
    } else {
      GroupsOrdered(cs, s.base, |s.outcomes|, s.lastSequence, n, m);
      GroupsOrdered(cs, s.base, |s.outcomes|, s.lastSequence, m, n);
    }
  }

  lemma {:induction false} GroupsOrdered(cs: seq<Commit>, base: nat, front: nat, last: nat, m: nat, n: nat)
    requires Chained(cs, base, front, last) && m < |cs| && n < |cs|
    ensures m < n ==> cs[m].record.first + |cs[m].record.ops| <= cs[n].record.first
    ensures m < n ==> cs[m].start + cs[m].members <= cs[n].start
    decreases |cs|
  {
    var c, cs' := cs[|cs| - 1], cs[..|cs| - 1];
    if m < n == |cs| - 1 {
      ChainBefore(cs', base, c.start, c.record.first - 1, m);
      assert cs'[m] == cs[m];
    } else if m < n {
      GroupsOrdered(cs', base, c.start, c.record.first - 1, m, n);
      assert cs'[m] == cs[m] && cs'[n] == cs[n];
    }
  }

  // ---- Snapshots ----

  lemma StepGrows(s: State, a: Step)
    requires Inv(s) && Enabled(s, a)
    ensures var t := Next(s, a);
            && s.table <= t.table && s.commits <= t.commits && s.base == t.base && s.arrivals <= t.arrivals
            && s.lastSequence <= t.lastSequence
            && forall i :: |s.table| <= i < |t.table| ==> t.table[i].sequence > s.lastSequence
  {}

  /** Whatever happens later, a reader at the last sequence number of now sees what is there now. */
  lemma {:induction false} RunGrows(s: State, steps: seq<Step>)
    requires Inv(s) && Run(s, steps)
    ensures var t := After(s, steps);
            && s.table <= t.table && s.commits <= t.commits && s.base == t.base
            && s.lastSequence <= t.lastSequence
            && forall i :: |s.table| <= i < |t.table| ==> t.table[i].sequence > s.lastSequence
    decreases |steps|
  {
    if steps != [] {
      StepGrows(s, steps[0]);
      StepKeepsInv(s, steps[0]);
      RunGrows(Next(s, steps[0]), steps[1..]);
    }
  }

  /** A snapshot taken from LastSequence at any moment sees the updates of a call all or not at all, even
      when it is taken while that call's group is being inserted. */
  lemma SnapshotAtomic(s: State, steps: seq<Step>, t: State, id: nat, a: nat, b: seq<Op>)
    requires Inv(s) && Run(s, steps) && t == After(s, steps)
    requires id < |t.outcomes| <= |t.arrivals| && t.outcomes[id] == Fine && t.arrivals[id].batch == Some(b)
    requires a == FirstSequence(t.commits, t.arrivals, id)
    ensures a + |b| <= s.lastSequence + 1 || s.lastSequence < a
  {
    RunKeepsInv(s, steps);
    RunGrows(s, steps);
    var k := InOnePiece(t, id, a, b);
    var m := |s.commits|;
    assert t.commits[..m] == s.commits;
    if k < m {
      ChainBefore(s.commits, s.base, |s.outcomes|, s.lastSequence, k);
      assert s.commits[k] == t.commits[k];
    } else {
      ChainAfter(t.commits, t.base, |t.outcomes|, t.lastSequence, m, |s.outcomes|, s.lastSequence);
    }
  }

  // ---- Nobody is stuck ----

  /** A step of a thread that is at work or has been signalled. */
  predicate Own(s: State, a: Step) {
    match a
    case Wake(id) => id < |s.threads| && s.threads[id] == Waiting(true)
    case _ => !a.Arrive? && !a.Fault?
  }

  /** While a call is out, some thread can take a step that needs no new call and no stray wake-up. */
  lemma NoDeadlock(s: State, id: nat) returns (a: Step)
    requires Inv(s) && id < |s.threads| && s.threads[id] != Returned
    ensures Enabled(s, a) && Own(s, a)
  {
    if s.stage == Idle {
      a := Wake(if id < s.Front() then id else s.Front());
    } else if s.stage == MakingRoom {
      if !s.fault && s.Queue()[0].batch.Some? {
        GroupExists(s.Queue(), 1);
        var n :| IsGroup(s.Queue(), n);
        a := RoomMade(true, n);
      } else {
        a := RoomMade(!s.fault, 1);
      }
    } else {
      match s.stage.progress
      case ToLog => a := Appended(true, true);
      case ToSync => a := Synced(true);
      case Inserting(i, _) => a := if i < |s.stage.ops| then Insert else Finish;
      case GivenUp(_, _) => a := Finish;
    }
  }

  function Signalled(ts: seq<Thread>): nat {
    if ts == [] then 0 else Signalled(ts[..|ts| - 1]) + if ts[|ts| - 1] == Waiting(true) then 1 else 0
  }

  lemma {:induction false} SignalledDrops(ts: seq<Thread>, i: nat, x: Thread)
    requires i < |ts| && ts[i] == Waiting(true) && x != Waiting(true)
    ensures Signalled(ts[i := x]) < Signalled(ts)
  {
    var n := |ts| - 1;
    if i < n {
      SignalledDrops(ts[..n], i, x);
      assert ts[i := x][..n] == ts[..n][i := x];
    } else {
      assert ts[i := x][..n] == ts[..n];
    }
  }

  function Phase(g: Stage): nat {
    if g == Idle then 2 else if g == MakingRoom then 1 else 0
  }

  function Left(g: Stage): int {
    if g.Writing? then
      match g.progress
      case ToLog => |g.ops| + 3
      case ToSync => |g.ops| + 2
      case Inserting(i, _) => |g.ops| + 1 - i
      case GivenUp(_, _) => 0
    else 0
  }

  /** Calls in the queue, then the phase of the front writer, then what it has left to do, then threads that
      have been signalled. */
  function Rank(s: State): (nat, nat, int, nat)
    requires |s.outcomes| <= |s.arrivals|
  {
    (|s.Queue()|, Phase(s.stage), Left(s.stage), Signalled(s.threads))
  }

  ghost predicate Lower(x: (nat, nat, int, nat), y: (nat, nat, int, nat)) {
    && x.2 >= 0
    && (x.0 < y.0 || (x.0 == y.0 && (x.1 < y.1 || (x.1 == y.1 && (x.2 < y.2 || (x.2 == y.2 && x.3 < y.3))))))
  }

  /** Every such step brings the queue nearer to empty: without new calls, every call returns. */
  lemma EveryStepCounts(s: State, a: Step)
    requires Inv(s) && Enabled(s, a) && Own(s, a)
    ensures |Next(s, a).outcomes| <= |Next(s, a).arrivals|
    ensures Lower(Rank(Next(s, a)), Rank(s))
  {
    if a.Wake? {
      SignalledDrops(s.threads, a.id, Next(s, a).threads[a.id]);
    } else if a.RoomMade? || a.Finish? {
      LeavingCounts(s, a);
    }
  }

  lemma LeavingCounts(s: State, a: Step)
    requires Inv(s) && Enabled(s, a) && Own(s, a) && (a.RoomMade? || a.Finish?)
    ensures |Next(s, a).outcomes| <= |Next(s, a).arrivals|
    ensures Lower(Rank(Next(s, a)), Rank(s))
  {
  }
}
