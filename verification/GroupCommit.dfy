/** Writers queue up, and the one at the front commits for a group (db/db_impl, Write and BuildBatchGroup).

    The protocol is a state machine.  One step is what a thread does without giving up the mutex, or one
    log append, one sync or one memtable insertion of the front writer, which holds no lock meanwhile.
 */
module GroupCommit {
  import opened Options
  import opened WriteBatches

  // ---- Grouping ----

  /** A call of Write: its updates, or none, whether it must be synced, and the size of its batch. */
  datatype Request = Request(batch: Option<seq<Op>>, sync: bool, bytes: nat)

  function OpsOf(r: Request): seq<Op> {
    if r.batch.Some? then r.batch.value else []
  }

  function Joined(rs: seq<Request>): seq<Op> {
    if rs == [] then [] else Joined(rs[..|rs| - 1]) + OpsOf(rs[|rs| - 1])
  }

  function Total(rs: seq<Request>): nat {
    if rs == [] then 0
    else Total(rs[..|rs| - 1]) + if rs[|rs| - 1].batch.Some? then rs[|rs| - 1].bytes else 0
  }

  /** How large a group may grow that starts with a batch of `bytes`. */
  function Limit(bytes: nat): nat {
    if bytes <= 0x2_0000 then bytes + 0x2_0000 else 0x10_0000
  }

  /** May request `i` join the group of all before it? */
  predicate Joins(rs: seq<Request>, i: nat)
    requires i < |rs|
  {
    && !(rs[i].sync && !rs[0].sync)
    && (rs[i].batch.Some? ==> Total(rs[..i]) + rs[i].bytes <= Limit(rs[0].bytes))
  }

  ghost predicate AllJoin(rs: seq<Request>, n: nat) {
    1 <= n <= |rs| && rs[0].batch.Some? && forall i :: 1 <= i < n ==> Joins(rs, i)
  }

  /** The first `n` requests are the group: every one may join, and the next may not. */
  ghost predicate IsGroup(rs: seq<Request>, n: nat) {
    AllJoin(rs, n) && (n < |rs| ==> !Joins(rs, n))
  }

  lemma NoLargerGroup(rs: seq<Request>, m: nat, n: nat)
    requires IsGroup(rs, m) && m < n
    ensures !AllJoin(rs, n)
  {
    if n <= |rs| { assert !Joins(rs, m); }
  }

  lemma GroupUnique(rs: seq<Request>, m: nat, n: nat)
    requires IsGroup(rs, m) && IsGroup(rs, n)
    ensures m == n
  {
    if m < n { NoLargerGroup(rs, m, n); }
    if n < m { NoLargerGroup(rs, n, m); }
  }

  lemma {:induction false} GroupExists(rs: seq<Request>, n: nat)
    requires AllJoin(rs, n)
    ensures exists m :: IsGroup(rs, m)
    decreases |rs| - n
  {
    if n < |rs| && Joins(rs, n) {
      GroupExists(rs, n + 1);
    } else {
      assert IsGroup(rs, n);
    }
  }

  /** What grouping promises: no sync write rides with a non-sync leader, and more than the leader's own
      batch is written together only up to a megabyte, and behind a small one only 128 kilobytes. */
  lemma {:induction false} GroupKeepsRules(rs: seq<Request>, n: nat)
    requires AllJoin(rs, n)
    ensures !rs[0].sync ==> forall i :: 0 <= i < n ==> !rs[i].sync
    ensures Total(rs[..n]) == rs[0].bytes || Total(rs[..n]) <= 0x10_0000
    ensures rs[0].bytes <= 0x2_0000 ==> Total(rs[..n]) <= rs[0].bytes + 0x2_0000
    decreases n
  {
    assert rs[..n][..n - 1] == rs[..n - 1];
    if n == 1 {
      assert Total(rs[..0]) == 0;
    } else {
      GroupKeepsRules(rs, n - 1);
      assert Joins(rs, n - 1);
    }
  }

  /** A queued call with its batch. */
  class Writer {
    const batch: WriteBatch?
    const sync: bool

    constructor (batch: WriteBatch?, sync: bool)
      ensures this.batch == batch && this.sync == sync
    {
      this.batch, this.sync := batch, sync;
    }
  }

  ghost function RequestOf(w: Writer): Request
    reads w.batch
  {
    if w.batch == null then Request(None, w.sync, 0) else Request(Some(w.batch.ops), w.sync, w.batch.ByteSize())
  }

  /** Every batch queued is one of `batches`. */
  ghost predicate Own(ws: seq<Writer>, batches: set<WriteBatch>) {
    forall i :: 0 <= i < |ws| && ws[i].batch != null ==> ws[i].batch in batches
  }

  /** `rs` are the requests of the queued writers. */
  ghost predicate Describe(rs: seq<Request>, ws: seq<Writer>, batches: set<WriteBatch>)
    requires Own(ws, batches)
    reads batches
  {
    |rs| == |ws| && forall i :: 0 <= i < |ws| ==> rs[i] == RequestOf(ws[i])
  }

  ghost predicate AllValid(batches: set<WriteBatch>)
    reads batches
  {
    forall b :: b in batches ==> b.Valid()
  }

  /** Does the group hold a second batch? */
  ghost predicate Several(rs: seq<Request>, n: nat) {
    1 < n <= |rs| && (rs[n - 1].batch.Some? || Several(rs, n - 1))
  }

  /** Add `next` to what has been joined so far: in `tmp`, so as not to disturb the first caller's batch. */
  method Join(result: WriteBatch, first: WriteBatch, tmp: WriteBatch, next: WriteBatch) returns (r: WriteBatch)
    requires result == tmp || (result == first && tmp.ops == [])
    requires first != tmp && next != tmp && first.Valid() && tmp.Valid() && next.Valid()
    modifies tmp
    ensures r == tmp && r.Valid() && r.ops == old(result.ops) + next.ops
  {
    r := result;
    if r == first {
      r := tmp;
      r.Append(first);
      assert r.ops == first.ops;
    }
    r.Append(next);
  }

  /** May the batch of `w` join?  Then it is added. */
  method Consider(w: Writer, sync: bool, result: WriteBatch, first: WriteBatch, tmp: WriteBatch, size: nat, maxSize: nat)
    returns (joins: bool, r: WriteBatch, total: nat)
    requires result == tmp || (result == first && tmp.ops == [])
    requires first != tmp && w.batch != tmp && first.Valid() && tmp.Valid() && (w.batch != null ==> w.batch.Valid())
    modifies tmp
    ensures tmp.Valid() && (r == first ==> tmp.ops == old(tmp.ops))
    ensures joins <==> !(w.sync && !sync) && (w.batch != null ==> size + w.batch.ByteSize() <= maxSize)
    ensures joins ==> r.ops == old(result.ops) + OpsOf(RequestOf(w))
    ensures joins ==> total == size + if w.batch != null then w.batch.ByteSize() else 0
    ensures r == if joins && w.batch != null then tmp else result
    ensures !joins ==> r.ops == old(result.ops) && total == size
  {
    joins, r, total := false, result, size;
    if w.sync && !sync {
      return;
    }
    if w.batch != null {
      if size + w.batch.ByteSize() > maxSize {
        return;
      }
      total := size + w.batch.ByteSize();
      r := Join(result, first, tmp, w.batch);
    }
    joins := true;
  }

  /** Join the batches at the front of the queue, in `tmp` when there is more than one
      (db_impl.cc:1262-1306); no caller's batch is disturbed. */
  method BuildBatchGroup(writers: seq<Writer>, tmp: WriteBatch, ghost rs: seq<Request>, ghost batches: set<WriteBatch>)
    returns (result: WriteBatch, n: nat)
    requires Own(writers, batches) && AllValid(batches) && Describe(rs, writers, batches)
    requires writers != [] && writers[0].batch != null
    requires tmp.Valid() && tmp.ops == [] && tmp !in batches
    modifies tmp
    ensures result.Valid() == true
    ensures IsGroup(rs, n) == true && result.ops == Joined(rs[..n])
    ensures result == if Several(rs, n) then tmp else writers[0].batch
  {
    var first := writers[0].batch;
    result := first;
    var size := first.ByteSize();
    var maxSize := 0x10_0000;
    if size <= 0x2_0000 {
      maxSize := size + 0x2_0000;
    }
    n := 1;
    JoinedOne(rs);
    while n < |writers|
      invariant 1 <= n <= |writers| && Grouping(rs, n, result.ops, size) == true && tmp.Valid() == true
      invariant if Several(rs, n) then result == tmp else result == first && tmp.ops == []
    {
      var w := writers[n];
      var joins;
      ghost var ops, total := result.ops, size;
      joins, result, size := Consider(w, writers[0].sync, result, first, tmp, size, maxSize);
      GroupStep(rs, n, ops, total);
      if !joins {
        break;
      }
      n := n + 1;
    }
  }

  /** The first `n` requests may join; these are their updates and their size. */
  ghost predicate Grouping(rs: seq<Request>, n: nat, ops: seq<Op>, size: nat) {
    AllJoin(rs, n) && ops == Joined(rs[..n]) && size == Total(rs[..n])
  }

  /** One request more, or the end of the group. */
  lemma GroupStep(rs: seq<Request>, n: nat, ops: seq<Op>, size: nat)
    requires Grouping(rs, n, ops, size) && n < |rs|
    ensures ops == Joined(rs[..n]) && size == Total(rs[..n])
    ensures Joins(rs, n) <==> !(rs[n].sync && !rs[0].sync) && (rs[n].batch.Some? ==> size + rs[n].bytes <= Limit(rs[0].bytes))
    ensures if Joins(rs, n) then Grouping(rs, n + 1, ops + OpsOf(rs[n]), size + if rs[n].batch.Some? then rs[n].bytes else 0)
            else IsGroup(rs, n)
    ensures Several(rs, n + 1) <==> Several(rs, n) || rs[n].batch.Some?
  {
    JoinedStep(rs, n);
  }

  lemma JoinedOne(rs: seq<Request>)
    requires rs != [] && rs[0].batch.Some?
    ensures Grouping(rs, 1, OpsOf(rs[0]), rs[0].bytes)
  {
    assert rs[..1][..0] == [];
    assert Joined(rs[..1][..0]) == [] && Total(rs[..1][..0]) == 0;
  }

  lemma JoinedStep(rs: seq<Request>, n: nat)
    requires n < |rs|
    ensures Joined(rs[..n + 1]) == Joined(rs[..n]) + OpsOf(rs[n])
    ensures Total(rs[..n + 1]) == Total(rs[..n]) + if rs[n].batch.Some? then rs[n].bytes else 0
  {
    assert rs[..n + 1][..n] == rs[..n];
  }
}
