/** Internal keys and the multi-version map they describe (db/dbformat).

    A user key is only ever compared.  Byte strings are countable, and every total order on a
    countable set embeds in the reals, so results over `real` keys hold for any user comparator.
 */
module InternalKeys {
  import opened Options

  type UserKey = real

  datatype ValueType = Deletion | Value

  const MAX_SEQUENCE: nat := 0xff_ffff_ffff_ffff

  datatype InternalKey = InternalKey(user: UserKey, sequence: nat, kind: ValueType)

  datatype Entry = Entry(key: InternalKey, value: string)

  /** The packed trailer: 56 bits of sequence number above 8 bits of type. */
  function Tag(k: InternalKey): nat {
    k.sequence * 256 + if k.kind == Value then 1 else 0
  }

  /** Increasing user key, then decreasing trailer. */
  predicate Less(a: InternalKey, b: InternalKey) {
    a.user < b.user || (a.user == b.user && Tag(a) > Tag(b))
  }

  /** The key a reader seeks to: nothing newer than `s` for `u` sorts at or after it. */
  function LookupKey(u: UserKey, s: nat): InternalKey {
    InternalKey(u, s, Value)
  }

  ghost predicate Sorted(es: seq<Entry>) {
    forall i, j :: 0 <= i < j < |es| ==> Less(es[i].key, es[j].key)
  }

  // ---- The flat specification: a set of versions, read at a snapshot ----

  ghost predicate UniqueSequences(S: set<Entry>) {
    forall a, b :: a in S && b in S && a.key.sequence == b.key.sequence ==> a == b
  }

  predicate Candidate(e: Entry, u: UserKey, s: nat) {
    e.key.user == u && e.key.sequence <= s
  }

  /** `e` is the newest version of `u` in `S` that a reader at `s` may see. */
  ghost predicate Newest(S: set<Entry>, u: UserKey, s: nat, e: Entry) {
    && e in S && Candidate(e, u, s)
    && forall d :: d in S && Candidate(d, u, s) ==> d.key.sequence <= e.key.sequence
  }

  ghost function NewestEntry(S: set<Entry>, u: UserKey, s: nat): Option<Entry> {
    if exists e :: Newest(S, u, s, e) then
      var e :| Newest(S, u, s, e);
      Some(e)
    else None
  }

  /** What a read of `u` at snapshot `s` must return: a tombstone counts as absent. */
  ghost function Read(S: set<Entry>, u: UserKey, s: nat): Option<string> {
    ReadOf(NewestEntry(S, u, s))
  }

  function ReadOf(e: Option<Entry>): Option<string> {
    if e.Some? && e.value.key.kind == Value then Some(e.value.value) else None
  }

  lemma {:induction false} NewestExists(S: set<Entry>, u: UserKey, s: nat)
    requires exists c :: c in S && Candidate(c, u, s)
    ensures exists e :: Newest(S, u, s, e)
    decreases |S|
  {
    var c :| c in S && Candidate(c, u, s);
    var T := S - {c};
    if exists d :: d in T && Candidate(d, u, s) {
      NewestExists(T, u, s);
      var e :| Newest(T, u, s, e);
      assert Newest(S, u, s, if e.key.sequence < c.key.sequence then c else e);
    } else {
      assert Newest(S, u, s, c);
    }
  }

  /** With unique sequence numbers a read is decided by any newest candidate, or by there being none. */
  lemma NewestDecides(S: set<Entry>, u: UserKey, s: nat, r: Option<Entry>)
    requires UniqueSequences(S)
    requires r.Some? ==> Newest(S, u, s, r.value)
    requires r.None? ==> forall d :: d in S ==> !Candidate(d, u, s)
    ensures NewestEntry(S, u, s) == r
  {
    if r.Some? {
      assert forall e :: Newest(S, u, s, e) ==> e == r.value;
    }
  }

  /** The converse: what the newest entry of a read says about the set. */
  lemma NewestMeaning(S: set<Entry>, u: UserKey, s: nat)
    ensures match NewestEntry(S, u, s)
            case Some(e) => Newest(S, u, s, e)
            case None => forall d :: d in S ==> !Candidate(d, u, s)
  {
    if exists c :: c in S && Candidate(c, u, s) {
      NewestExists(S, u, s);
    }
  }

  // ---- Sorted runs (a memtable, or the contents of one table file) ----

  /** Index of the first entry at or after `k`. */
  function FirstAtOrAfter(es: seq<Entry>, k: InternalKey): (i: nat)
    ensures i <= |es|
    ensures forall j :: 0 <= j < i ==> Less(es[j].key, k)
    ensures i < |es| ==> !Less(es[i].key, k)
  {
    if es == [] || !Less(es[0].key, k) then 0
    else 1 + FirstAtOrAfter(es[1..], k)
  }

  /** A point lookup in one sorted run: seek to the lookup key, then compare user keys
      (memtable.cc:100-134; table.cc:216-233 with version_set.cc:263-276). */
  function RunGet(es: seq<Entry>, u: UserKey, s: nat): Option<Entry> {
    var i := FirstAtOrAfter(es, LookupKey(u, s));
    if i < |es| && es[i].key.user == u then Some(es[i]) else None
  }

  function Contents(es: seq<Entry>): set<Entry> {
    set e | e in es
  }

  /** Seeking to (u, s) in a sorted run finds exactly the newest version visible at `s`. */
  lemma RunGetIsNewest(es: seq<Entry>, u: UserKey, s: nat)
    requires Sorted(es)
    ensures match RunGet(es, u, s)
            case Some(e) => Newest(Contents(es), u, s, e)
            case None => forall d :: d in es ==> !Candidate(d, u, s)
  {
    var i := FirstAtOrAfter(es, LookupKey(u, s));
    forall d | d in es && Candidate(d, u, s)
      ensures i < |es| && es[i].key.user == u && d.key.sequence <= es[i].key.sequence
    {
      var j :| 0 <= j < |es| && es[j] == d;
      assert i <= j;
      assert i < j ==> Less(es[i].key, es[j].key);
    }
  }

  /** The place a new key takes in a sorted run (the skip list's insertion point). */
  function Insert(es: seq<Entry>, e: Entry): (r: seq<Entry>) {
    var i := FirstAtOrAfter(es, e.key);
    es[..i] + [e] + es[i..]
  }

  lemma InsertContents(es: seq<Entry>, e: Entry)
    ensures Contents(Insert(es, e)) == Contents(es) + {e}
  {
    var i := FirstAtOrAfter(es, e.key);
    assert es == es[..i] + es[i..];
    forall d ensures d in Insert(es, e) <==> d in es || d == e {
      assert d in es <==> d in es[..i] || d in es[i..];
    }
  }

  lemma InsertKeepsSorted(es: seq<Entry>, e: Entry)
    requires Sorted(es)
    requires forall d :: d in es ==> Less(d.key, e.key) || Less(e.key, d.key)
    ensures Sorted(Insert(es, e))
  {
    var i := FirstAtOrAfter(es, e.key);
    forall j | i <= j < |es| ensures Less(e.key, es[j].key) {
      assert i < j ==> Less(es[i].key, es[j].key);
      assert es[j] in es;
    }
    var r := Insert(es, e);
    forall a, b | 0 <= a < b < |r| ensures Less(r[a].key, r[b].key) {
      assert r[a] == if a < i then es[a] else if a == i then e else es[a - 1];
      assert r[b] == if b < i then es[b] else if b == i then e else es[b - 1];
    }
  }
}
