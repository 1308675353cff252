/** Iterating the keys visible at a sequence number, in both directions (db/db_iter). */
module DbIter {
  import opened Options
  import opened InternalKeys

  // ---- The cursor DBIter refines ----

  /** Entry `i` is what a reader at `s` sees for its user key, and it is not a tombstone. */
  ghost predicate Live(es: seq<Entry>, s: nat, i: int) {
    && 0 <= i < |es|
    && es[i].key.sequence <= s && es[i].key.kind == Value
    && forall j :: 0 <= j < i && es[j].key.user == es[i].key.user ==> es[j].key.sequence > s
  }

  ghost predicate NoLive(es: seq<Entry>, s: nat, lo: int, hi: int) {
    forall i :: lo <= i < hi ==> !Live(es, s, i)
  }

  /** The first live entry at or after `lo`, if any. */
  ghost predicate FirstLive(es: seq<Entry>, s: nat, lo: int, r: Option<nat>) {
    match r
    case Some(i) => lo <= i && Live(es, s, i) && NoLive(es, s, lo, i)
    case None => NoLive(es, s, lo, |es|)
  }

  /** The last live entry before `hi`, if any. */
  ghost predicate LastLive(es: seq<Entry>, s: nat, hi: int, r: Option<nat>) {
    match r
    case Some(i) => i < hi && Live(es, s, i) && NoLive(es, s, i + 1, hi)
    case None => NoLive(es, s, 0, hi)
  }

  lemma LiveIsNewest(es: seq<Entry>, s: nat, i: nat)
    requires Sorted(es) && UniqueSequences(Contents(es)) && Live(es, s, i)
    ensures NewestEntry(Contents(es), es[i].key.user, s) == Some(es[i])
  {
    var S := Contents(es);
    forall d | d in S && Candidate(d, es[i].key.user, s) ensures d.key.sequence <= es[i].key.sequence {
      var j :| 0 <= j < |es| && es[j] == d;
      assert i <= j;
      if i < j { assert Less(es[i].key, es[j].key); }
    }
    NewestDecides(S, es[i].key.user, s, Some(es[i]));
  }

  lemma NewestIsLive(es: seq<Entry>, s: nat, i: nat)
    requires Sorted(es) && UniqueSequences(Contents(es)) && i < |es| && es[i].key.kind == Value
    requires Newest(Contents(es), es[i].key.user, s, es[i])
    ensures Live(es, s, i)
  {
    forall j | 0 <= j < i && es[j].key.user == es[i].key.user ensures es[j].key.sequence > s {
      assert Less(es[j].key, es[i].key);
      assert es[j] in Contents(es) && es[i] in Contents(es);
      assert Candidate(es[j], es[i].key.user, s) <==> es[j].key.sequence <= s;
    }
  }

  /** The live entries are exactly the flat specification's answers. */
  lemma LiveIsRead(es: seq<Entry>, s: nat, u: UserKey, v: string)
    requires Sorted(es) && UniqueSequences(Contents(es))
    ensures Read(Contents(es), u, s) == Some(v)
            <==> exists i :: Live(es, s, i) && es[i].key.user == u && es[i].value == v
  {
    forall i | Live(es, s, i) && es[i].key.user == u ensures NewestEntry(Contents(es), u, s) == Some(es[i]) {
      LiveIsNewest(es, s, i);
    }
    NewestMeaning(Contents(es), u, s);
    if Read(Contents(es), u, s) == Some(v) {
      var e := NewestEntry(Contents(es), u, s).value;
      var i :| 0 <= i < |es| && es[i] == e;
      NewestIsLive(es, s, i);
    }
  }

  // ---- Scanning forward ----

  ghost predicate Past(bound: Option<UserKey>, e: Entry) {
    bound.Some? ==> e.key.user > bound.value
  }

  ghost predicate NoLivePast(es: seq<Entry>, s: nat, bound: Option<UserKey>, lo: int, hi: int)
    requires 0 <= lo && hi <= |es|
  {
    forall i :: lo <= i < hi && Live(es, s, i) ==> !Past(bound, es[i])
  }

  /** What the forward scan knows at position `p`: no entry passed since `start` is live and past `bound`;
      every visible entry already passed is for a smaller user key or one being skipped; and skipping hides
      nothing that should be shown. */
  ghost predicate Ahead(es: seq<Entry>, s: nat, bound: Option<UserKey>, start: nat, p: nat,
                        skipping: bool, skip: Option<UserKey>)
  {
    && start <= p <= |es|
    && (skipping ==> skip.Some? && (bound.Some? ==> bound.value <= skip.value))
    && (bound.Some? ==> skipping)
    && (forall j :: 0 <= j < p < |es| && es[j].key.sequence <= s ==>
          es[j].key.user < es[p].key.user || (skipping && es[j].key.user <= skip.value))
    && NoLivePast(es, s, bound, start, p)
    && (skipping ==> forall k :: p <= k < |es| && es[k].key.sequence <= s ==> skip.value <= es[k].key.user)
    && (skipping ==> forall k :: p <= k < |es| && Live(es, s, k) && es[k].key.user <= skip.value ==>
          !Past(bound, es[k]))
  }

  lemma StepInvisible(es: seq<Entry>, s: nat, bound: Option<UserKey>, start: nat, p: nat,
                      skipping: bool, skip: Option<UserKey>)
    requires Sorted(es) && Ahead(es, s, bound, start, p, skipping, skip) && p < |es|
    requires es[p].key.sequence > s || (skipping && es[p].key.user <= skip.value)
    ensures Ahead(es, s, bound, start, p + 1, skipping, skip)
  {
    if p + 1 < |es| { assert Less(es[p].key, es[p + 1].key); }
  }

  lemma StepDeletion(es: seq<Entry>, s: nat, bound: Option<UserKey>, start: nat, p: nat,
                     skipping: bool, skip: Option<UserKey>)
    requires Sorted(es) && Ahead(es, s, bound, start, p, skipping, skip) && p < |es|
    requires es[p].key.sequence <= s && es[p].key.kind == Deletion
    ensures Ahead(es, s, bound, start, p + 1, true, Some(es[p].key.user))
  {
    forall k | p < k < |es| ensures es[p].key.user <= es[k].key.user {
      assert Less(es[p].key, es[k].key);
    }
  }

  lemma StepFound(es: seq<Entry>, s: nat, bound: Option<UserKey>, start: nat, p: nat,
                  skipping: bool, skip: Option<UserKey>)
    requires Sorted(es) && Ahead(es, s, bound, start, p, skipping, skip) && p < |es|
    requires es[p].key.sequence <= s && es[p].key.kind == Value && !(skipping && es[p].key.user <= skip.value)
    ensures Live(es, s, p) && Past(bound, es[p])
  {}

  /** Where Next starts scanning from a live entry `c`, in either direction. */
  lemma StartPast(es: seq<Entry>, s: nat, c: nat, p: nat)
    requires Sorted(es) && Live(es, s, c) && p <= c
    requires forall j :: p <= j < c && es[j].key.user < es[c].key.user ==> es[j].key.sequence > s
    ensures Ahead(es, s, Some(es[c].key.user), p, p, true, Some(es[c].key.user))
  {
    UsersAscend(es);
  }

  lemma UsersAscend(es: seq<Entry>)
    requires Sorted(es)
    ensures forall j, k :: 0 <= j <= k < |es| ==> es[j].key.user <= es[k].key.user
  {
    forall j, k | 0 <= j <= k < |es| ensures es[j].key.user <= es[k].key.user {
      assert j < k ==> Less(es[j].key, es[k].key);
    }
  }

  lemma PastIsNext(es: seq<Entry>, s: nat, c: nat, start: nat, r: Option<nat>)
    requires Sorted(es) && Live(es, s, c) && start <= c
    requires match r
             case Some(i) => Live(es, s, i) && Past(Some(es[c].key.user), es[i])
                             && NoLivePast(es, s, Some(es[c].key.user), start, i)
             case None => NoLivePast(es, s, Some(es[c].key.user), start, |es|)
    ensures FirstLive(es, s, c + 1, r)
  {
    UsersAscend(es);
    forall x | c < x < |es| && Live(es, s, x) ensures Past(Some(es[c].key.user), es[x]) {}
  }

  /** The first live entry whose user key is at or after `target`. */
  ghost predicate FirstLiveFrom(es: seq<Entry>, s: nat, target: UserKey, r: Option<nat>) {
    match r
    case Some(i) => Live(es, s, i) && target <= es[i].key.user
                    && forall j :: 0 <= j < i && Live(es, s, j) ==> es[j].key.user < target
    case None => forall j :: 0 <= j < |es| && Live(es, s, j) ==> es[j].key.user < target
  }

  lemma SeekStart(es: seq<Entry>, s: nat, target: UserKey, p: nat)
    requires Sorted(es) && p == FirstAtOrAfter(es, LookupKey(target, s))
    ensures Ahead(es, s, None, p, p, false, None)
    ensures forall j :: 0 <= j < p && Live(es, s, j) ==> es[j].key.user < target
    ensures forall j :: p <= j < |es| ==> target <= es[j].key.user
  {
    UsersAscend(es);
  }

  // ---- Scanning backward ----

  /** What the backward scan from `p0` knows once it stands at `p`: the visible value met last, if it was
      one, and that nothing after it up to `p0` is live. */
  ghost predicate Back(es: seq<Entry>, s: nat, p0: int, p: int, m: Option<nat>) {
    && -1 <= p <= p0 < |es|
    && match m
       case None => NoLive(es, s, p + 1, p0 + 1)
       case Some(i) => && p < i <= p0 && es[i].key.sequence <= s && es[i].key.kind == Value
                       && (forall j :: p < j < i ==> es[j].key.sequence > s)
                       && NoLive(es, s, i + 1, p0 + 1)
  }

  lemma BackInvisible(es: seq<Entry>, s: nat, p0: int, p: int, m: Option<nat>)
    requires Back(es, s, p0, p, m) && 0 <= p && es[p].key.sequence > s
    ensures Back(es, s, p0, p - 1, m)
  {}

  lemma BackVisible(es: seq<Entry>, s: nat, p0: int, p: int, m: Option<nat>)
    requires Sorted(es) && Back(es, s, p0, p, m) && 0 <= p && es[p].key.sequence <= s
    requires m.Some? ==> es[m.value].key.user <= es[p].key.user
    ensures Back(es, s, p0, p - 1, if es[p].key.kind == Value then Some(p) else None)
  {
    UsersAscend(es);
  }

  lemma BackFound(es: seq<Entry>, s: nat, p0: int, p: int, m: nat)
    requires Sorted(es) && Back(es, s, p0, p, Some(m))
    requires 0 <= p ==> es[p].key.user < es[m].key.user
    ensures Live(es, s, m) && LastLive(es, s, p0 + 1, Some(m))
  {
    UsersAscend(es);
  }

  // ---- The internal iterator ----

  /** A cursor over a sorted run; any position outside the run is invalid. */
  class EntryIterator {
    const es: seq<Entry>
    var pos: int

    constructor (es: seq<Entry>)
      ensures this.es == es && !Valid()
    {
      this.es, pos := es, -1;
    }

    predicate Valid()
      reads this
    {
      0 <= pos < |es|
    }

    function Current(): Entry
      requires Valid()
      reads this
    {
      es[pos]
    }

    method SeekToFirst()
      modifies this`pos
      ensures pos == 0
    {
      pos := 0;
    }

    method SeekToLast()
      modifies this`pos
      ensures pos == |es| - 1
    {
      pos := |es| - 1;
    }

    method Seek(k: InternalKey)
      modifies this`pos
      ensures pos == FirstAtOrAfter(es, k)
    {
      pos := FirstAtOrAfter(es, k);
    }

    method Next()
      requires Valid()
      modifies this`pos
      ensures pos == old(pos) + 1
    {
      pos := pos + 1;
    }

    method Prev()
      requires Valid()
      modifies this`pos
      ensures pos == old(pos) - 1
    {
      pos := pos - 1;
    }
  }

  datatype Direction = Forward | Reverse

  class DBIter {
    const iter: EntryIterator
    const sequence: nat
    var direction: Direction
    var valid: bool
    var savedKey: Option<UserKey>
    var savedValue: string

    constructor (iter: EntryIterator, sequence: nat)
      requires Sorted(iter.es)
      ensures this.iter == iter && this.sequence == sequence
      ensures At(None)
    {
      this.iter, this.sequence := iter, sequence;
      direction, valid, savedKey, savedValue := Forward, false, None, "";
    }

    /** The iterator stands at the live entry `c`, or is not valid. */
    ghost predicate At(c: Option<nat>)
      reads this, iter
    {
      && Sorted(iter.es)
      && valid == c.Some?
      && (c.Some? ==> Live(iter.es, sequence, c.value) && if direction == Forward then iter.pos == c.value
                                                          else Behind(c.value))
    }

    /** Moving backwards: the entry is saved, and the internal iterator has passed every entry of its user
        key, and possibly some invisible entries before them. */
    ghost predicate Behind(c: nat)
      requires c < |iter.es|
      reads this, iter
    {
      var es := iter.es;
      && savedKey == Some(es[c].key.user) && savedValue == es[c].value
      && iter.pos < c && (iter.Valid() || iter.pos == -1)
      && (iter.Valid() ==> es[iter.pos].key.user < es[c].key.user)
      && forall j :: iter.pos < j < c && es[j].key.user < es[c].key.user ==> es[j].key.sequence > sequence
    }

    function Key(): UserKey
      requires valid && (direction == Forward ==> iter.Valid()) && (direction == Reverse ==> savedKey.Some?)
      reads this, iter
    {
      if direction == Forward then iter.Current().key.user else savedKey.value
    }

    function Val(): string
      requires valid && (direction == Forward ==> iter.Valid())
      reads this, iter
    {
      if direction == Forward then iter.Current().value else savedValue
    }

    /** What the iterator shows is what the abstract cursor shows. */
    lemma Shows(c: nat)
      requires At(Some(c))
      ensures Key() == iter.es[c].key.user && Val() == iter.es[c].value
    {}

    // ---- Forward ----

    /** Scan forward to the first live entry whose user key is past `savedKey` if `skipping`
        (db_iter.cc:168-198). */
    method FindNextUserEntry(skipping0: bool, ghost bound: Option<UserKey>) returns (ghost r: Option<nat>)
      requires Sorted(iter.es) && iter.Valid() && direction == Forward
      requires Ahead(iter.es, sequence, bound, iter.pos, iter.pos, skipping0, savedKey)
      modifies this`valid, this`savedKey, iter
      ensures At(r)
      ensures match r
              case Some(i) => old(iter.pos) <= i && Past(bound, iter.es[i])
                              && NoLivePast(iter.es, sequence, bound, old(iter.pos), i)
              case None => NoLivePast(iter.es, sequence, bound, old(iter.pos), |iter.es|)
    {
      var skipping := skipping0;
      ghost var start := iter.pos;
      while true
        invariant iter.Valid() && direction == Forward
        invariant Ahead(iter.es, sequence, bound, start, iter.pos, skipping, savedKey)
        decreases |iter.es| - iter.pos
      {
        var e := iter.Current();
        if e.key.sequence <= sequence {
          match e.key.kind {
            case Deletion =>
              StepDeletion(iter.es, sequence, bound, start, iter.pos, skipping, savedKey);
              savedKey := Some(e.key.user);
              skipping := true;
            case Value =>
              if skipping && e.key.user <= savedKey.value {
                StepInvisible(iter.es, sequence, bound, start, iter.pos, skipping, savedKey);
              } else {
                StepFound(iter.es, sequence, bound, start, iter.pos, skipping, savedKey);
                valid, savedKey := true, None;
                r := Some(iter.pos);
                return;
              }
          }
        } else {
          StepInvisible(iter.es, sequence, bound, start, iter.pos, skipping, savedKey);
        }
        iter.Next();
        if !iter.Valid() { break; }
      }
      savedKey, valid := None, false;
      r := None;
    }

    /** The next live entry, from either direction (db_iter.cc:141-166). */
    method Next(ghost c: nat) returns (ghost r: Option<nat>)
      requires At(Some(c))
      modifies this, iter
      ensures At(r) && FirstLive(iter.es, sequence, c + 1, r)
    {
      ghost var es, u := iter.es, iter.es[c].key.user;
      if direction == Reverse {
        direction := Forward;
        if !iter.Valid() { iter.SeekToFirst(); } else { iter.Next(); }
        // The current key's own entry still lies ahead, so the early return of db_iter.cc:154-158 is never taken.
        assert iter.Valid();
      } else {
        savedKey := Some(iter.Current().key.user);
      }
      ghost var start := iter.pos;
      StartPast(es, sequence, c, start);
      r := FindNextUserEntry(true, Some(u));
      PastIsNext(es, sequence, c, start, r);
    }

    method Seek(target: UserKey) returns (ghost r: Option<nat>)
      requires Sorted(iter.es)
      modifies this, iter
      ensures At(r) && FirstLiveFrom(iter.es, sequence, target, r)
    {
      direction, savedValue, savedKey := Forward, "", None;
      iter.Seek(LookupKey(target, sequence));
      SeekStart(iter.es, sequence, target, iter.pos);
      if iter.Valid() {
        r := FindNextUserEntry(false, None);
      } else {
        valid, r := false, None;
      }
    }

    method SeekToFirst() returns (ghost r: Option<nat>)
      requires Sorted(iter.es)
      modifies this, iter
      ensures At(r) && FirstLive(iter.es, sequence, 0, r)
    {
      direction, savedValue := Forward, "";
      iter.SeekToFirst();
      if iter.Valid() {
        r := FindNextUserEntry(false, None);
      } else {
        valid, r := false, None;
      }
    }

    // ---- Backward ----

    /** Scan backward to the last live entry not after the current position (db_iter.cc:227-267). */
    method FindPrevUserEntry() returns (ghost r: Option<nat>)
      requires Sorted(iter.es) && direction == Reverse && -1 <= iter.pos < |iter.es|
      modifies this, iter
      ensures At(r) && LastLive(iter.es, sequence, old(iter.pos) + 1, r)
    {
      ghost var es, p0 := iter.es, iter.pos;
      var valueType := Deletion;
      r := None;
      while iter.Valid()
        invariant direction == Reverse && Back(es, sequence, p0, iter.pos, r)
        invariant valueType == if r.Some? then Value else Deletion
        invariant r.Some? ==> savedKey == Some(es[r.value].key.user) && savedValue == es[r.value].value
        decreases iter.pos
      {
        var e := iter.Current();
        if e.key.sequence <= sequence {
          if valueType != Deletion && e.key.user < savedKey.value {
            break;
          }
          BackVisible(es, sequence, p0, iter.pos, r);
          valueType := e.key.kind;
          if valueType == Deletion {
            savedKey, savedValue := None, "";
            r := None;
          } else {
            savedKey, savedValue := Some(e.key.user), e.value;
            r := Some(iter.pos);
          }
        } else {
          BackInvisible(es, sequence, p0, iter.pos, r);
        }
        iter.Prev();
      }
      if valueType == Deletion {
        valid, savedKey, savedValue, direction := false, None, "", Forward;
      } else {
        BackFound(es, sequence, p0, iter.pos, r.value);
        valid := true;
      }
    }

    /** The previous live entry, from either direction (db_iter.cc:200-225). */
    method Prev(ghost c: nat) returns (ghost r: Option<nat>)
      requires At(Some(c))
      modifies this, iter
      ensures At(r) && LastLive(iter.es, sequence, c, r)
    {
      ghost var es := iter.es;
      UsersAscend(es);
      if direction == Forward {
        savedKey := Some(iter.Current().key.user);
        while true
          invariant iter.Valid() && iter.pos <= c && direction == Forward && savedKey == Some(es[c].key.user)
          invariant forall j :: iter.pos <= j < c ==> es[j].key.user == es[c].key.user
          decreases iter.pos
        {
          iter.Prev();
          if !iter.Valid() {
            valid, savedKey, savedValue := false, None, "";
            return None;
          }
          if iter.Current().key.user < savedKey.value { break; }
        }
        direction := Reverse;
      }
      r := FindPrevUserEntry();
    }

    method SeekToLast() returns (ghost r: Option<nat>)
      requires Sorted(iter.es)
      modifies this, iter
      ensures At(r) && LastLive(iter.es, sequence, |iter.es|, r)
    {
      direction, savedValue := Reverse, "";
      iter.SeekToLast();
      r := FindPrevUserEntry();
    }
  }

  // ---- Any sequence of moves ----

  datatype Move = First | Last | SeekTo(target: UserKey) | Forth | Backwards

  /** The abstract cursor's moves.  Next and Prev are only asked of a valid cursor; otherwise it stays. */
  ghost predicate Moves(es: seq<Entry>, s: nat, m: Move, c: Option<nat>, c': Option<nat>) {
    match m
    case First => FirstLive(es, s, 0, c')
    case Last => LastLive(es, s, |es|, c')
    case SeekTo(t) => FirstLiveFrom(es, s, t, c')
    case Forth => if c.Some? then FirstLive(es, s, c.value + 1, c') else c' == None
    case Backwards => if c.Some? then LastLive(es, s, c.value, c') else c' == None
  }

  ghost function Shown(es: seq<Entry>, c: Option<nat>): Option<(UserKey, string)> {
    if c.Some? && c.value < |es| then Some((es[c.value].key.user, es[c.value].value)) else None
  }

  method Step(it: DBIter, m: Move, ghost c: Option<nat>)
    returns (now: Option<(UserKey, string)>, ghost c': Option<nat>)
    requires it.At(c)
    modifies it, it.iter
    ensures it.At(c') && Moves(it.iter.es, it.sequence, m, c, c') && now == Shown(it.iter.es, c')
  {
    c' := c;
    match m {
      case First => c' := it.SeekToFirst();
      case Last => c' := it.SeekToLast();
      case SeekTo(t) => c' := it.Seek(t);
      case Forth => if it.valid { c' := it.Next(c.value); }
      case Backwards => if it.valid { c' := it.Prev(c.value); }
    }
    now := None;
    if it.valid {
      it.Shows(c'.value);
      now := Some((it.Key(), it.Val()));
    }
  }

  /** Whatever moves are made, with whatever changes of direction, key, value and validity are at every
      point those of the abstract cursor over the visible entries. */
  method Play(es: seq<Entry>, s: nat, moves: seq<Move>)
    returns (shown: seq<Option<(UserKey, string)>>, ghost cursor: seq<Option<nat>>)
    requires Sorted(es)
    ensures |shown| == |moves| && |cursor| == |moves| + 1 && cursor[0] == None
    ensures forall i :: 0 <= i < |moves| ==> Moves(es, s, moves[i], cursor[i], cursor[i + 1])
    ensures forall i :: 0 <= i < |moves| ==> shown[i] == Shown(es, cursor[i + 1])
  {
    var inner := new EntryIterator(es);
    var it := new DBIter(inner, s);
    ghost var c: Option<nat> := None;
    shown, cursor := [], [None];
    for i := 0 to |moves|
      invariant it.iter == inner && inner.es == es && it.sequence == s && fresh(it) && fresh(inner)
      invariant it.At(c) == true
      invariant |shown| == i && |cursor| == i + 1 && cursor[0] == None && cursor[i] == c
      invariant forall k :: 0 <= k < i ==> Moves(es, s, moves[k], cursor[k], cursor[k + 1])
      invariant forall k :: 0 <= k < i ==> shown[k] == Shown(es, cursor[k + 1])
    {
      var now;
      now, c := Step(it, moves[i], c);
      shown, cursor := shown + [now], cursor + [c];
    }
  }
}
