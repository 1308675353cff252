/** One shard of the cache (util/cache.cc:150-333).

    A handle is an index; its fields that the hash table does not touch are the sequences of class LRUCache.
    The heads of the LRU list and of the in-use list are handles too.  The caller's references are counted
    beside the handles: a caller may release only what it holds.
 */
module LruCaches {
  import opened HandleTables

  const LRU := 0
  const IN_USE := 1

  // ---- Circular lists ----

  /** `items`, walked from `head`, one after the other and back to it. */
  function Around(head: nat, items: seq<nat>): seq<nat> {
    [head] + items + [head]
  }

  ghost predicate Ring(next: seq<nat>, prev: seq<nat>, head: nat, items: seq<nat>) {
    var round := Around(head, items);
    && (forall i :: 0 <= i < |round| ==> round[i] < |next| == |prev|)
    && (forall i, j :: 0 <= i < j < |round| - 1 ==> round[i] != round[j])
    && (forall i :: 0 <= i < |round| - 1 ==> next[round[i]] == round[i + 1] && prev[round[i + 1]] == round[i])
  }

  /** LRU_Append: link `e` in before the head (cache.cc:244-250). */
  function AppendNext(next: seq<nat>, prev: seq<nat>, head: nat, e: nat): seq<nat>
    requires head < |prev| && e < |next| && prev[head] < |next|
  {
    next[e := head][prev[head] := e]
  }

  function AppendPrev(prev: seq<nat>, head: nat, e: nat): seq<nat>
    requires head < |prev| && e < |prev|
  {
    prev[e := prev[head]][head := e]
  }

  lemma AppendRing(next: seq<nat>, prev: seq<nat>, head: nat, items: seq<nat>, e: nat)
    requires Ring(next, prev, head, items) && e < |next| && e != head && e !in items
    ensures head < |prev| && e < |prev| && prev[head] < |next|
    ensures Ring(AppendNext(next, prev, head, e), AppendPrev(prev, head, e), head, items + [e])
  {
    var round := Around(head, items);
    var n := |items|;
    assert round[n + 1] == head && prev[round[n + 1]] == round[n];
    assert forall i :: 0 < i <= n ==> round[i] == items[i - 1];
    var round' := Around(head, items + [e]);
    assert forall i :: 0 <= i <= n ==> round'[i] == round[i];
    assert round'[n + 1] == e && round'[n + 2] == head;
    var next', prev' := AppendNext(next, prev, head, e), AppendPrev(prev, head, e);
    forall i | 0 <= i < |round'| - 1 ensures next'[round'[i]] == round'[i + 1] && prev'[round'[i + 1]] == round'[i] {
      if i < n {
        assert round[i] != round[n] && next[round[i]] == round[i + 1];
        assert round[i + 1] != head && round[i + 1] != e;
      }
    }
  }

  /** LRU_Remove (cache.cc:239-242). */
  function RemoveNext(next: seq<nat>, prev: seq<nat>, e: nat): seq<nat>
    requires e < |prev| && e < |next| && prev[e] < |next|
  {
    next[prev[e] := next[e]]
  }

  function RemovePrev(next: seq<nat>, prev: seq<nat>, e: nat): seq<nat>
    requires e < |next| && e < |prev| && next[e] < |prev|
  {
    prev[next[e] := prev[e]]
  }

  function Dropped(items: seq<nat>, k: nat): seq<nat>
    requires k < |items|
  {
    items[..k] + items[k + 1..]
  }

  lemma RemoveRing(next: seq<nat>, prev: seq<nat>, head: nat, items: seq<nat>, k: nat)
    requires Ring(next, prev, head, items) && k < |items|
    ensures var e := items[k];
            && e < |next| && e < |prev| && prev[e] < |next| && next[e] < |prev|
            && Ring(RemoveNext(next, prev, e), RemovePrev(next, prev, e), head, Dropped(items, k))
  {
    var round, e := Around(head, items), items[k];
    assert round[k + 1] == e && next[round[k + 1]] == round[k + 2] && prev[round[k + 1]] == round[k];
    assert next[round[k]] == round[k + 1] && prev[round[k + 2]] == round[k + 1];
    var round' := Around(head, Dropped(items, k));
    assert forall i :: 0 <= i <= k ==> round'[i] == round[i];
    assert forall i :: k < i < |round'| ==> round'[i] == round[i + 1];
  }

  /** A list none of whose links is stored to. */
  lemma OtherRing(next: seq<nat>, prev: seq<nat>, head: nat, items: seq<nat>, next': seq<nat>, prev': seq<nat>)
    requires Ring(next, prev, head, items) && |next| <= |next'| == |prev'|
    requires forall n :: (n == head || n in items) && n < |next| && n < |prev| ==> next'[n] == next[n] && prev'[n] == prev[n]
    ensures Ring(next', prev', head, items)
  {
    var round := Around(head, items);
    assert forall i :: 0 <= i < |round| ==> round[i] == head || round[i] in items;
  }

  /** The neighbours of a list's item are on the list. */
  lemma Neighbours(next: seq<nat>, prev: seq<nat>, head: nat, items: seq<nat>, k: nat)
    requires Ring(next, prev, head, items) && k < |items|
    ensures |next| == |prev|
    ensures items[k] < |next| && (next[items[k]] == head || next[items[k]] in items)
    ensures items[k] < |prev| && (prev[items[k]] == head || prev[items[k]] in items)
  {
    var round := Around(head, items);
    assert round[k + 1] == items[k] && next[round[k + 1]] == round[k + 2] && prev[round[k + 1]] == round[k];
    assert round[k] == if k == 0 then head else items[k - 1];
    assert round[k + 2] == if k + 1 == |items| then head else items[k + 1];
  }

  lemma HeadNeighbours(next: seq<nat>, prev: seq<nat>, head: nat, items: seq<nat>)
    requires Ring(next, prev, head, items)
    ensures |next| == |prev|
    ensures head < |next| && next[head] == if items == [] then head else items[0]
    ensures head < |prev| && prev[head] == if items == [] then head else items[|items| - 1]
  {
    var round := Around(head, items);
    assert next[round[0]] == round[1] && prev[round[|items| + 1]] == round[|items|];
  }

  // ---- Charges ----

  /** The charges of the handles below `n` that are in the cache. */
  function Sum(inCache: seq<bool>, charge: seq<nat>, n: nat): nat
    requires n <= |inCache| == |charge|
  {
    if n == 0 then 0 else Sum(inCache, charge, n - 1) + if inCache[n - 1] then charge[n - 1] else 0
  }

  lemma {:induction false} SumChange(inCache: seq<bool>, charge: seq<nat>, n: nat, e: nat)
    requires e < n <= |inCache| == |charge| && inCache[e]
    ensures Sum(inCache, charge, n) == Sum(inCache[e := false], charge, n) + charge[e]
  {
    if e == n - 1 {
      SumSame(inCache, charge, inCache[e := false], charge, n - 1);
    } else {
      SumChange(inCache, charge, n - 1, e);
    }
  }

  lemma {:induction false} SumSame(inCache: seq<bool>, charge: seq<nat>, inCache': seq<bool>, charge': seq<nat>, n: nat)
    requires n <= |inCache| == |charge| && n <= |inCache'| == |charge'|
    requires forall i :: 0 <= i < n ==> inCache'[i] == inCache[i] && charge'[i] == charge[i]
    ensures Sum(inCache', charge', n) == Sum(inCache, charge, n)
  {
    if n > 0 { SumSame(inCache, charge, inCache', charge', n - 1); }
  }

  // ---- The cache ----

  /** Everything but the hash table.  `lru` and `inUse` are the two lists, oldest first; `clients` counts the
      references callers hold; `deleted` lists the deleter calls. */
  datatype State = State(
    usage: nat,
    next: seq<nat>,
    prev: seq<nat>,
    inCache: seq<bool>,
    refs: seq<nat>,
    charge: seq<nat>,
    clients: seq<nat>,
    deleted: seq<nat>,
    lru: seq<nat>,
    inUse: seq<nat>)

  predicate SameSizes(s: State) {
    && |s.prev| == |s.next| >= 2 && |s.inCache| == |s.next| && |s.refs| == |s.next| && |s.charge| == |s.next|
    && |s.clients| == |s.next|
  }

  predicate Handle(s: State, e: nat) {
    IN_USE < e < |s.next|
  }

  /** A handle's references are the callers' and the cache's own; the list it is on tells how many. */
  ghost predicate Counted(s: State)
    requires SameSizes(s)
  {
    && (forall e: nat {:trigger Handle(s, e)} :: Handle(s, e) ==> s.refs[e] == s.clients[e] + if s.inCache[e] then 1 else 0)
    && (forall e: nat :: e in s.lru ==> Handle(s, e))
    && (forall e: nat :: e in s.inUse ==> Handle(s, e))
    && (forall e: nat {:trigger Handle(s, e)} :: Handle(s, e) ==> (e in s.lru <==> s.inCache[e] && s.refs[e] == 1))
    && (forall e: nat {:trigger Handle(s, e)} :: Handle(s, e) ==> (e in s.inUse <==> s.inCache[e] && s.refs[e] >= 2))
    && !s.inCache[LRU] && !s.inCache[IN_USE]
  }

  /** The deleter has run once for every handle without references, and for no other. */
  ghost predicate DeletedOnce(s: State)
    requires SameSizes(s)
  {
    && (forall e: nat {:trigger Handle(s, e)} :: Handle(s, e) ==> (e in s.deleted <==> s.refs[e] == 0))
    && (forall e: nat :: e in s.deleted ==> Handle(s, e))
    && (forall i, j :: 0 <= i < j < |s.deleted| ==> s.deleted[i] != s.deleted[j])
  }

  ghost predicate Ok(s: State) {
    && SameSizes(s)
    && Ring(s.next, s.prev, LRU, s.lru) == true && Ring(s.next, s.prev, IN_USE, s.inUse) == true
    && Counted(s) == true && DeletedOnce(s) == true
    && s.usage == Sum(s.inCache, s.charge, |s.next|)
  }

  // ---- Links ----

  function IndexOf(items: seq<nat>, e: nat): (k: nat)
    requires e in items
    ensures k < |items| && items[k] == e
  {
    if items[0] == e then 0 else 1 + IndexOf(items[1..], e)
  }

  function Minus(items: seq<nat>, e: nat): seq<nat>
    requires e in items
  {
    Dropped(items, IndexOf(items, e))
  }

  ghost predicate Apart(head: nat, items: seq<nat>, other: nat, others: seq<nat>) {
    && head != other && head !in others && other !in items
    && forall n :: n in items ==> n !in others
  }

  lemma UnlinkRings(next: seq<nat>, prev: seq<nat>, head: nat, items: seq<nat>, other: nat, others: seq<nat>, e: nat)
    requires Ring(next, prev, head, items) && Ring(next, prev, other, others) && Apart(head, items, other, others)
    requires e in items
    ensures e < |next| && e < |prev| && prev[e] < |next| && next[e] < |prev|
    ensures Ring(RemoveNext(next, prev, e), RemovePrev(next, prev, e), head, Minus(items, e))
    ensures Ring(RemoveNext(next, prev, e), RemovePrev(next, prev, e), other, others)
  {
    var k := IndexOf(items, e);
    RemoveRing(next, prev, head, items, k);
    Neighbours(next, prev, head, items, k);
    OtherRing(next, prev, other, others, RemoveNext(next, prev, e), RemovePrev(next, prev, e));
  }

  lemma LinkRings(next: seq<nat>, prev: seq<nat>, head: nat, items: seq<nat>, other: nat, others: seq<nat>, e: nat)
    requires Ring(next, prev, head, items) && Ring(next, prev, other, others) && Apart(head, items, other, others)
    requires e < |next| && e != head && e != other && e !in items && e !in others
    ensures head < |prev| && e < |prev| && prev[head] < |next|
    ensures Ring(AppendNext(next, prev, head, e), AppendPrev(prev, head, e), head, items + [e])
    ensures Ring(AppendNext(next, prev, head, e), AppendPrev(prev, head, e), other, others)
  {
    AppendRing(next, prev, head, items, e);
    HeadNeighbours(next, prev, head, items);
    OtherRing(next, prev, other, others, AppendNext(next, prev, head, e), AppendPrev(prev, head, e));
  }

  lemma MinusItems(items: seq<nat>, e: nat)
    requires e in items && forall i, j :: 0 <= i < j < |items| ==> items[i] != items[j]
    ensures forall n :: n in Minus(items, e) <==> n in items && n != e
  {
    var k, r := IndexOf(items, e), Minus(items, e);
    forall n | n in items && n != e ensures n in r {
      var j :| 0 <= j < |items| && items[j] == n;
      assert r[if j < k then j else j - 1] == n;
    }
  }

  lemma RingDistinct(next: seq<nat>, prev: seq<nat>, head: nat, items: seq<nat>)
    requires Ring(next, prev, head, items)
    ensures head !in items && forall i, j :: 0 <= i < j < |items| ==> items[i] != items[j]
  {
    var round := Around(head, items);
    assert forall i :: 0 <= i < |items| ==> items[i] == round[i + 1];
    forall i | 0 <= i < |items| ensures items[i] != head {
      assert round[0] != round[i + 1];
    }
  }

  lemma ListsApart(s: State)
    requires Ok(s)
    ensures Apart(LRU, s.lru, IN_USE, s.inUse) && Apart(IN_USE, s.inUse, LRU, s.lru)
  {
    assert forall n :: n in s.lru ==> Handle(s, n) && s.refs[n] == 1;
    assert forall n :: n in s.inUse ==> Handle(s, n) && s.refs[n] >= 2;
    RingDistinct(s.next, s.prev, LRU, s.lru);
    RingDistinct(s.next, s.prev, IN_USE, s.inUse);
    assert !Handle(s, LRU) && !Handle(s, IN_USE);
    assert forall n :: n in s.lru ==> n !in s.inUse;
    assert LRU !in s.inUse && IN_USE !in s.lru;
  }

  // ---- What the operations do to the lists and counts ----

  /** Move a handle from the LRU list to the in-use list, or back. */
  function Moved(s: State, from: nat, to: nat, e: nat): State
    requires e < |s.prev| && e < |s.next| && s.prev[e] < |s.next| && s.next[e] < |s.prev|
    requires to < |s.prev| && from != to && RemovePrev(s.next, s.prev, e)[to] < |s.next|
    requires if from == LRU then e in s.lru else e in s.inUse
  {
    var next, prev := RemoveNext(s.next, s.prev, e), RemovePrev(s.next, s.prev, e);
    s.(next := AppendNext(next, prev, to, e), prev := AppendPrev(prev, to, e),
       lru := if from == LRU then Minus(s.lru, e) else s.lru + [e],
       inUse := if from == LRU then s.inUse + [e] else Minus(s.inUse, e))
  }

  lemma MovedRings(s: State, from: nat, to: nat, e: nat)
    requires Ok(s) && ((from == LRU && to == IN_USE && e in s.lru) || (from == IN_USE && to == LRU && e in s.inUse))
    ensures e < |s.next| && s.prev[e] < |s.next| && s.next[e] < |s.prev| && RemovePrev(s.next, s.prev, e)[to] < |s.next|
    ensures var t := Moved(s, from, to, e);
            && SameSizes(t) && |t.next| == |s.next|
            && Ring(t.next, t.prev, LRU, t.lru) && Ring(t.next, t.prev, IN_USE, t.inUse)
            && (forall n :: n in t.lru <==> if n == e then to == LRU else n in s.lru)
            && (forall n :: n in t.inUse <==> if n == e then to == IN_USE else n in s.inUse)
  {
    ListsApart(s);
    assert Handle(s, e);
    var items, others := if from == LRU then s.lru else s.inUse, if from == LRU then s.inUse else s.lru;
    RingDistinct(s.next, s.prev, from, items);
    MinusItems(items, e);
    UnlinkRings(s.next, s.prev, from, items, to, others, e);
    var next, prev := RemoveNext(s.next, s.prev, e), RemovePrev(s.next, s.prev, e);
    LinkRings(next, prev, to, others, from, Minus(items, e), e);
  }

  /** Ref: one more reference for a caller (cache.cc:217-223). */
  function Reffed(s: State, e: nat): State
    requires Ok(s) && Handle(s, e)
  {
    var t := if s.refs[e] == 1 && s.inCache[e] then (MovedRings(s, LRU, IN_USE, e); Moved(s, LRU, IN_USE, e)) else s;
    t.(refs := s.refs[e := s.refs[e] + 1], clients := s.clients[e := s.clients[e] + 1])
  }

  /** A caller has one reference more: an entry that was idle is in use now, and nothing else has changed. */
  ghost predicate Taken(s: State, t: State, e: nat) {
    && SameSizes(s) && SameSizes(t) && |t.next| == |s.next| && Handle(s, e)
    && t.refs == s.refs[e := s.refs[e] + 1] && t.clients == s.clients[e := s.clients[e] + 1]
    && t.lru == (if e in s.lru then Minus(s.lru, e) else s.lru) && e !in t.lru
    && t.inUse == (if e in s.lru then s.inUse + [e] else s.inUse) && (s.inCache[e] ==> e in t.inUse)
    && t.inCache == s.inCache && t.charge == s.charge && t.usage == s.usage && t.deleted == s.deleted
  }

  lemma ReffedOk(s: State, e: nat)
    requires Ok(s) && Handle(s, e) && s.refs[e] > 0
    ensures Ok(Reffed(s, e)) && |Reffed(s, e).next| == |s.next| && Reffed(s, e).inCache == s.inCache
    ensures Taken(s, Reffed(s, e), e) == true
  {
    if s.refs[e] == 1 && s.inCache[e] {
      MovedRings(s, LRU, IN_USE, e);
    }
    var t := Reffed(s, e);
    assert forall n: nat :: Handle(t, n) <==> Handle(s, n);
  }

  /** Unref on behalf of a caller (cache.cc:225-237). */
  function Unreffed(s: State, e: nat): State
    requires Ok(s) && Handle(s, e) && s.clients[e] > 0
  {
    var last := s.refs[e] == 1;
    var t := if s.refs[e] == 2 && s.inCache[e] then (MovedRings(s, IN_USE, LRU, e); Moved(s, IN_USE, LRU, e)) else s;
    t.(refs := s.refs[e := s.refs[e] - 1], clients := s.clients[e := s.clients[e] - 1],
       deleted := if last then s.deleted + [e] else s.deleted)
  }

  /** A caller has one reference less: an entry of the cache that nobody uses any more is the last to be evicted, a handle
      without references is deleted, and nothing else has changed. */
  ghost predicate GivenBack(s: State, t: State, e: nat) {
    && SameSizes(s) && SameSizes(t) && |t.next| == |s.next| && Handle(s, e) && s.refs[e] > 0 && s.clients[e] > 0
    && t.refs == s.refs[e := s.refs[e] - 1] && t.clients == s.clients[e := s.clients[e] - 1]
    && t.deleted == (if s.refs[e] == 1 then s.deleted + [e] else s.deleted)
    && (if s.inCache[e] && s.clients[e] == 1 then e in s.inUse && t.lru == s.lru + [e] && t.inUse == Minus(s.inUse, e)
        else t.lru == s.lru && t.inUse == s.inUse)
    && t.inCache == s.inCache && t.charge == s.charge && t.usage == s.usage
  }

  lemma UnreffedOk(s: State, e: nat)
    requires Ok(s) && Handle(s, e) && s.clients[e] > 0
    ensures Ok(Unreffed(s, e)) && |Unreffed(s, e).next| == |s.next| && Unreffed(s, e).inCache == s.inCache
    ensures GivenBack(s, Unreffed(s, e), e) == true
  {
    if s.refs[e] == 2 && s.inCache[e] {
      MovedRings(s, IN_USE, LRU, e);
    }
    var t := Unreffed(s, e);
    assert forall n: nat :: Handle(t, n) <==> Handle(s, n);
  }

  /** A looked-up entry cannot be evicted until it is released, and then it is the last to go. */
  lemma UseThenRelease(s: State, e: nat)
    requires Ok(s) && e in s.lru
    ensures Handle(s, e) && s.refs[e] > 0 && Ok(Reffed(s, e))
    ensures e !in Reffed(s, e).lru && Handle(Reffed(s, e), e) && Reffed(s, e).clients[e] > 0
    ensures Unreffed(Reffed(s, e), e).lru == Minus(s.lru, e) + [e]
    ensures Unreffed(Reffed(s, e), e).deleted == s.deleted
  {
    assert Handle(s, e);
    MovedRings(s, LRU, IN_USE, e);
    ReffedOk(s, e);
    assert Handle(Reffed(s, e), e);
  }

  /** FinishErase: out of its list, out of the cache, and the cache's own reference dropped (cache.cc:307-316). */
  function Erased(s: State, e: nat): State
    requires Ok(s) && Handle(s, e) && s.inCache[e]
  {
    var listed := if s.refs[e] == 1 then e in s.lru else e in s.inUse;
    assert listed;
    ErasedRings(s, e);
    s.(next := RemoveNext(s.next, s.prev, e), prev := RemovePrev(s.next, s.prev, e),
       lru := if s.refs[e] == 1 then Minus(s.lru, e) else s.lru,
       inUse := if s.refs[e] == 1 then s.inUse else Minus(s.inUse, e),
       inCache := s.inCache[e := false], usage := if s.usage >= s.charge[e] then s.usage - s.charge[e] else 0,
       refs := s.refs[e := s.refs[e] - 1],
       deleted := if s.refs[e] == 1 then s.deleted + [e] else s.deleted)
  }

  lemma ErasedRings(s: State, e: nat)
    requires Ok(s) && Handle(s, e) && s.inCache[e]
    ensures s.refs[e] > 0 && if s.refs[e] == 1 then e in s.lru else e in s.inUse
    ensures e < |s.next| && s.prev[e] < |s.next| && s.next[e] < |s.prev|
    ensures var lru := if s.refs[e] == 1 then Minus(s.lru, e) else s.lru;
            var inUse := if s.refs[e] == 1 then s.inUse else Minus(s.inUse, e);
            var next, prev := RemoveNext(s.next, s.prev, e), RemovePrev(s.next, s.prev, e);
            && Ring(next, prev, LRU, lru) && Ring(next, prev, IN_USE, inUse)
            && (forall n :: n in lru <==> n in s.lru && n != e)
            && (forall n :: n in inUse <==> n in s.inUse && n != e)
  {
    ListsApart(s);
    if s.refs[e] == 1 {
      RingDistinct(s.next, s.prev, LRU, s.lru);
      MinusItems(s.lru, e);
      UnlinkRings(s.next, s.prev, LRU, s.lru, IN_USE, s.inUse, e);
    } else {
      RingDistinct(s.next, s.prev, IN_USE, s.inUse);
      MinusItems(s.inUse, e);
      UnlinkRings(s.next, s.prev, IN_USE, s.inUse, LRU, s.lru, e);
    }
  }

  lemma ErasedOk(s: State, e: nat)
    requires Ok(s) && Handle(s, e) && s.inCache[e]
    ensures Ok(Erased(s, e)) == true && Erased(s, e).usage + s.charge[e] == s.usage
    ensures |Erased(s, e).next| == |s.next| && Erased(s, e).inCache == s.inCache[e := false]
  {
    ErasedRings(s, e);
    SumChange(s.inCache, s.charge, |s.next|, e);
    assert SameSizes(Erased(s, e));
    ErasedCounted(s, e);
  }

  lemma ErasedCounted(s: State, e: nat)
    requires Ok(s) && Handle(s, e) && s.inCache[e] && SameSizes(Erased(s, e))
    ensures Counted(Erased(s, e)) == true && DeletedOnce(Erased(s, e)) == true
  {
    ErasedRings(s, e);
    var t := Erased(s, e);
    assert forall n: nat :: Handle(t, n) <==> Handle(s, n);
  }

  /** A new handle with the caller's one reference, not in the cache. */
  function Allocated(s: State, charge: nat): State {
    s.(next := s.next + [0], prev := s.prev + [0], inCache := s.inCache + [false], refs := s.refs + [1],
       charge := s.charge + [charge], clients := s.clients + [1])
  }

  lemma AllocatedOk(s: State, charge: nat)
    requires Ok(s)
    ensures Ok(Allocated(s, charge))
  {
    var t, n := Allocated(s, charge), |s.next|;
    assert forall e: nat :: Handle(t, e) <==> Handle(s, e) || e == n;
    OtherRing(s.next, s.prev, LRU, s.lru, t.next, t.prev);
    OtherRing(s.next, s.prev, IN_USE, s.inUse, t.next, t.prev);
    SumSame(s.inCache, s.charge, t.inCache, t.charge, n);
    assert forall e: nat :: (e in s.lru || e in s.inUse || e in s.deleted) ==> Handle(s, e);
  }

  /** The cache takes a reference to a handle a caller has just got. */
  function Cached(s: State, e: nat): State
    requires Ok(s) && Handle(s, e) && !s.inCache[e] && s.refs[e] > 0
  {
    CachedRings(s, e);
    s.(next := AppendNext(s.next, s.prev, IN_USE, e), prev := AppendPrev(s.prev, IN_USE, e), inUse := s.inUse + [e],
       inCache := s.inCache[e := true], refs := s.refs[e := s.refs[e] + 1], usage := s.usage + s.charge[e])
  }

  lemma CachedRings(s: State, e: nat)
    requires Ok(s) && Handle(s, e) && !s.inCache[e]
    ensures IN_USE < |s.prev| && e < |s.prev| && s.prev[IN_USE] < |s.next|
    ensures Ring(AppendNext(s.next, s.prev, IN_USE, e), AppendPrev(s.prev, IN_USE, e), IN_USE, s.inUse + [e])
    ensures Ring(AppendNext(s.next, s.prev, IN_USE, e), AppendPrev(s.prev, IN_USE, e), LRU, s.lru)
  {
    ListsApart(s);
    LinkRings(s.next, s.prev, IN_USE, s.inUse, LRU, s.lru, e);
  }

  lemma CachedOk(s: State, e: nat)
    requires Ok(s) && Handle(s, e) && !s.inCache[e] && s.refs[e] > 0
    ensures Ok(Cached(s, e)) && |Cached(s, e).next| == |s.next| && Cached(s, e).inCache == s.inCache[e := true]
  {
    CachedRings(s, e);
    var t := Cached(s, e);
    SumChange(t.inCache, s.charge, |s.next|, e);
    assert t.inCache[e := false] == s.inCache;
    assert forall n: nat :: Handle(t, n) <==> Handle(s, n);
  }

  ghost predicate Erases(s: State, t: State, e: nat) {
    Ok(s) && Handle(s, e) && s.inCache[e] && t == Erased(s, e)
  }

  ghost predicate Caches(s: State, t: State, e: nat) {
    Ok(s) && Handle(s, e) && !s.inCache[e] && s.refs[e] > 0 && t == Cached(s, e)
  }

  /** An entry is out of the cache: its charge and the cache's own reference are gone, a handle without references is
      deleted, and nothing else has changed. */
  ghost predicate TakenOut(s: State, t: State, e: nat) {
    && SameSizes(s) && SameSizes(t) && |t.next| == |s.next| && Handle(s, e) && s.refs[e] > 0
    && t.inCache == s.inCache[e := false] && t.usage + s.charge[e] == s.usage
    && t.refs == s.refs[e := s.refs[e] - 1] && t.clients == s.clients && t.charge == s.charge
    && t.deleted == (if s.clients[e] == 0 then s.deleted + [e] else s.deleted)
    && (if s.clients[e] == 0 then e in s.lru && t.lru == Minus(s.lru, e) && t.inUse == s.inUse
        else e in s.inUse && t.lru == s.lru && t.inUse == Minus(s.inUse, e))
  }

  lemma ErasesFacts(s: State, t: State, e: nat)
    requires Erases(s, t, e)
    ensures TakenOut(s, t, e) == true
    ensures t.deleted == if e in s.lru then s.deleted + [e] else s.deleted
    ensures Ok(t) == true && t.usage + s.charge[e] == s.usage
    ensures |t.next| == |s.next| && t.inCache == s.inCache[e := false] && t.charge == s.charge && t.clients == s.clients
    ensures e in s.lru <==> s.refs[e] == 1
    ensures t.lru == if e in s.lru then Minus(s.lru, e) else s.lru
    ensures e in s.lru ==> t.inUse == s.inUse
    ensures forall n :: n in t.inUse <==> n in s.inUse && n != e
  {
    ErasedOk(s, e);
    ErasedRings(s, e);
    assert Handle(s, e);
  }

  lemma CachesFacts(s: State, t: State, e: nat)
    requires Caches(s, t, e)
    ensures Ok(t) == true
    ensures |t.next| == |s.next| && t.inCache == s.inCache[e := true] && t.charge == s.charge && t.clients == s.clients
    ensures t.lru == s.lru && t.inUse == s.inUse + [e] && t.deleted == s.deleted
  {
    CachedOk(s, e);
  }

  // ---- The cache and its table ----

  /** The table holds exactly the handles that are in the cache, under their keys. */
  ghost predicate Agree(s: State, tags: seq<Tag>, entries: map<Tag, nat>) {
    && SameSizes(s) && |tags| == |s.next|
    && (forall t :: t in entries ==> Handle(s, entries[t]) && s.inCache[entries[t]] && tags[entries[t]] == t)
    && (forall e: nat {:trigger Handle(s, e)} :: Handle(s, e) && s.inCache[e] ==> tags[e] in entries && entries[tags[e]] == e)
  }

  class LRUCache {
    var capacity: nat
    var s: State
    const table: HandleTable

    ghost predicate Valid()
      reads this, table
    {
      Ok(s) == true && table.Valid() == true && Agree(s, table.tags, table.entries) == true
    }

    constructor (capacity: nat)
      ensures Valid() && fresh(table) && this.capacity == capacity
      ensures table.entries == map[] && s.usage == 0 && s.lru == s.inUse == s.deleted == []
    {
      this.capacity := capacity;
      var t := new HandleTable();
      var lru := t.Allocate(Tag("", 0));
      var inUse := t.Allocate(Tag("", 0));
      table := t;
      s := State(0, [LRU, IN_USE], [LRU, IN_USE], [false, false], [0, 0], [0, 0], [0, 0], [], [], []);
      new;
      assert forall e: nat :: !Handle(s, e);
      assert Sum(s.inCache, s.charge, 2) == 0 by { assert Sum(s.inCache, s.charge, 1) == 0; }
      assert Ring(s.next, s.prev, LRU, s.lru) && Ring(s.next, s.prev, IN_USE, s.inUse);
    }

    /** The entry of that key, with one more reference for the caller (cache.cc:252-259). */
    method Lookup(tag: Tag) returns (found: Link)
      requires Valid()
      modifies this`s
      ensures Valid() && table.entries == old(table.entries)
      ensures found == if tag in table.entries then To(table.entries[tag]) else Nil
      ensures if found.To? then Taken(old(s), s, found.handle) == true else s == old(s)
    {
      found := table.Lookup(tag);
      if found.To? {
        assert Handle(s, found.handle);
        ReffedOk(s, found.handle);
        SameAgrees(s, Reffed(s, found.handle), table.tags, table.entries);
        s := Reffed(s, found.handle);
      }
    }

    /** A caller gives a reference back (cache.cc:261-264). */
    method Release(e: nat)
      requires Valid() && Handle(s, e) && s.clients[e] > 0
      modifies this`s
      ensures Valid() && table.entries == old(table.entries)
      ensures GivenBack(old(s), s, e) == true
    {
      UnreffedOk(s, e);
      SameAgrees(s, Unreffed(s, e), table.tags, table.entries);
      s := Unreffed(s, e);
    }

    /** Finish taking out of the cache what has been taken out of the table. */
    method FinishErase(found: Link) returns (erased: bool)
      requires Ok(s) == true && (found.To? ==> Handle(s, found.handle) && s.inCache[found.handle])
      modifies this`s
      ensures erased == found.To?
      ensures if found.To? then Erases(old(s), s, found.handle) == true else s == old(s)
    {
      if found.To? {
        s := Erased(s, found.handle);
      }
      erased := found.To?;
    }

    /** cache.cc:318-321 */
    method Erase(tag: Tag)
      requires Valid()
      modifies this`s, table
      ensures Valid() && table.tags == old(table.tags) && table.entries == old(table.entries) - {tag}
      ensures if tag in old(table.entries) then TakenOut(old(s), s, old(table.entries)[tag]) == true else s == old(s)
    {
      ghost var before, entries := s, table.entries;
      var found := table.Remove(tag);
      assert found.To? ==> Handle(s, found.handle);
      var _ := FinishErase(found);
      if tag in entries {
        ErasesFacts(before, s, entries[tag]);
        ErasedAgrees(before, s, table.tags, entries, tag);
      } else {
        NothingRemoved(entries, tag);
      }
    }

    /** Take the oldest entry nobody uses out of the cache. */
    method EvictOldest(ghost oldest: nat, ghost tag: Tag)
      requires Valid() && s.lru != [] && oldest == s.lru[0] && oldest < |table.tags| && tag == table.tags[oldest]
      modifies this`s, table
      ensures Valid() && table.tags == old(table.tags) && table.entries == old(table.entries) - {tag}
      ensures Erases(old(s), s, oldest) == true
    {
      ghost var before, entries := s, table.entries;
      HeadNeighbours(s.next, s.prev, LRU, s.lru);
      OldestListed(s);
      var e := s.next[LRU];
      var found := table.Remove(table.tags[e]);
      var _ := FinishErase(found);
      ErasesFacts(before, s, oldest);
      ErasedAgrees(before, s, table.tags, entries, tag);
    }

    /** A new handle, held by the caller only. */
    method NewHandle(tag: Tag, charge: nat) returns (e: nat)
      requires Valid()
      modifies this`s, table
      ensures Valid() == true && e == |old(s.next)| && Handle(s, e) && !s.inCache[e] && s.refs[e] == 1
      ensures s.lru == old(s.lru) && s.inUse == old(s.inUse) && e !in s.inUse && s.deleted == old(s.deleted)
      ensures s.clients == old(s.clients) + [1] && s.charge == old(s.charge) + [charge]
      ensures table.tags == old(table.tags) + [tag] && table.entries == old(table.entries)
    {
      e := table.Allocate(tag);
      AllocatedOk(s, charge);
      AllocatedAgrees(s, charge, old(table.tags), tag, table.entries);
      assert !Handle(s, e) && e !in s.inUse;
      s := Allocated(s, charge);
    }

    /** A new handle, held by the caller and, if caching is on, by the cache. */
    method Enter(tag: Tag, charge: nat) returns (e: nat)
      requires Valid()
      modifies this`s, table
      ensures Valid() == true && e == |old(s.next)| && Handle(s, e) && s.clients == old(s.clients) + [1]
      ensures table.tags == old(table.tags) + [tag] && s.charge == old(s.charge) + [charge]
      ensures table.entries == if capacity > 0 then old(table.entries)[tag := e] else old(table.entries)
      ensures s.lru == Undisplaced(old(s), if capacity > 0 then old(table.entries) else map[], tag)
      ensures s.deleted == old(s.deleted) + DisplacedIdle(old(s), if capacity > 0 then old(table.entries) else map[], tag)
      ensures e in s.inUse <==> capacity > 0
    {
      e := NewHandle(tag, charge);
      if capacity > 0 {
        Cache(e, tag);
      }
    }

    /** One turn of the loops of Insert and Prune. */
    method EvictNext(ghost was: State, ghost all: map<Tag, nat>, ghost n: nat, ghost limit: nat)
      requires Valid() && s.lru != [] && Trimmed(was, s, all, table.entries, table.tags, n)
      modifies this`s, table
      ensures Valid() == true && table.tags == old(table.tags) && |s.lru| < |old(s.lru)|
      ensures Trimmed(was, s, all, table.entries, table.tags, n + 1) == true
      ensures old(s.usage) > limit ==> Needed(was, s, n + 1, limit) == true
    {
      ghost var before, entries, oldest := s, table.entries, s.lru[0];
      OldestListed(s);
      EvictOldest(oldest, table.tags[oldest]);
      OneTrimmed(was, before, s, all, entries, table.tags, n, limit);
    }

    /** Let go of idle entries, the longest unused first, while over capacity and no longer. */
    method Trim() returns (ghost evicted: nat)
      requires Valid()
      modifies this`s, table
      ensures Valid() == true && (s.usage <= capacity || s.lru == []) && table.tags == old(table.tags)
      ensures Trimmed(old(s), s, old(table.entries), table.entries, table.tags, evicted) == true
      ensures Needed(old(s), s, evicted, capacity) == true
    {
      evicted := 0;
      NoneTrimmed(s, table.entries, table.tags, capacity);
      while s.usage > capacity && s.lru != []
        invariant Valid() == true && table.tags == old(table.tags)
        invariant Trimmed(old(s), s, old(table.entries), table.entries, table.tags, evicted) == true
        invariant Needed(old(s), s, evicted, capacity) == true
        decreases |s.lru|
      {
        EvictNext(old(s), old(table.entries), evicted, capacity);
        evicted := evicted + 1;
      }
    }

    /** Enter a value under a key and hand out a reference to it; then, while over capacity, let go of
        entries nobody uses, the longest unused first and no more than needed (cache.cc:266-303). */
    method Insert(tag: Tag, charge: nat) returns (e: nat, ghost evicted: nat)
      requires Valid()
      modifies this`s, table
      ensures Valid() && e == |old(s.next)| && s.clients == old(s.clients) + [1]
      ensures table.tags == old(table.tags) + [tag] && s.charge == old(s.charge) + [charge]
      ensures e in s.inUse <==> capacity > 0
      ensures s.usage <= capacity || s.lru == []
      ensures var idle := Undisplaced(old(s), if capacity > 0 then old(table.entries) else map[], tag);
              && evicted <= |idle| && s.lru == idle[evicted..]
              && s.deleted == old(s.deleted) + DisplacedIdle(old(s), if capacity > 0 then old(table.entries) else map[], tag)
                              + idle[..evicted]
              && table.entries == (if capacity > 0 then old(table.entries)[tag := e] else old(table.entries))
                                  - TagsOf(table.tags, idle[..evicted])
              && (evicted > 0 ==> s.usage + ChargeOf(s.charge, idle, evicted - 1) > capacity)
    {
      e := Enter(tag, charge);
      evicted := Trim();
    }

    /** Let go of everything nobody uses (cache.cc:323-333). */
    method Prune()
      requires Valid()
      modifies this`s, table
      ensures Valid() == true && s.lru == [] && s.inUse == old(s.inUse) && s.clients == old(s.clients)
      ensures s.deleted == old(s.deleted) + old(s.lru)
      ensures table.entries == old(table.entries) - TagsOf(table.tags, old(s.lru))
    {
      ghost var n: nat := 0;
      NoneTrimmed(s, table.entries, table.tags, 0);
      while s.lru != []
        invariant Valid() == true && table.tags == old(table.tags)
        invariant Trimmed(old(s), s, old(table.entries), table.entries, table.tags, n) == true
        decreases |s.lru|
      {
        EvictNext(old(s), old(table.entries), n, 0);
        n := n + 1;
      }
      assert old(s.lru)[..n] == old(s.lru);
    }

    /** The destructor, once no caller uses a cached entry: the cache gives its references back
        (cache.cc:205-215).  It leaves the lists as they are. */
    method Destroy()
      requires Valid() && s.inUse == []
      modifies this`s
      ensures DeletedOnce(old(s)) && SameSizes(s) && |s.next| == |old(s.next)| && s.clients == old(s.clients)
      ensures s.deleted == old(s.deleted) + old(s.lru) && DeletedOnce(s) == true
      ensures forall e: nat {:trigger Handle(s, e)} :: Handle(s, e) ==> s.refs[e] == s.clients[e]
    {
      ghost var was, k: nat := s, 0;
      NotTorn(s);
      var e := s.next[LRU];
      while e != LRU
        invariant k <= |was.lru| && e == TornAt(was, k) && (e == LRU <==> k == |was.lru|)
        invariant Torn(was, s, k) == true
        decreases |was.lru| - k
      {
        TornStep(was, s, k);
        var next := s.next[e];
        s := TornOff(s, e);
        e, k := next, k + 1;
        TornAtHead(was, k);
      }
      TornDown(was, s);
    }

    /** The cache's side of an insertion: a reference of its own, and the table's entry, which may displace another. */
    method Cache(e: nat, tag: Tag)
      requires Valid() && Handle(s, e) && table.tags[e] == tag && !s.inCache[e] && s.refs[e] == 1
      modifies this`s, table
      ensures Valid() == true && table.tags == old(table.tags)
      ensures table.entries == old(table.entries)[tag := e]
      ensures |s.next| == |old(s.next)| && s.charge == old(s.charge) && s.clients == old(s.clients)
      ensures s.lru == Undisplaced(old(s), old(table.entries), tag) && e in s.inUse
      ensures s.deleted == old(s.deleted) + DisplacedIdle(old(s), old(table.entries), tag)
    {
      ghost var before, entries := s, table.entries;
      CachedOk(s, e);
      s := Cached(s, e);
      ghost var middle := s;
      CachesFacts(before, middle, e);
      assert forall t :: t in entries ==> entries[t] != e;
      var displaced := table.Insert(e);
      assert displaced.To? ==> Handle(s, displaced.handle) && s.inCache[displaced.handle];
      var _ := FinishErase(displaced);
      CachedAndDisplaced(before, middle, s, entries, tag, e);
      InsertedAgrees(before, s, table.tags, entries, tag, e);
    }
  }

  /** What an insertion that may displace an entry does to the lists. */
  lemma CachedAndDisplaced(s: State, m: State, t: State, entries: map<Tag, nat>, tag: Tag, e: nat)
    requires Caches(s, m, e) == true && (tag in entries ==> entries[tag] != e)
    requires if tag in entries then Erases(m, t, entries[tag]) == true else t == m
    ensures Ok(t) == true && |t.next| == |s.next| && t.charge == s.charge && t.clients == s.clients
    ensures t.inCache == if tag in entries then s.inCache[e := true][entries[tag] := false] else s.inCache[e := true]
    ensures t.lru == Undisplaced(s, entries, tag) && t.deleted == s.deleted + DisplacedIdle(s, entries, tag) && e in t.inUse
    ensures SameSizes(t) && (tag in entries ==> entries[tag] < |s.next|)
  {
    CachesFacts(s, m, e);
    if tag in entries {
      ErasesFacts(m, t, entries[tag]);
    }
  }

  /** The idle entries that an insertion under `tag` does not displace. */
  function Undisplaced(s: State, entries: map<Tag, nat>, tag: Tag): seq<nat> {
    if tag in entries && entries[tag] in s.lru then Minus(s.lru, entries[tag]) else s.lru
  }

  /** The idle entry that an insertion under `tag` displaces, if there is one. */
  function DisplacedIdle(s: State, entries: map<Tag, nat>, tag: Tag): seq<nat> {
    if tag in entries && entries[tag] in s.lru then [entries[tag]] else []
  }

  function ChargeOf(charge: seq<nat>, items: seq<nat>, k: nat): nat {
    if k < |items| && items[k] < |charge| then charge[items[k]] else 0
  }

  predicate All(items: seq<nat>, n: nat) {
    forall i :: 0 <= i < |items| ==> items[i] < n
  }

  function TagsOf(tags: seq<Tag>, items: seq<nat>): set<Tag> {
    set e | e in items && e < |tags| :: tags[e]
  }

  lemma OneMoreTag(all: map<Tag, nat>, tags: seq<Tag>, items: seq<nat>, k: nat)
    requires k < |items| && All(items, |tags|)
    ensures all - TagsOf(tags, items[..k + 1]) == (all - TagsOf(tags, items[..k])) - {tags[items[k]]}
  {
    assert items[..k + 1] == items[..k] + [items[k]];
    assert TagsOf(tags, items[..k + 1]) == TagsOf(tags, items[..k]) + {tags[items[k]]};
  }

  /** The first `n` idle entries are gone, and nothing else has changed for the callers. */
  ghost predicate Trimmed(was: State, s: State, all: map<Tag, nat>, entries: map<Tag, nat>, tags: seq<Tag>, n: nat) {
    && n <= |was.lru| && s.lru == was.lru[n..] && All(was.lru, |tags|) && entries == all - TagsOf(tags, was.lru[..n])
    && s.charge == was.charge && s.clients == was.clients && s.inUse == was.inUse && |s.next| == |was.next|
    && s.deleted == was.deleted + was.lru[..n]
  }

  /** The last of them had to go. */
  ghost predicate Needed(was: State, s: State, n: nat, capacity: nat) {
    n > 0 ==> s.usage + ChargeOf(s.charge, was.lru, n - 1) > capacity
  }

  lemma NoneTrimmed(s: State, entries: map<Tag, nat>, tags: seq<Tag>, capacity: nat)
    requires Ok(s) && |s.next| == |tags|
    ensures Trimmed(s, s, entries, entries, tags, 0) && Needed(s, s, 0, capacity)
  {
    IdleHandles(s, |tags|);
    assert s.lru[..0] == [];
  }

  lemma OneTrimmed(was: State, s: State, t: State, all: map<Tag, nat>, entries: map<Tag, nat>, tags: seq<Tag>, n: nat,
                   capacity: nat)
    requires Trimmed(was, s, all, entries, tags, n) && s.lru != [] && Erases(s, t, s.lru[0])
    ensures s.lru[0] < |tags|
    ensures Trimmed(was, t, all, entries - {tags[s.lru[0]]}, tags, n + 1)
    ensures s.usage > capacity ==> Needed(was, t, n + 1, capacity)
  {
    OldestListed(s);
    ErasesFacts(s, t, s.lru[0]);
    OneMoreTag(all, tags, was.lru, n);
    assert was.lru[..n + 1] == was.lru[..n] + [was.lru[n]];
  }

  lemma IdleHandles(s: State, n: nat)
    requires Ok(s) && n == |s.next|
    ensures All(s.lru, n)
  {
    forall i | 0 <= i < |s.lru| ensures s.lru[i] < n {
      assert s.lru[i] in s.lru;
      assert Handle(s, s.lru[i]);
    }
  }

  lemma AllocatedAgrees(s: State, charge: nat, tags: seq<Tag>, tag: Tag, entries: map<Tag, nat>)
    requires Ok(s) && Agree(s, tags, entries)
    ensures Agree(Allocated(s, charge), tags + [tag], entries)
  {
    var t := Allocated(s, charge);
    assert forall e: nat :: Handle(t, e) <==> Handle(s, e) || e == |s.next|;
  }

  lemma InsertedAgrees(s: State, t: State, tags: seq<Tag>, entries: map<Tag, nat>, tag: Tag, e: nat)
    requires Agree(s, tags, entries) && Handle(s, e) && tags[e] == tag && !s.inCache[e]
    requires SameSizes(t) && |t.next| == |s.next|
    requires tag in entries ==> entries[tag] < |s.next| && t.inCache == s.inCache[e := true][entries[tag] := false]
    requires tag !in entries ==> t.inCache == s.inCache[e := true]
    ensures Agree(t, tags, entries[tag := e])
  {
    assert forall n: nat :: Handle(t, n) <==> Handle(s, n);
    var entries' := entries[tag := e];
    forall k | k in entries' ensures Handle(t, entries'[k]) && t.inCache[entries'[k]] && tags[entries'[k]] == k {
      if k != tag { assert tags[entries[k]] == k; }
    }
  }

  /** The first `k` idle entries have been given back by the destructor. */
  ghost predicate Torn(was: State, s: State, k: nat) {
    && Ok(was) == true && was.inUse == [] && k <= |was.lru|
    && SameSizes(s) && s.next == was.next && s.clients == was.clients
    && s.deleted == was.deleted + was.lru[..k]
    && forall e: nat {:trigger Handle(was, e)} :: Handle(was, e) ==>
         s.refs[e] == if e in was.lru[..k] then 0 else was.refs[e]
  }

  /** The cache gives back its reference to an entry nobody uses, which is then deleted. */
  function TornOff(s: State, e: nat): State
    requires SameSizes(s) && e < |s.next| && s.refs[e] == 1
  {
    s.(inCache := s.inCache[e := false], refs := s.refs[e := 0], deleted := s.deleted + [e])
  }

  /** Where the walk is after `k` entries: at the next one, or back at the head. */
  function TornAt(was: State, k: nat): nat
    requires k <= |was.lru|
  {
    if k == |was.lru| then LRU else was.lru[k]
  }

  lemma TornAtHead(was: State, k: nat)
    requires Ok(was) && k <= |was.lru|
    ensures TornAt(was, k) == LRU <==> k == |was.lru|
  {
    RingDistinct(was.next, was.prev, LRU, was.lru);
  }

  lemma NotTorn(s: State)
    requires Ok(s) && s.inUse == []
    ensures Torn(s, s, 0) == true
    ensures LRU < |s.next| && s.next[LRU] == TornAt(s, 0) && (s.next[LRU] == LRU <==> s.lru == [])
  {
    HeadNeighbours(s.next, s.prev, LRU, s.lru);
    TornAtHead(s, 0);
  }

  lemma TornStep(was: State, s: State, k: nat)
    requires Torn(was, s, k) && k < |was.lru|
    ensures was.lru[k] < |s.next| && s.refs[was.lru[k]] == 1
    ensures s.next[was.lru[k]] == TornAt(was, k + 1)
    ensures SameSizes(s) && Torn(was, TornOff(s, was.lru[k]), k + 1) == true
  {
    var e := was.lru[k];
    RingDistinct(was.next, was.prev, LRU, was.lru);
    assert e in was.lru && Handle(was, e);
    var round := Around(LRU, was.lru);
    assert was.next[round[k + 1]] == round[k + 2];
    assert was.lru[..k + 1] == was.lru[..k] + [e];
    assert e !in was.lru[..k];
  }

  lemma TornDown(was: State, s: State)
    requires Torn(was, s, |was.lru|)
    ensures s.deleted == was.deleted + was.lru && DeletedOnce(s)
    ensures forall e: nat {:trigger Handle(s, e)} :: Handle(s, e) ==> s.refs[e] == s.clients[e]
  {
    assert was.lru[..|was.lru|] == was.lru;
    RingDistinct(was.next, was.prev, LRU, was.lru);
    forall e: nat | Handle(s, e)
      ensures s.refs[e] == s.clients[e] && (e in s.deleted <==> s.refs[e] == 0)
    {
      assert Handle(was, e);
      assert e !in was.inUse;
      assert e in s.deleted <==> e in was.deleted || e in was.lru;
    }
    forall e: nat | e in s.deleted ensures Handle(s, e) {
      assert e in was.deleted || e in was.lru;
      assert Handle(was, e);
    }
    forall i, j | 0 <= i < j < |s.deleted| ensures s.deleted[i] != s.deleted[j] {
      if i < |was.deleted| <= j {
        var e := s.deleted[j];
        assert e == was.lru[j - |was.deleted|] && e in was.lru;
        assert Handle(was, e) && e !in was.deleted;
      }
    }
  }

  lemma OldestListed(s: State)
    requires Ok(s) && s.lru != []
    ensures Handle(s, s.lru[0]) && s.inCache[s.lru[0]] && s.refs[s.lru[0]] == 1
    ensures Minus(s.lru, s.lru[0]) == s.lru[1..]
  {
    assert s.lru[0] in s.lru && Handle(s, s.lru[0]);
  }

  lemma NothingRemoved(entries: map<Tag, nat>, tag: Tag)
    requires tag !in entries
    ensures entries - {tag} == entries
  {}

  lemma ErasedAgrees(s: State, t: State, tags: seq<Tag>, entries: map<Tag, nat>, tag: Tag)
    requires Agree(s, tags, entries) && SameSizes(t) && |t.next| == |s.next| && tag in entries
    requires entries[tag] < |s.inCache| && t.inCache == s.inCache[entries[tag] := false]
    ensures Agree(t, tags, entries - {tag})
  {
    assert forall n: nat :: Handle(t, n) <==> Handle(s, n);
    forall k | k in entries - {tag}
      ensures Handle(t, entries[k]) && t.inCache[entries[k]] && tags[entries[k]] == k
    {
      assert tags[entries[k]] == k && tags[entries[tag]] == tag;
    }
  }

  lemma SameAgrees(s: State, t: State, tags: seq<Tag>, entries: map<Tag, nat>)
    requires Agree(s, tags, entries) && SameSizes(t) && |t.next| == |s.next| && t.inCache == s.inCache
    ensures Agree(t, tags, entries)
  {
    assert forall n: nat :: Handle(t, n) <==> Handle(s, n);
  }
}
