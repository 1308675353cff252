/** The chained hash table of the cache (util/cache.cc:69-147).

    A handle is an index; the fields of the handles that this class touches are its sequences `tags` (key and
    hash, never changed) and `nextHash`.  A pointer to a slot is a bucket or the `nextHash` field of a handle.
 */
module HandleTables {

  type Word = x: int | 0 <= x < 0x1_0000_0000

  datatype Tag = Tag(key: string, hash: Word)

  datatype Link = Nil | To(handle: nat)

  datatype Slot = Bucket(index: nat) | NextOf(handle: nat)

  // ---- Chains ----

  /** The slot that points to item `i` of a bucket's chain. */
  function SlotAt(b: nat, chain: seq<nat>, i: nat): Slot
    requires i <= |chain|
  {
    if i == 0 then Bucket(b) else NextOf(chain[i - 1])
  }

  function Item(chain: seq<nat>, i: nat): Link
    requires i <= |chain|
  {
    if i == |chain| then Nil else To(chain[i])
  }

  predicate InRange(slot: Slot, list: seq<Link>, nextHash: seq<Link>) {
    match slot case Bucket(b) => b < |list| case NextOf(n) => n < |nextHash|
  }

  function Read(slot: Slot, list: seq<Link>, nextHash: seq<Link>): Link
    requires InRange(slot, list, nextHash)
  {
    match slot case Bucket(b) => list[b] case NextOf(n) => nextHash[n]
  }

  ghost predicate Chained(list: seq<Link>, nextHash: seq<Link>, b: nat, chain: seq<nat>) {
    && (forall i :: 0 <= i < |chain| ==> chain[i] < |nextHash|)
    && (forall i, j :: 0 <= i < j < |chain| ==> chain[i] != chain[j])
    && forall i: nat :: i <= |chain| ==>
         && InRange(SlotAt(b, chain, i), list, nextHash)
         && Read(SlotAt(b, chain, i), list, nextHash) == Item(chain, i)
  }

  /** The low bits of a hash: `hash & (length - 1)` for the powers of two that are a table's lengths. */
  function Masked(hash: nat, length: nat): (r: nat)
    ensures length > 0 ==> r < length
    decreases length
  {
    if length <= 1 then 0 else 2 * Masked(hash / 2, length / 2) + hash % 2
  }

  predicate PowerOfTwo(n: nat) {
    n == 1 || (n > 0 && n % 2 == 0 && PowerOfTwo(n / 2))
  }

  /** The lengths a table takes. */
  predicate LengthOk(n: nat) {
    n >= 4 && PowerOfTwo(n)
  }

  method LengthFor(elems: nat) returns (newLength: nat)
    ensures elems <= newLength && LengthOk(newLength) && (newLength > 4 ==> newLength < 2 * elems)
  {
    newLength := 4;
    while newLength < elems
      invariant LengthOk(newLength) && (newLength > 4 ==> newLength < 2 * elems)
      decreases elems - newLength
    {
      newLength := newLength * 2;
    }
  }

  /** `a & b` */
  function And(a: nat, b: nat): nat {
    if a == 0 || b == 0 then 0 else 2 * And(a / 2, b / 2) + a % 2 * (b % 2)
  }

  lemma {:induction false} MaskedIsAnd(hash: nat, length: nat)
    requires PowerOfTwo(length)
    ensures Masked(hash, length) == And(hash, length - 1)
    decreases length
  {
    if length > 1 {
      MaskedIsAnd(hash / 2, length / 2);
      assert (length - 1) % 2 == 1 && (length - 1) / 2 == length / 2 - 1;
    }
  }

  ghost predicate AllChained(list: seq<Link>, nextHash: seq<Link>, chains: seq<seq<nat>>) {
    |chains| == |list| && forall b: nat :: b < |list| ==> Chained(list, nextHash, b, chains[b]) == true
  }

  predicate In(chains: seq<seq<nat>>, b: nat, n: nat) {
    b < |chains| && n in chains[b]
  }

  /** The handle of an entry, in a chain. */
  predicate Sits(tags: seq<Tag>, entries: map<Tag, nat>, b: nat, n: nat, length: nat) {
    n < |tags| && Masked(tags[n].hash, length) == b && tags[n] in entries && entries[tags[n]] == n
  }

  /** The chains hold exactly the entries, each in the bucket of its hash. */
  ghost predicate Holds(tags: seq<Tag>, chains: seq<seq<nat>>, entries: map<Tag, nat>) {
    && (forall b: nat, n: nat :: In(chains, b, n) ==> Sits(tags, entries, b, n, |chains|))
    && (forall t :: t in entries ==> entries[t] < |tags| && tags[entries[t]] == t && In(chains, Masked(t.hash, |chains|), entries[t]))
  }

  /** No entry is this handle. */
  ghost predicate Unlinked(entries: map<Tag, nat>, h: nat) {
    forall t :: t in entries ==> entries[t] != h
  }

  ghost predicate Rep(tags: seq<Tag>, list: seq<Link>, nextHash: seq<Link>, chains: seq<seq<nat>>, entries: map<Tag, nat>) {
    && |tags| == |nextHash| && |chains| == |list| > 0
    && AllChained(list, nextHash, chains) == true
    && Holds(tags, chains, entries) == true
  }

  /** One store through a slot pointer, and one to the stored handle's own link. */
  lemma StoreInChain(list: seq<Link>, nextHash: seq<Link>, b: nat, chain: seq<nat>, i: nat, chain': seq<nat>,
                     list': seq<Link>, nextHash': seq<Link>)
    requires b < |list| && Chained(list, nextHash, b, chain) && i <= |chain|
    requires |list'| == |list| && |nextHash'| == |nextHash|
    requires i <= |chain'| && chain'[..i] == chain[..i]
    requires forall j :: 0 <= j < |chain'| ==> chain'[j] < |nextHash'|
    requires forall j, k :: 0 <= j < k < |chain'| ==> chain'[j] != chain'[k]
    requires i > 0 ==> list'[b] == list[b]
    requires forall j :: 0 <= j < i - 1 ==> nextHash'[chain[j]] == nextHash[chain[j]]
    requires forall j: nat :: i <= j <= |chain'| ==>
               InRange(SlotAt(b, chain', j), list', nextHash') && Read(SlotAt(b, chain', j), list', nextHash') == Item(chain', j)
    ensures Chained(list', nextHash', b, chain')
  {
    forall j: nat | j <= |chain'|
      ensures InRange(SlotAt(b, chain', j), list', nextHash') && Read(SlotAt(b, chain', j), list', nextHash') == Item(chain', j)
    {
      if j < i {
        assert chain'[j] == chain'[..i][j] == chain[..i][j] == chain[j];
        if j > 0 { assert chain'[j - 1] == chain'[..i][j - 1] == chain[..i][j - 1] == chain[j - 1]; }
        assert Read(SlotAt(b, chain, j), list, nextHash) == Item(chain, j);
      }
    }
  }

  /** A chain none of whose slots is stored to. */
  lemma OtherChain(list: seq<Link>, nextHash: seq<Link>, b: nat, chain: seq<nat>, list': seq<Link>, nextHash': seq<Link>)
    requires b < |list| && Chained(list, nextHash, b, chain)
    requires |list'| == |list| && |nextHash'| >= |nextHash|
    requires list'[b] == list[b] && forall n :: n in chain ==> nextHash'[n] == nextHash[n]
    ensures Chained(list', nextHash', b, chain)
  {
    forall j: nat | j <= |chain|
      ensures InRange(SlotAt(b, chain, j), list', nextHash') && Read(SlotAt(b, chain, j), list', nextHash') == Item(chain, j)
    {
      assert Read(SlotAt(b, chain, j), list, nextHash) == Item(chain, j);
    }
  }

  function Write(slot: Slot, v: Link, list: seq<Link>, nextHash: seq<Link>): (r: (seq<Link>, seq<Link>))
    requires InRange(slot, list, nextHash)
    ensures |r.0| == |list| && |r.1| == |nextHash|
  {
    match slot case Bucket(b) => (list[b := v], nextHash) case NextOf(n) => (list, nextHash[n := v])
  }

  /** Replace item `i` of the chain, or add one at its end. */
  function Replaced(chain: seq<nat>, i: nat, h: nat): seq<nat>
    requires i <= |chain|
  {
    chain[..i] + [h] + if i < |chain| then chain[i + 1..] else []
  }

  function Without(chain: seq<nat>, i: nat): seq<nat>
    requires i < |chain|
  {
    chain[..i] + chain[i + 1..]
  }

  lemma ReplaceChained(list: seq<Link>, nextHash: seq<Link>, b: nat, chain: seq<nat>, i: nat, h: nat,
                       list': seq<Link>, nextHash': seq<Link>)
    requires b < |list| && Chained(list, nextHash, b, chain) && i <= |chain| && h < |nextHash| && h !in chain
    requires var nh := nextHash[h := if i == |chain| then Nil else nextHash[chain[i]]];
             InRange(SlotAt(b, chain, i), list, nh) && (list', nextHash') == Write(SlotAt(b, chain, i), To(h), list, nh)
    ensures Chained(list', nextHash', b, Replaced(chain, i, h))
  {
    var chain' := Replaced(chain, i, h);
    assert chain'[..i] == chain[..i];
    forall j: nat | i <= j <= |chain'|
      ensures InRange(SlotAt(b, chain', j), list', nextHash') && Read(SlotAt(b, chain', j), list', nextHash') == Item(chain', j)
    {
      if j == i {
        assert SlotAt(b, chain', j) == SlotAt(b, chain, i);
      } else if j == i + 1 {
        assert i < |chain| ==> Read(SlotAt(b, chain, i + 1), list, nextHash) == Item(chain, i + 1);
      } else {
        assert Read(SlotAt(b, chain, j), list, nextHash) == Item(chain, j);
      }
    }
    StoreInChain(list, nextHash, b, chain, i, chain', list', nextHash');
  }

  lemma RemoveChained(list: seq<Link>, nextHash: seq<Link>, b: nat, chain: seq<nat>, i: nat,
                      list': seq<Link>, nextHash': seq<Link>)
    requires b < |list| && Chained(list, nextHash, b, chain) && i < |chain|
    requires InRange(SlotAt(b, chain, i), list, nextHash)
    requires (list', nextHash') == Write(SlotAt(b, chain, i), nextHash[chain[i]], list, nextHash)
    ensures Chained(list', nextHash', b, Without(chain, i))
  {
    var chain' := Without(chain, i);
    assert chain'[..i] == chain[..i];
    forall j: nat | i <= j <= |chain'|
      ensures InRange(SlotAt(b, chain', j), list', nextHash') && Read(SlotAt(b, chain', j), list', nextHash') == Item(chain', j)
    {
      assert Read(SlotAt(b, chain, j + 1), list, nextHash) == Item(chain, j + 1);
      if j == i {
        assert SlotAt(b, chain', j) == SlotAt(b, chain, i);
      }
    }
    StoreInChain(list, nextHash, b, chain, i, chain', list', nextHash');
  }

  /** Where in the chain of its bucket a tag is looked for. */
  ghost predicate Position(chain: seq<nat>, entries: map<Tag, nat>, tag: Tag, i: nat) {
    i <= |chain| && if tag in entries then i < |chain| && chain[i] == entries[tag] else i == |chain|
  }

  /** Only slots of bucket `b` were stored to. */
  lemma OthersChained(tags: seq<Tag>, list: seq<Link>, nextHash: seq<Link>, chains: seq<seq<nat>>, entries: map<Tag, nat>,
                      b: nat, chain': seq<nat>, list': seq<Link>, nextHash': seq<Link>)
    requires Rep(tags, list, nextHash, chains, entries) && b < |list|
    requires |list'| == |list| && |nextHash'| == |nextHash| && Chained(list', nextHash', b, chain') == true
    requires forall c: nat :: c < |list| && c != b ==> list'[c] == list[c]
    requires forall c: nat, n: nat :: In(chains, c, n) && c != b ==> nextHash'[n] == nextHash[n]
    ensures AllChained(list', nextHash', chains[b := chain'])
  {
    var chains' := chains[b := chain'];
    forall c: nat | c < |list| ensures Chained(list', nextHash', c, chains'[c]) == true {
      if c != b {
        assert Chained(list, nextHash, c, chains[c]) == true;
        assert forall n: nat :: n in chains[c] ==> In(chains, c, n);
        OtherChain(list, nextHash, c, chains[c], list', nextHash');
      }
    }
  }

  lemma InsertHolds(tags: seq<Tag>, chains: seq<seq<nat>>, entries: map<Tag, nat>, h: nat, b: nat, i: nat, chain: seq<nat>)
    requires Holds(tags, chains, entries) && h < |tags| && chains != [] && b == Masked(tags[h].hash, |chains|)
    requires Unlinked(entries, h)
    requires chain == chains[b] && Position(chain, entries, tags[h], i) && h !in chain
    requires forall j, k :: 0 <= j < k < |chain| ==> chain[j] != chain[k]
    ensures Holds(tags, chains[b := Replaced(chain, i, h)], entries[tags[h] := h])
  {
    var chains', entries' := chains[b := Replaced(chain, i, h)], entries[tags[h] := h];
    ReplacedItems(chain, i, h);
    forall c: nat, n: nat | In(chains, c, n) && !(c == b && i < |chain| && n == chain[i])
      ensures Sits(tags, entries', c, n, |chains|)
    {
      assert Sits(tags, entries, c, n, |chains|);
    }
    forall c: nat, n: nat | In(chains', c, n) ensures Sits(tags, entries', c, n, |chains'|) {
      assert (n == h && c == b) || In(chains, c, n);
    }
    forall t | t in entries'
      ensures entries'[t] < |tags| && tags[entries'[t]] == t && In(chains', Masked(t.hash, |chains|), entries'[t])
    {
      if t != tags[h] {
        assert In(chains, Masked(t.hash, |chains|), entries[t]);
        assert i < |chain| ==> entries[t] != chain[i];
      }
    }
  }

  lemma NotLinked(tags: seq<Tag>, chains: seq<seq<nat>>, entries: map<Tag, nat>, h: nat)
    requires Holds(tags, chains, entries) && Unlinked(entries, h)
    ensures forall c: nat :: !In(chains, c, h)
  {
    forall c: nat ensures !In(chains, c, h) {
      if In(chains, c, h) { assert false; }
    }
  }

  /** A store through a slot of bucket `b` leaves the other buckets alone. */
  lemma StoreElsewhere(tags: seq<Tag>, chains: seq<seq<nat>>, entries: map<Tag, nat>, b: nat, i: nat, link: Link,
                       list: seq<Link>, nextHash: seq<Link>, list': seq<Link>, nextHash': seq<Link>)
    requires Holds(tags, chains, entries) && |chains| == |list| && b < |list| && i <= |chains[b]|
    requires forall c: nat, n: nat :: In(chains, c, n) ==> n < |nextHash|
    requires InRange(SlotAt(b, chains[b], i), list, nextHash)
    requires (list', nextHash') == Write(SlotAt(b, chains[b], i), link, list, nextHash)
    ensures |list'| == |list| && |nextHash'| == |nextHash|
    ensures forall c: nat :: c < |list| && c != b ==> list'[c] == list[c]
    ensures forall c: nat, n: nat :: In(chains, c, n) && c != b ==> nextHash'[n] == nextHash[n]
  {
    assert i > 0 ==> In(chains, b, chains[b][i - 1]);
    forall c: nat, n: nat | In(chains, c, n) && c != b ensures !In(chains, b, n) {
      assert Sits(tags, entries, c, n, |chains|);
    }
  }

  lemma InsertRep(tags: seq<Tag>, list: seq<Link>, nextHash: seq<Link>, chains: seq<seq<nat>>, entries: map<Tag, nat>,
                  h: nat, b: nat, i: nat, list': seq<Link>, nextHash': seq<Link>)
    requires Rep(tags, list, nextHash, chains, entries) && h < |tags| && b == Masked(tags[h].hash, |list|)
    requires Unlinked(entries, h)
    requires Position(chains[b], entries, tags[h], i)
    requires i < |chains[b]| ==> chains[b][i] < |nextHash|
    requires var nh := nextHash[h := if i == |chains[b]| then Nil else nextHash[chains[b][i]]];
             && InRange(SlotAt(b, chains[b], i), list, nh)
             && (list', nextHash') == Write(SlotAt(b, chains[b], i), To(h), list, nh)
    ensures Rep(tags, list', nextHash', chains[b := Replaced(chains[b], i, h)], entries[tags[h] := h]) == true
    ensures |list'| == |list|
  {
    var chain := chains[b];
    assert Chained(list, nextHash, b, chain) == true;
    NotLinked(tags, chains, entries, h);
    assert !In(chains, b, h);
    ReplaceChained(list, nextHash, b, chain, i, h, list', nextHash');
    var nh := nextHash[h := if i == |chain| then Nil else nextHash[chain[i]]];
    assert forall c: nat, n: nat :: In(chains, c, n) ==> Sits(tags, entries, c, n, |chains|);
    StoreElsewhere(tags, chains, entries, b, i, To(h), list, nh, list', nextHash');
    OthersChained(tags, list, nextHash, chains, entries, b, Replaced(chain, i, h), list', nextHash');
    InsertHolds(tags, chains, entries, h, b, i, chain);
  }

  /** What stands at the place found is the entry of the tag, if it has one. */
  lemma Displaced(chain: seq<nat>, entries: map<Tag, nat>, tag: Tag, h: nat, i: nat)
    requires Position(chain, entries, tag, i)
    ensures Item(chain, i) == if tag in entries then To(entries[tag]) else Nil
    ensures |entries[tag := h]| == if tag in entries then |entries| else |entries| + 1
  {
    if tag in entries {
      assert entries[tag := h].Keys == entries.Keys;
    } else {
      assert entries[tag := h].Keys == entries.Keys + {tag};
    }
    assert |entries[tag := h]| == |entries[tag := h].Keys| && |entries| == |entries.Keys|;
  }

  lemma ReplacedItems(chain: seq<nat>, i: nat, h: nat)
    requires i <= |chain| && forall j, k :: 0 <= j < k < |chain| ==> chain[j] != chain[k]
    requires h !in chain
    ensures forall n :: n in Replaced(chain, i, h) <==> n == h || (n in chain && !(i < |chain| && n == chain[i]))
  {
    var r := Replaced(chain, i, h);
    assert r[i] == h;
    forall n | n in chain && !(i < |chain| && n == chain[i]) ensures n in r {
      var j :| 0 <= j < |chain| && chain[j] == n;
      assert r[j] == n;
    }
  }

  lemma WithoutItems(chain: seq<nat>, i: nat)
    requires i < |chain| && forall j, k :: 0 <= j < k < |chain| ==> chain[j] != chain[k]
    ensures forall n :: n in Without(chain, i) <==> n in chain && n != chain[i]
  {
    var r := Without(chain, i);
    forall n | n in chain && n != chain[i] ensures n in r {
      var j :| 0 <= j < |chain| && chain[j] == n;
      assert r[if j < i then j else j - 1] == n;
    }
  }

  lemma RemoveHolds(tags: seq<Tag>, chains: seq<seq<nat>>, entries: map<Tag, nat>, tag: Tag, b: nat, i: nat, chain: seq<nat>)
    requires Holds(tags, chains, entries) && chains != [] && b == Masked(tag.hash, |chains|) && tag in entries
    requires chain == chains[b] && Position(chain, entries, tag, i)
    requires forall j, k :: 0 <= j < k < |chain| ==> chain[j] != chain[k]
    ensures Holds(tags, chains[b := Without(chain, i)], entries - {tag})
  {
    var chains', entries' := chains[b := Without(chain, i)], entries - {tag};
    WithoutItems(chain, i);
    forall c: nat, n: nat | In(chains', c, n) ensures Sits(tags, entries', c, n, |chains'|) {
      assert In(chains, c, n);
    }
    forall t | t in entries'
      ensures entries'[t] < |tags| && tags[entries'[t]] == t && In(chains', Masked(t.hash, |chains|), entries'[t])
    {
      assert In(chains, Masked(t.hash, |chains|), entries[t]);
    }
  }

  lemma RemoveRep(tags: seq<Tag>, list: seq<Link>, nextHash: seq<Link>, chains: seq<seq<nat>>, entries: map<Tag, nat>,
                  tag: Tag, b: nat, i: nat, list': seq<Link>, nextHash': seq<Link>)
    requires Rep(tags, list, nextHash, chains, entries) && tag in entries && b == Masked(tag.hash, |list|)
    requires Position(chains[b], entries, tag, i)
    requires InRange(SlotAt(b, chains[b], i), list, nextHash)
    requires chains[b][i] < |nextHash|
    requires (list', nextHash') == Write(SlotAt(b, chains[b], i), nextHash[chains[b][i]], list, nextHash)
    ensures Rep(tags, list', nextHash', chains[b := Without(chains[b], i)], entries - {tag})
  {
    var chain := chains[b];
    assert Chained(list, nextHash, b, chain) == true;
    RemoveChained(list, nextHash, b, chain, i, list', nextHash');
    assert i > 0 ==> In(chains, b, chain[i - 1]);
    assert forall c: nat, n: nat :: In(chains, c, n) && c != b ==> !In(chains, b, n);
    OthersChained(tags, list, nextHash, chains, entries, b, Without(chain, i), list', nextHash');
    RemoveHolds(tags, chains, entries, tag, b, i, chain);
  }

  // ---- Moving to a longer list ----

  /** Item `j` of old chain `b` is still to be moved when the walk is at item `k` of chain `i`. */
  predicate Ahead(b: nat, j: nat, i: nat, k: nat) {
    b > i || (b == i && j >= k)
  }

  /** What has not been moved yet is linked as it was. */
  ghost predicate Unmoved(nextHash: seq<Link>, chains: seq<seq<nat>>, moved: set<nat>, i: nat, k: nat) {
    forall b: nat, j: nat :: b < |chains| && j < |chains[b]| ==> UnmovedAt(nextHash, chains[b], moved, j, Ahead(b, j, i, k))
  }

  ghost predicate UnmovedAt(nextHash: seq<Link>, chain: seq<nat>, moved: set<nat>, j: nat, ahead: bool) {
    && j < |chain| && chain[j] < |nextHash|
    && (chain[j] in moved <==> !ahead)
    && (ahead ==> nextHash[chain[j]] == Item(chain, j + 1))
  }

  /** What has been moved is in the chain of its new bucket, and nothing else is. */
  ghost predicate Moved(tags: seq<Tag>, chains: seq<seq<nat>>, moved: set<nat>) {
    forall c: nat, n: nat :: In(chains, c, n) <==> c < |chains| && n in moved && n < |tags| && Masked(tags[n].hash, |chains|) == c
  }

  lemma PushChained(list: seq<Link>, nextHash: seq<Link>, b: nat, chain: seq<nat>, h: nat)
    requires b < |list| && Chained(list, nextHash, b, chain) && h < |nextHash| && h !in chain
    ensures Chained(list[b := To(h)], nextHash[h := list[b]], b, [h] + chain)
  {
    var list', nextHash', chain' := list[b := To(h)], nextHash[h := list[b]], [h] + chain;
    assert Read(SlotAt(b, chain, 0), list, nextHash) == Item(chain, 0);
    forall j: nat | j <= |chain'|
      ensures InRange(SlotAt(b, chain', j), list', nextHash') && Read(SlotAt(b, chain', j), list', nextHash') == Item(chain', j)
    {
      if j > 1 { assert Read(SlotAt(b, chain, j - 1), list, nextHash) == Item(chain, j - 1); }
    }
  }

  /** A handle in no chain goes to the front of one. */
  lemma PushAll(list: seq<Link>, nextHash: seq<Link>, chains: seq<seq<nat>>, h: nat, c: nat)
    requires AllChained(list, nextHash, chains) && h < |nextHash| && c < |list|
    requires forall d: nat :: !In(chains, d, h)
    ensures AllChained(list[c := To(h)], nextHash[h := list[c]], chains[c := [h] + chains[c]])
  {
    var list', nextHash', chains' := list[c := To(h)], nextHash[h := list[c]], chains[c := [h] + chains[c]];
    forall d: nat | d < |list'| ensures Chained(list', nextHash', d, chains'[d]) == true {
      assert Chained(list, nextHash, d, chains[d]) == true;
      assert !In(chains, d, h);
      if d == c { PushChained(list, nextHash, c, chains[c], h); } else { OtherChain(list, nextHash, d, chains[d], list', nextHash'); }
    }
  }

  lemma UnmovedAfter(nextHash: seq<Link>, was: seq<seq<nat>>, moved: set<nat>, i: nat, k: nat, h: nat, link: Link)
    requires i < |was| && k < |was[i]| && h == was[i][k] && h < |nextHash| && Unmoved(nextHash, was, moved, i, k)
    requires forall b: nat, j: nat :: b < |was| && j < |was[b]| && (b != i || j != k) ==> was[b][j] != h
    ensures Unmoved(nextHash[h := link], was, moved + {h}, i, k + 1)
  {
    var after := k + 1;
    forall b: nat, j: nat | b < |was| && j < |was[b]|
      ensures UnmovedAt(nextHash[h := link], was[b], moved + {h}, j, Ahead(b, j, i, after))
    {
      assert UnmovedAt(nextHash, was[b], moved, j, Ahead(b, j, i, k));
      assert Ahead(b, j, i, k) <==> Ahead(b, j, i, after) || (b == i && j == k);
    }
  }

  lemma MovedAfter(tags: seq<Tag>, chains: seq<seq<nat>>, moved: set<nat>, h: nat, c: nat)
    requires Moved(tags, chains, moved) && h < |tags| && chains != [] && c == Masked(tags[h].hash, |chains|)
    ensures Moved(tags, chains[c := [h] + chains[c]], moved + {h})
  {
    var chains' := chains[c := [h] + chains[c]];
    forall d: nat, n: nat
      ensures In(chains', d, n) <==> d < |chains'| && n in moved + {h} && n < |tags| && Masked(tags[n].hash, |chains'|) == d
    {
      assert In(chains', d, n) <==> In(chains, d, n) || (d == c && n == h);
    }
  }

  /** What has been moved was in the table. */
  ghost predicate FromSome(was: seq<seq<nat>>, moved: set<nat>) {
    forall n :: n in moved ==> exists b: nat :: In(was, b, n)
  }

  /** The first `i` buckets have been moved, and the first `k` handles of the next. */
  ghost predicate Moving(tags: seq<Tag>, nextHash: seq<Link>, was: seq<seq<nat>>, moved: set<nat>, i: nat, k: nat,
                         list: seq<Link>, chains: seq<seq<nat>>)
  {
    && |list| == |chains| && |nextHash| == |tags| && FromSome(was, moved) == true
    && Unmoved(nextHash, was, moved, i, k) == true && AllChained(list, nextHash, chains) == true
    && Moved(tags, chains, moved) == true
  }

  /** Item `k` of old chain `i` goes to the front of its new chain. */
  lemma MoveOne(tags: seq<Tag>, nextHash: seq<Link>, was: seq<seq<nat>>, i: nat, k: nat, moved: set<nat>,
                list: seq<Link>, chains: seq<seq<nat>>, h: nat, c: nat)
    requires i < |was| && k < |was[i]| && h == was[i][k] && h < |tags| && list != []
    requires Moving(tags, nextHash, was, moved, i, k, list, chains)
    requires forall b: nat, j: nat :: b < |was| && j < |was[b]| && (b != i || j != k) ==> was[b][j] != h
    requires c == Masked(tags[h].hash, |list|)
    ensures Moving(tags, nextHash[h := list[c]], was, moved + {h}, i, k + 1, list[c := To(h)], chains[c := [h] + chains[c]]) == true
  {
    assert UnmovedAt(nextHash, was[i], moved, k, Ahead(i, k, i, k));
    assert In(was, i, h);
    PushAll(list, nextHash, chains, h, c);
    UnmovedAfter(nextHash, was, moved, i, k, h, list[c]);
    MovedAfter(tags, chains, moved, h, c);
  }

  /** Everything moved. */
  lemma MovedAll(tags: seq<Tag>, entries: map<Tag, nat>, was: seq<seq<nat>>, moved: set<nat>, chains: seq<seq<nat>>)
    requires Holds(tags, was, entries) && was != [] && chains != [] && Moved(tags, chains, moved)
    requires forall b: nat, n: nat :: In(was, b, n) ==> n in moved
    requires FromSome(was, moved)
    ensures Holds(tags, chains, entries)
  {
    forall c: nat, n: nat | In(chains, c, n) ensures Sits(tags, entries, c, n, |chains|) {
      var b: nat :| In(was, b, n);
      assert Sits(tags, entries, b, n, |was|);
    }
    forall t | t in entries
      ensures entries[t] < |tags| && tags[entries[t]] == t && In(chains, Masked(t.hash, |chains|), entries[t])
    {
      assert In(was, Masked(t.hash, |was|), entries[t]);
    }
  }

  // ---- The table ----

  class HandleTable {
    var tags: seq<Tag>
    var nextHash: seq<Link>
    var list: seq<Link>
    var elems: nat
    ghost var chains: seq<seq<nat>>
    ghost var entries: map<Tag, nat>

    ghost predicate Linked()
      reads this
    {
      Rep(tags, list, nextHash, chains, entries) == true && elems == |entries| && LengthOk(|list|) == true
    }

    /** No more handles than buckets: what the source aims for is a chain length of at most one on average. */
    ghost predicate Valid()
      reads this
    {
      Linked() && elems <= |list|
    }

    constructor ()
      ensures Valid() && tags == [] && entries == map[] && |list| == 4
    {
      tags, nextHash, list, elems := [], [], [Nil, Nil, Nil, Nil], 0;
      chains, entries := [[], [], [], []], map[];
      assert PowerOfTwo(2) && LengthOk(4);
    }

    /** The slot that points to the matching handle, or the trailing slot of the bucket. */
    method FindPointer(tag: Tag) returns (slot: Slot, ghost i: nat)
      requires Valid()
      ensures var b := Masked(tag.hash, |list|);
              && Position(chains[b], entries, tag, i) && slot == SlotAt(b, chains[b], i) && InRange(slot, list, nextHash)
              && Read(slot, list, nextHash) == Item(chains[b], i) && (i < |chains[b]| ==> chains[b][i] < |tags|)
    {
      var b := Masked(tag.hash, |list|);
      ghost var chain := chains[b];
      assert Chained(list, nextHash, b, chain) == true;
      slot, i := Bucket(b), 0;
      assert slot == SlotAt(b, chain, i);
      assert i < |chain| ==> In(chains, b, chain[i]);
      while Read(slot, list, nextHash).To? && tags[Read(slot, list, nextHash).handle] != tag
        invariant i <= |chain| && slot == SlotAt(b, chain, i) && InRange(slot, list, nextHash)
        invariant Read(slot, list, nextHash) == Item(chain, i)
        invariant Item(chain, i).To? ==> Item(chain, i).handle < |tags|
        invariant forall j :: 0 <= j < i ==> chain[j] < |tags| && tags[chain[j]] != tag
        decreases |chain| - i
      {
        assert In(chains, b, chain[i]);
        slot, i := NextOf(Read(slot, list, nextHash).handle), i + 1;
        assert slot == SlotAt(b, chain, i);
        assert i < |chain| ==> In(chains, b, chain[i]);
      }
      assert i < |chain| ==> In(chains, b, chain[i]) && Sits(tags, entries, b, chain[i], |chains|);
      assert tag in entries ==> In(chains, b, entries[tag]);
    }

    method Lookup(tag: Tag) returns (found: Link)
      requires Valid()
      ensures found == if tag in entries then To(entries[tag]) else Nil
    {
      ghost var i;
      var slot;
      slot, i := FindPointer(tag);
      found := Read(slot, list, nextHash);
    }

    /** Link a handle in, in the place of the one with the same tag if there is one. */
    method LinkIn(h: nat) returns (displaced: Link)
      requires Valid() && h < |tags| && Unlinked(entries, h) == true
      modifies this`list, this`nextHash, this`elems, this`chains, this`entries
      ensures Linked() == true && |list| == |old(list)| && (displaced != Nil ==> elems == old(elems))
      ensures entries == old(entries)[tags[h] := h]
      ensures displaced == if tags[h] in old(entries) then To(old(entries)[tags[h]]) else Nil
    {
      ghost var i;
      var slot;
      slot, i := FindPointer(tags[h]);
      ghost var b := Masked(tags[h].hash, |list|);
      displaced := Read(slot, list, nextHash);
      Displaced(chains[b], entries, tags[h], h, i);
      var nh := nextHash[h := if displaced == Nil then Nil else nextHash[displaced.handle]];
      var (list', nextHash') := Write(slot, To(h), list, nh);
      InsertRep(tags, list, nextHash, chains, entries, h, b, i, list', nextHash');
      ghost var chains', entries' := chains[b := Replaced(chains[b], i, h)], entries[tags[h] := h];
      var elems' := if displaced == Nil then elems + 1 else elems;
      assert Rep(tags, list', nextHash', chains', entries') == true && elems' == |entries'|;
      list, nextHash, elems := list', nextHash', elems';
      chains, entries := chains', entries';
    }

    /** Add a handle, replacing the one with the same tag. */
    method Insert(h: nat) returns (displaced: Link)
      requires Valid() && h < |tags| && Unlinked(entries, h) == true
      modifies this
      ensures Valid() && tags == old(tags)
      ensures entries == old(entries)[tags[h] := h]
      ensures displaced == if tags[h] in old(entries) then To(old(entries)[tags[h]]) else Nil
      ensures |entries| <= |old(list)| ==> |list| == |old(list)|
    {
      displaced := LinkIn(h);
      if displaced == Nil && elems > |list| {
        Resize();
      }
    }

    method Remove(tag: Tag) returns (result: Link)
      requires Valid()
      modifies this
      ensures Valid() && tags == old(tags)
      ensures entries == old(entries) - {tag}
      ensures result == if tag in old(entries) then To(old(entries)[tag]) else Nil
    {
      ghost var i;
      var slot;
      slot, i := FindPointer(tag);
      result := Read(slot, list, nextHash);
      if result != Nil {
        ghost var b := Masked(tag.hash, |list|);
        var (list', nextHash') := Write(slot, nextHash[result.handle], list, nextHash);
        RemoveRep(tags, list, nextHash, chains, entries, tag, b, i, list', nextHash');
        list, nextHash := list', nextHash';
        chains, entries := chains[b := Without(chains[b], i)], entries - {tag};
        elems := elems - 1;
      }
    }

    /** A handle nobody has linked yet. */
    method Allocate(tag: Tag) returns (h: nat)
      requires Valid()
      modifies this
      ensures Valid() && entries == old(entries)
      ensures h == |old(tags)| && tags == old(tags) + [tag]
    {
      h := |tags|;
      forall b: nat | b < |list| ensures Chained(list, nextHash + [Nil], b, chains[b]) == true {
        assert Chained(list, nextHash, b, chains[b]) == true;
        OtherChain(list, nextHash, b, chains[b], list, nextHash + [Nil]);
      }
      tags, nextHash := tags + [tag], nextHash + [Nil];
    }

    /** Move the handles of one bucket, one after the other. */
    method MoveBucket(i: nat, list0: seq<Link>, ghost chains0: seq<seq<nat>>, ghost moved0: set<nat>, ghost nh: seq<Link>)
      returns (newList: seq<Link>, ghost newChains: seq<seq<nat>>, ghost moved: set<nat>)
      requires Rep(tags, list, nh, chains, entries) == true && i < |list| == |chains| && list[i] == Item(chains[i], 0)
      requires list0 != [] && Moving(tags, nextHash, chains, moved0, i, 0, list0, chains0) == true
      modifies this`nextHash
      ensures |newList| == |list0| && Moving(tags, nextHash, chains, moved, i + 1, 0, newList, newChains) == true
    {
      newList, newChains, moved := list0, chains0, moved0;
      var h := list[i];
      ghost var k: nat := 0;
      while h.To?
        invariant k <= |chains[i]| && h == Item(chains[i], k) && |newList| == |list0|
        invariant Moving(tags, nextHash, chains, moved, i, k, newList, newChains) == true
        decreases |chains[i]| - k
      {
        assert UnmovedAt(nextHash, chains[i], moved, k, Ahead(i, k, i, k));
        var n := h.handle;
        var next := nextHash[n];
        var c := Masked(tags[n].hash, |newList|);
        OnePlace(tags, list, nh, chains, entries, i, k);
        MoveOne(tags, nextHash, chains, i, k, moved, newList, newChains, n, c);
        nextHash := nextHash[n := newList[c]];
        newList := newList[c := To(n)];
        newChains, moved, k := newChains[c := [n] + newChains[c]], moved + {n}, k + 1;
        h := next;
      }
      NextBucket(nextHash, chains, moved, i, k);
    }

    /** Move every handle to its bucket in a list of at least `elems` buckets. */
    method Resize()
      requires Linked()
      modifies this
      ensures Valid() && tags == old(tags) && entries == old(entries)
      ensures |list| > 4 ==> |list| < 2 * elems
    {
      var newLength := LengthFor(elems);
      var newList := seq(newLength, _ => Nil);
      ghost var newChains: seq<seq<nat>>, moved: set<nat> := seq(newLength, _ => []), {};
      ghost var nh := nextHash;
      StartMoving(tags, list, nh, chains, entries);
      var i: nat := 0;
      while i < |list|
        invariant i <= |list| && |newList| == newLength
        invariant Moving(tags, nextHash, chains, moved, i, 0, newList, newChains) == true
        decreases |list| - i
        modifies this`nextHash
      {
        BucketHead(tags, list, nh, chains, entries, i);
        newList, newChains, moved := MoveBucket(i, newList, newChains, moved, nh);
        i := i + 1;
      }
      NothingLeft(nextHash, chains, moved, i);
      MovedAll(tags, entries, chains, moved, newChains);
      list, chains := newList, newChains;
    }
  }

  /** When every bucket has been gone through, every handle has been moved. */
  lemma NothingLeft(nextHash: seq<Link>, chains: seq<seq<nat>>, moved: set<nat>, i: nat)
    requires Unmoved(nextHash, chains, moved, i, 0) && i >= |chains|
    ensures forall b: nat, n: nat :: In(chains, b, n) ==> n in moved
  {
    forall b: nat, n: nat | In(chains, b, n) ensures n in moved {
      var j: nat :| j < |chains[b]| && chains[b][j] == n;
      assert UnmovedAt(nextHash, chains[b], moved, j, Ahead(b, j, i, 0));
    }
  }

  lemma StartMoving(tags: seq<Tag>, list: seq<Link>, nextHash: seq<Link>, chains: seq<seq<nat>>, entries: map<Tag, nat>)
    requires Rep(tags, list, nextHash, chains, entries)
    ensures Unmoved(nextHash, chains, {}, 0, 0)
  {
    forall b: nat, j: nat | b < |chains| && j < |chains[b]|
      ensures UnmovedAt(nextHash, chains[b], {}, j, Ahead(b, j, 0, 0))
    {
      assert Chained(list, nextHash, b, chains[b]) == true;
      assert Read(SlotAt(b, chains[b], j + 1), list, nextHash) == Item(chains[b], j + 1);
    }
  }

  lemma BucketHead(tags: seq<Tag>, list: seq<Link>, nextHash: seq<Link>, chains: seq<seq<nat>>, entries: map<Tag, nat>, i: nat)
    requires Rep(tags, list, nextHash, chains, entries) && i < |list|
    ensures list[i] == Item(chains[i], 0)
  {
    assert Chained(list, nextHash, i, chains[i]) == true;
    assert Read(SlotAt(i, chains[i], 0), list, nextHash) == Item(chains[i], 0);
  }

  /** No handle is linked twice. */
  lemma OnePlace(tags: seq<Tag>, list: seq<Link>, nextHash: seq<Link>, chains: seq<seq<nat>>, entries: map<Tag, nat>,
                 i: nat, k: nat)
    requires Rep(tags, list, nextHash, chains, entries) && i < |chains| && k < |chains[i]|
    ensures forall b: nat, j: nat ::
              b < |chains| && j < |chains[b]| && (b != i || j != k) ==> chains[b][j] != chains[i][k]
  {
    assert Chained(list, nextHash, i, chains[i]) == true;
    assert In(chains, i, chains[i][k]);
    forall b: nat, j: nat | b < |chains| && j < |chains[b]| && (b != i || j != k)
      ensures chains[b][j] != chains[i][k]
    {
      assert In(chains, b, chains[b][j]);
      assert Sits(tags, entries, b, chains[b][j], |chains|) && Sits(tags, entries, i, chains[i][k], |chains|);
    }
  }

  lemma NextBucket(nextHash: seq<Link>, chains: seq<seq<nat>>, moved: set<nat>, i: nat, k: nat)
    requires i < |chains| && k >= |chains[i]| && Unmoved(nextHash, chains, moved, i, k)
    ensures Unmoved(nextHash, chains, moved, i + 1, 0)
  {
    var after := i + 1;
    forall b: nat, j: nat | b < |chains| && j < |chains[b]|
      ensures UnmovedAt(nextHash, chains[b], moved, j, Ahead(b, j, after, 0))
    {
      assert UnmovedAt(nextHash, chains[b], moved, j, Ahead(b, j, i, k));
      assert Ahead(b, j, after, 0) <==> Ahead(b, j, i, k);
    }
  }
}
