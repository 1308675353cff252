/** A skip list with one writer and lock-free readers (db/skiplist.h).

    Every atomic load and store is one step, in one global order.  A node is its index in the arena; the head
    is node 0.  Beside the links, the state names the nodes published at each level.
 */
module SkipLists {

  type Key = real

  const MAX_HEIGHT := 12

  datatype Link = Null | To(node: nat)

  datatype Node = Node(key: Key, next: seq<Link>)

  datatype List = List(nodes: seq<Node>, maxHeight: nat, levels: seq<set<nat>>)

  // ---- What holds after every single store ----

  /** Has node `x` been published at level `i`? */
  predicate At(s: List, x: nat, i: nat) {
    i < |s.levels| && x in s.levels[i]
  }

  ghost predicate Shape(s: List) {
    && 1 <= s.maxHeight <= MAX_HEIGHT && |s.levels| == MAX_HEIGHT
    && s.nodes != [] && |s.nodes[0].next| == MAX_HEIGHT
    && forall i: nat, x: nat {:trigger At(s, x, i)} :: At(s, x, i) ==> 0 < x < |s.nodes| && i < |s.nodes[x].next|
  }

  /** Is node `y` beyond node `x`?  The head comes before every node. */
  predicate Beyond(s: List, y: nat, x: nat)
    requires x < |s.nodes| && y < |s.nodes|
  {
    x == 0 || s.nodes[x].key < s.nodes[y].key
  }

  /** May a reader stand on `x` at level `i`? */
  predicate On(s: List, x: nat, i: nat) {
    x == 0 || At(s, x, i)
  }

  /** `next` is the published node of level `i` that comes right after `x`, or there is none. */
  ghost predicate Successor(s: List, i: nat, x: nat, next: Link)
    requires Shape(s) && i < MAX_HEIGHT && On(s, x, i)
  {
    match next
    case Null => forall z: nat :: At(s, z, i) ==> !Beyond(s, z, x)
    case To(y) =>
      && At(s, y, i) && Beyond(s, y, x)
      && forall z: nat :: At(s, z, i) && Beyond(s, z, x) ==> s.nodes[y].key <= s.nodes[z].key
  }

  ghost predicate Ordered(s: List, i: nat)
    requires Shape(s) && i < MAX_HEIGHT
  {
    forall x: nat :: On(s, x, i) ==> Successor(s, i, x, s.nodes[x].next[i])
  }

  /** Every level is a sorted list, the levels are sublists of each other, and no key is there twice. */
  ghost predicate Wf(s: List) {
    && Shape(s)
    && (forall i: nat :: 0 <= i < MAX_HEIGHT ==> Ordered(s, i))
    && (forall i: nat, j: nat, x: nat :: i <= j && At(s, x, j) ==> At(s, x, i))
    && (forall i: nat :: s.maxHeight <= i < MAX_HEIGHT ==> s.levels[i] == {})
    && (forall x: nat, y: nat :: At(s, x, 0) && At(s, y, 0) && s.nodes[x].key == s.nodes[y].key ==> x == y)
  }

  ghost function Keys(s: List): set<Key>
    requires Shape(s)
  {
    set x | x in s.levels[0] && At(s, x, 0) :: s.nodes[x].key
  }

  // ---- Searching: one load per step ----

  /** What a search is for: the first key at or after `key`, the last key before it, or the last key. */
  datatype Goal = AtOrAfter(key: Key) | Before(key: Key) | Last

  predicate Passes(s: List, goal: Goal, y: nat)
    requires y < |s.nodes|
  {
    goal.Last? || s.nodes[y].key < goal.key
  }

  datatype Reader = Searching(goal: Goal, x: nat, level: nat) | Found(goal: Goal, x: nat, next: Link)

  function StartSearch(s: List, goal: Goal): Reader
    requires s.maxHeight > 0
  {
    Searching(goal, 0, s.maxHeight - 1)
  }

  ghost predicate ReaderOk(s: List, r: Reader)
    requires Shape(s)
  {
    r.Searching? ==> r.level < MAX_HEIGHT && On(s, r.x, r.level) && (r.x != 0 ==> Passes(s, r.goal, r.x))
  }

  /** Load one link and act on it (skiplist.h:260-322). */
  function ReaderStep(s: List, r: Reader): Reader
    requires Wf(s) && r.Searching? && ReaderOk(s, r)
  {
    assert Ordered(s, r.level);
    assert Successor(s, r.level, r.x, s.nodes[r.x].next[r.level]);
    var next := s.nodes[r.x].next[r.level];
    if next.To? && Passes(s, r.goal, next.node) then Searching(r.goal, next.node, r.level)
    else if r.level == 0 then Found(r.goal, r.x, next)
    else Searching(r.goal, r.x, r.level - 1)
  }

  /** `next` is the first published node that does not pass, and `x` the last one that does. */
  ghost predicate Right(s: List, goal: Goal, x: nat, next: Link)
    requires Shape(s)
  {
    && On(s, x, 0) && Successor(s, 0, x, next)
    && (forall z: nat :: At(s, z, 0) && Passes(s, goal, z) <==> At(s, z, 0) && !Beyond(s, z, x))
    && match next
       case Null => forall z: nat :: At(s, z, 0) ==> Passes(s, goal, z)
       case To(y) =>
         && At(s, y, 0) && !Passes(s, goal, y)
         && forall z: nat :: At(s, z, 0) && !Passes(s, goal, z) ==> s.nodes[y].key <= s.nodes[z].key
  }

  /** A search that ends is right about the list as it was at its last load. */
  lemma SearchIsRight(s: List, r: Reader)
    requires Wf(s) && r.Searching? && ReaderOk(s, r)
    ensures var r' := ReaderStep(s, r);
            ReaderOk(s, r') && (r'.Found? ==> Right(s, r.goal, r'.x, r'.next))
  {
    assert Ordered(s, r.level);
    var next := s.nodes[r.x].next[r.level];
    assert Successor(s, r.level, r.x, next);
    if !(next.To? && Passes(s, r.goal, next.node)) && r.level > 0 {
      assert r.x == 0 || At(s, r.x, r.level - 1);
    }
  }

  lemma NextIsThere(s: List, x: nat, i: nat)
    requires Wf(s) && i < MAX_HEIGHT && On(s, x, i)
    ensures s.nodes[x].next[i].To? ==> At(s, s.nodes[x].next[i].node, i)
  {
    assert Ordered(s, i);
    assert Successor(s, i, x, s.nodes[x].next[i]);
  }

  // ---- Inserting: one store per step ----

  /** `p` is where `key` goes at level `i`. */
  ghost predicate Gap(s: List, i: nat, p: nat, key: Key)
    requires Wf(s) && i < MAX_HEIGHT
  {
    && On(s, p, i) && (p != 0 ==> s.nodes[p].key < key)
    && forall z: nat :: At(s, z, i) && Beyond(s, z, p) ==> key < s.nodes[z].key
  }

  function StoreMaxHeight(s: List, height: nat): List {
    if height > s.maxHeight then s.(maxHeight := height) else s
  }

  function NewNode(s: List, key: Key, height: nat): List {
    s.(nodes := s.nodes + [Node(key, seq(height, _ => Null))])
  }

  function SetNext(s: List, x: nat, i: nat, next: Link): List
    requires x < |s.nodes| && i < |s.nodes[x].next|
  {
    s.(nodes := s.nodes[x := Node(s.nodes[x].key, s.nodes[x].next[i := next])])
  }

  function Fill(s: List, n: nat, i: nat, p: nat): List
    requires n < |s.nodes| && p < |s.nodes| && i < |s.nodes[n].next| && i < |s.nodes[p].next|
  {
    SetNext(s, n, i, s.nodes[p].next[i])
  }

  function Publish(s: List, n: nat, i: nat, p: nat): List
    requires n < |s.nodes| && p < |s.nodes| && i < |s.nodes[p].next| && i < |s.levels|
  {
    SetNext(s, p, i, To(n)).(levels := s.levels[i := s.levels[i] + {n}])
  }

  /** Nothing a reader can rely on is taken away. */
  ghost predicate Grows(s: List, t: List) {
    && Shape(s) && Shape(t) && |s.nodes| <= |t.nodes|
    && (forall x: nat :: 0 <= x < |s.nodes| ==> t.nodes[x].key == s.nodes[x].key)
    && (forall i: nat, x: nat :: At(s, x, i) ==> At(t, x, i))
  }

  lemma ReaderStays(s: List, t: List, r: Reader)
    requires Grows(s, t) && ReaderOk(s, r)
    ensures ReaderOk(t, r)
  {}

  /** Levels and keys as before, and links of published nodes too. */
  ghost predicate SameLinks(s: List, t: List) {
    && Shape(s) && Shape(t) && s.levels == t.levels && |s.nodes| <= |t.nodes|
    && (forall i: nat, x: nat :: At(s, x, i) <==> At(t, x, i))
    && (forall x: nat :: 0 <= x < |s.nodes| ==> t.nodes[x].key == s.nodes[x].key)
    && (forall i: nat, x: nat :: 0 <= i < MAX_HEIGHT && On(s, x, i) ==> t.nodes[x].next[i] == s.nodes[x].next[i])
  }

  lemma SameLinksWf(s: List, t: List)
    requires Wf(s) && SameLinks(s, t) && s.maxHeight <= t.maxHeight
    ensures Wf(t)
  {
    forall i | 0 <= i < MAX_HEIGHT ensures Ordered(t, i) {
      assert Ordered(s, i);
      forall x: nat | On(t, x, i) ensures Successor(t, i, x, t.nodes[x].next[i]) {
        assert Successor(s, i, x, s.nodes[x].next[i]);
      }
    }
  }

  lemma StoreMaxHeightKeeps(s: List, height: nat)
    requires Wf(s) && 1 <= height <= MAX_HEIGHT
    ensures Wf(StoreMaxHeight(s, height)) && Grows(s, StoreMaxHeight(s, height))
  {
    var t := StoreMaxHeight(s, height);
    assert forall j: nat, x: nat :: At(t, x, j) <==> At(s, x, j);
    SameLinksWf(s, t);
  }

  lemma NewNodeKeeps(s: List, key: Key, height: nat)
    requires Wf(s)
    ensures Wf(NewNode(s, key, height)) && Grows(s, NewNode(s, key, height))
  {
    var t := NewNode(s, key, height);
    assert forall j: nat, x: nat :: At(t, x, j) <==> At(s, x, j);
    SameLinksWf(s, t);
  }

  /** A link of a node not yet published at a level may be anything. */
  lemma FillKeeps(s: List, n: nat, i: nat, p: nat)
    requires Wf(s) && i < MAX_HEIGHT && 0 < n < |s.nodes| && i < |s.nodes[n].next| && On(s, p, i) && !At(s, n, i)
    ensures Wf(Fill(s, n, i, p)) && Grows(s, Fill(s, n, i, p))
  {
    var t := Fill(s, n, i, p);
    assert forall j: nat, x: nat :: At(t, x, j) <==> At(s, x, j);
    SameLinksWf(s, t);
  }

  /** What a publishing store changes: one link, and the level's nodes. */
  ghost predicate Published(s: List, t: List, n: nat, i: nat, p: nat) {
    && Shape(s) && Shape(t) && |t.nodes| == |s.nodes| && t.maxHeight == s.maxHeight
    && (forall x: nat :: x < |s.nodes| ==> t.nodes[x].key == s.nodes[x].key)
    && (forall x: nat, j: nat :: At(t, x, j) <==> At(s, x, j) || (x == n && j == i))
    && (forall x: nat, j: nat :: On(s, x, j) && j < MAX_HEIGHT && !(x == p && j == i) ==> t.nodes[x].next[j] == s.nodes[x].next[j])
    && On(s, p, i) && i < MAX_HEIGHT && n < |s.nodes| && i < |s.nodes[n].next| && i < |t.nodes[n].next| && t.nodes[p].next[i] == To(n)
    && (n != p ==> t.nodes[n].next[i] == s.nodes[n].next[i])
  }

  lemma PublishShape(s: List, n: nat, i: nat, p: nat)
    requires Shape(s) && i < MAX_HEIGHT && 0 < n < |s.nodes| && i < |s.nodes[n].next| && On(s, p, i) && n != p
    ensures Published(s, Publish(s, n, i, p), n, i, p)
  {
    var t := Publish(s, n, i, p);
    assert forall x: nat, j: nat :: At(t, x, j) <==> At(s, x, j) || (x == n && j == i);
  }

  /** Publishing a filled node in its gap keeps the level sorted. */
  lemma PublishOrdered(s: List, n: nat, i: nat, p: nat, t: List)
    requires Wf(s) && Published(s, t, n, i, p) && 0 < n < |s.nodes| && i < |s.nodes[n].next| && !At(s, n, i)
    requires Gap(s, i, p, s.nodes[n].key) && s.nodes[n].next[i] == s.nodes[p].next[i]
    ensures Ordered(t, i)
  {
    assert Ordered(s, i);
    assert Successor(s, i, p, s.nodes[p].next[i]);
    forall x: nat | On(t, x, i) ensures Successor(t, i, x, t.nodes[x].next[i]) {
      if x == n {
        assert t.nodes[x].next[i] == s.nodes[p].next[i];
      } else if x != p {
        assert On(s, x, i);
        assert Successor(s, i, x, s.nodes[x].next[i]);
      }
    }
  }

  lemma PublishOthers(s: List, n: nat, i: nat, p: nat, t: List, j: nat)
    requires Wf(s) && Published(s, t, n, i, p) && j < MAX_HEIGHT && i != j
    ensures Ordered(t, j)
  {
    assert Ordered(s, j);
    forall x: nat | On(t, x, j) ensures Successor(t, j, x, t.nodes[x].next[j]) {
      assert On(s, x, j);
      assert Successor(s, j, x, s.nodes[x].next[j]);
    }
  }

  lemma PublishKeeps(s: List, n: nat, i: nat, p: nat)
    requires Wf(s) && i < s.maxHeight && 0 < n < |s.nodes| && i < |s.nodes[n].next|
    requires forall j: nat :: j < MAX_HEIGHT ==> (At(s, n, j) <==> j < i)
    requires Gap(s, i, p, s.nodes[n].key) && s.nodes[n].next[i] == s.nodes[p].next[i]
    requires i == 0 ==> s.nodes[n].key !in Keys(s)
    ensures var t := Publish(s, n, i, p);
            && Wf(t) && Grows(s, t)
            && Keys(t) == if i == 0 then Keys(s) + {s.nodes[n].key} else Keys(s)
  {
    var t := Publish(s, n, i, p);
    PublishShape(s, n, i, p);
    PublishOrdered(s, n, i, p, t);
    forall j: nat | j < MAX_HEIGHT && j != i ensures Ordered(t, j) {
      PublishOthers(s, n, i, p, t, j);
    }
    PublishKeys(s, n, i, p, t);
  }

  lemma PublishKeys(s: List, n: nat, i: nat, p: nat, t: List)
    requires Wf(s) && Published(s, t, n, i, p) && i < s.maxHeight && 0 < n < |s.nodes|
    requires forall j: nat :: j < MAX_HEIGHT ==> (At(s, n, j) <==> j < i)
    requires i == 0 ==> s.nodes[n].key !in Keys(s)
    ensures forall x: nat, y: nat :: At(t, x, 0) && At(t, y, 0) && t.nodes[x].key == t.nodes[y].key ==> x == y
    ensures forall k: nat, j: nat, x: nat :: k <= j && At(t, x, j) ==> At(t, x, k)
    ensures forall k: nat :: t.maxHeight <= k < MAX_HEIGHT ==> t.levels[k] == {}
    ensures Keys(t) == if i == 0 then Keys(s) + {s.nodes[n].key} else Keys(s)
  {
    forall x: nat, y: nat | At(t, x, 0) && At(t, y, 0) && t.nodes[x].key == t.nodes[y].key ensures x == y {
      if x != n && At(s, x, 0) { assert s.nodes[x].key in Keys(s); }
      if y != n && At(s, y, 0) { assert s.nodes[y].key in Keys(s); }
    }
    forall k: nat | t.maxHeight <= k < MAX_HEIGHT ensures t.levels[k] == {} {
      forall x: nat ensures x !in t.levels[k] {
        assert !At(s, x, k);
        assert At(t, x, k) <==> x in t.levels[k];
      }
    }
    assert forall x: nat :: At(t, x, 0) <==> At(s, x, 0) || (x == n && i == 0);
    forall k | k in Keys(t) ensures k in Keys(s) || (i == 0 && k == s.nodes[n].key) {
      var x :| x in t.levels[0] && At(t, x, 0) && t.nodes[x].key == k;
      assert At(s, x, 0) || (x == n && i == 0);
      assert At(s, x, 0) ==> s.nodes[x].key in Keys(s);
    }
    forall k | k in Keys(s) ensures k in Keys(t) {
      var x :| x in s.levels[0] && At(s, x, 0) && s.nodes[x].key == k;
      assert At(t, x, 0);
    }
    if i == 0 { assert At(t, n, 0); }
  }

  /** Publishing at one level leaves the gaps of the levels above. */
  lemma GapStays(s: List, t: List, j: nat, p: nat, key: Key)
    requires Wf(s) && Wf(t) && Grows(s, t) && j < MAX_HEIGHT && t.levels[j] == s.levels[j] && Gap(s, j, p, key)
    ensures Gap(t, j, p, key)
  {
    assert forall x: nat :: At(t, x, j) <==> At(s, x, j);
  }

  // ---- The list as a reader walks it ----

  /** Published nodes of level `i` beyond `x`. */
  ghost function Ahead(s: List, i: nat, x: nat): set<nat>
    requires Shape(s) && i < MAX_HEIGHT && On(s, x, i)
  {
    set z: nat | z in s.levels[i] && At(s, z, i) && Beyond(s, z, x)
  }

  lemma AheadShrinks(s: List, i: nat, x: nat, y: nat)
    requires Wf(s) && i < MAX_HEIGHT && On(s, x, i) && s.nodes[x].next[i] == To(y)
    ensures At(s, y, i) && Ahead(s, i, x) == Ahead(s, i, y) + {y} && y !in Ahead(s, i, y)
  {
    assert Ordered(s, i);
    assert Successor(s, i, x, s.nodes[x].next[i]);
    forall z | z in Ahead(s, i, x) && z != y ensures z in Ahead(s, i, y) {
      assert At(s, z, 0) && At(s, y, 0);
    }
  }

  /** The nodes met by following the links of level `i` from `x`. */
  ghost function Walk(s: List, i: nat, x: nat): seq<nat>
    requires Wf(s) && i < MAX_HEIGHT && On(s, x, i)
    decreases |Ahead(s, i, x)|
  {
    match s.nodes[x].next[i]
    case Null => []
    case To(y) =>
      AheadShrinks(s, i, x, y);
      [y] + Walk(s, i, y)
  }

  lemma WalkStep(s: List, i: nat, x: nat, y: nat)
    requires Wf(s) && i < MAX_HEIGHT && On(s, x, i) && s.nodes[x].next[i] == To(y)
    ensures At(s, y, i) && Walk(s, i, x) == [y] + Walk(s, i, y)
  {
    AheadShrinks(s, i, x, y);
  }

  /** Walking a level visits every node published there beyond `x`, and no other. */
  lemma {:induction false} WalkVisits(s: List, i: nat, x: nat)
    requires Wf(s) && i < MAX_HEIGHT && On(s, x, i)
    ensures forall z :: z in Walk(s, i, x) <==> z in Ahead(s, i, x)
    decreases |Ahead(s, i, x)|
  {
    assert Ordered(s, i);
    assert Successor(s, i, x, s.nodes[x].next[i]);
    match s.nodes[x].next[i]
    case Null =>
      assert Walk(s, i, x) == [];
      assert forall z: nat :: z in Ahead(s, i, x) ==> At(s, z, i);
    case To(y) =>
      AheadShrinks(s, i, x, y);
      WalkVisits(s, i, y);
      WalkStep(s, i, x, y);
  }

  ghost predicate KeysIncrease(s: List, w: seq<nat>) {
    && (forall j :: 0 <= j < |w| ==> w[j] < |s.nodes|)
    && forall j, k :: 0 <= j < k < |w| ==> s.nodes[w[j]].key < s.nodes[w[k]].key
  }

  /** ... once each, in key order. */
  lemma {:induction false} WalkSorted(s: List, i: nat, x: nat)
    requires Wf(s) && i < MAX_HEIGHT && On(s, x, i)
    ensures KeysIncrease(s, Walk(s, i, x))
    decreases |Ahead(s, i, x)|
  {
    if s.nodes[x].next[i].To? {
      var y := s.nodes[x].next[i].node;
      AheadShrinks(s, i, x, y);
      WalkSorted(s, i, y);
      WalkVisits(s, i, y);
      WalkStep(s, i, x, y);
      var v := Walk(s, i, y);
      forall k | 0 <= k < |v| ensures v[k] < |s.nodes| && s.nodes[y].key < s.nodes[v[k]].key {
        assert v[k] in v;
        assert At(s, v[k], i);
      }
      Prepended(s, y, v);
    }
  }

  lemma Prepended(s: List, y: nat, v: seq<nat>)
    requires KeysIncrease(s, v) && y < |s.nodes|
    requires forall k :: 0 <= k < |v| ==> v[k] < |s.nodes| && s.nodes[y].key < s.nodes[v[k]].key
    ensures KeysIncrease(s, [y] + v)
  {}

  // ---- One writer, any number of readers ----

  datatype Writer =
    | Idle
    | Seeking(key: Key, reader: Reader, prev: seq<nat>)
    | Linking(key: Key, node: nat, height: nat, prev: seq<nat>, i: nat, filled: bool)

  datatype System = System(list: List, writer: Writer, readers: seq<Reader>)

  datatype Step = Begin(key: Key) | Write | Choose(height: nat) | Start(goal: Goal) | Load(reader: nat)

  /** Where the writer's key goes, at every level it has still to link. */
  ghost predicate Gaps(s: List, key: Key, prev: seq<nat>, from: nat, to: nat)
    requires Wf(s)
  {
    |prev| == MAX_HEIGHT && forall j: nat :: from <= j < to && j < MAX_HEIGHT ==> Gap(s, j, prev[j], key) == true
  }

  ghost predicate WriterOk(s: List, w: Writer)
    requires Wf(s)
  {
    match w
    case Idle => true
    case Seeking(key, r, prev) =>
      && key !in Keys(s) && ReaderOk(s, r) && r.goal == AtOrAfter(key)
      && Gaps(s, key, prev, if r.Searching? then r.level + 1 else 0, s.maxHeight)
    case Linking(key, n, height, prev, i, filled) =>
      && i < height <= s.maxHeight && 0 < n < |s.nodes| && s.nodes[n].key == key && |s.nodes[n].next| == height
      && Gaps(s, key, prev, i, height)
      && (forall j: nat :: j < MAX_HEIGHT ==> (At(s, n, j) <==> j < i))
      && (i == 0 ==> key !in Keys(s))
      && (filled ==> s.nodes[n].next[i] == s.nodes[prev[i]].next[i])
  }

  ghost predicate SystemOk(y: System) {
    Wf(y.list) && WriterOk(y.list, y.writer) && forall r :: r in y.readers ==> ReaderOk(y.list, r)
  }

  /** Inserting a key that is there already is the caller's error, as in the source. */
  ghost predicate Enabled(y: System, a: Step)
    requires Wf(y.list)
  {
    match a
    case Begin(key) => y.writer == Idle && key !in Keys(y.list)
    case Choose(height) => y.writer.Seeking? && y.writer.reader.Found? && 1 <= height <= MAX_HEIGHT
    case Write => (y.writer.Seeking? && y.writer.reader.Searching?) || y.writer.Linking?
    case Start(_) => true
    case Load(r) => r < |y.readers| && y.readers[r].Searching?
  }

  /** Record where a finished level of the writer's search stopped. */
  function Recorded(prev: seq<nat>, r: Reader, r': Reader): seq<nat>
    requires r.Searching? && r.level < |prev|
  {
    if r'.Found? || r'.level < r.level then prev[r.level := r.x] else prev
  }

  function HeadFrom(prev: seq<nat>, from: nat): (r: seq<nat>)
    ensures |r| == |prev|
    ensures forall j :: 0 <= j < |r| ==> r[j] == if j < from then prev[j] else 0
  {
    seq(|prev|, j requires 0 <= j < |prev| => if j < from then prev[j] else 0)
  }

  function Next(y: System, a: Step): System
    requires SystemOk(y) && Enabled(y, a)
  {
    var s := y.list;
    match a
    case Begin(key) => y.(writer := Seeking(key, StartSearch(s, AtOrAfter(key)), seq(MAX_HEIGHT, _ => 0)))
    case Choose(height) =>
      var w := y.writer;
      var prev := HeadFrom(w.prev, s.maxHeight);
      y.(list := NewNode(StoreMaxHeight(s, height), w.key, height),
         writer := Linking(w.key, |s.nodes|, height, prev, 0, false))
    case Write =>
      var w := y.writer;
      if w.Seeking? then
        var r := ReaderStep(s, w.reader);
        y.(writer := Seeking(w.key, r, Recorded(w.prev, w.reader, r)))
      else
        assert Gap(s, w.i, w.prev[w.i], w.key);
        if !w.filled then y.(list := Fill(s, w.node, w.i, w.prev[w.i]), writer := w.(filled := true))
        else
          y.(list := Publish(s, w.node, w.i, w.prev[w.i]),
             writer := if w.i + 1 < w.height then w.(i := w.i + 1, filled := false) else Idle)
    case Start(goal) => y.(readers := y.readers + [StartSearch(s, goal)])
    case Load(r) => y.(readers := y.readers[r := ReaderStep(s, y.readers[r])])
  }

  // ---- Every step keeps it ----

  lemma ReadersStay(y: System, t: List)
    requires SystemOk(y) && Grows(y.list, t)
    ensures forall r :: r in y.readers ==> ReaderOk(t, r)
  {
    forall r | r in y.readers ensures ReaderOk(t, r) {
      ReaderStays(y.list, t, r);
    }
  }

  /** Where a level of the writer's search stops is where the key goes. */
  lemma StopIsGap(s: List, r: Reader, key: Key)
    requires Wf(s) && r.Searching? && ReaderOk(s, r) && r.goal == AtOrAfter(key) && key !in Keys(s)
    requires var r' := ReaderStep(s, r); r'.Found? || r'.level < r.level
    ensures Gap(s, r.level, r.x, key)
  {
    assert Ordered(s, r.level);
    assert Successor(s, r.level, r.x, s.nodes[r.x].next[r.level]);
    forall z: nat | At(s, z, r.level) && Beyond(s, z, r.x) ensures key < s.nodes[z].key {
      assert At(s, z, 0);
      assert s.nodes[z].key in Keys(s);
    }
  }

  lemma SeekKeeps(y: System)
    requires SystemOk(y) && Enabled(y, Write) && y.writer.Seeking?
    ensures SystemOk(Next(y, Write))
  {
    var s, w := y.list, y.writer;
    SearchIsRight(s, w.reader);
    var r := ReaderStep(s, w.reader);
    if r.Found? || r.level < w.reader.level {
      StopIsGap(s, w.reader, w.key);
    }
    assert y.readers == Next(y, Write).readers;
  }

  lemma HeadIsGap(s: List, i: nat, key: Key)
    requires Wf(s) && s.maxHeight <= i < MAX_HEIGHT
    ensures Gap(s, i, 0, key)
  {
    assert forall z: nat :: !At(s, z, i);
  }

  lemma ChooseKeeps(y: System, height: nat)
    requires SystemOk(y) && Enabled(y, Choose(height))
    ensures SystemOk(Next(y, Choose(height)))
  {
    var s, w := y.list, y.writer;
    var t := StoreMaxHeight(s, height);
    var u := NewNode(t, w.key, height);
    var n := |s.nodes|;
    StoreMaxHeightKeeps(s, height);
    NewNodeKeeps(t, w.key, height);
    assert Grows(s, u);
    ReadersStay(y, u);
    var prev := HeadFrom(w.prev, s.maxHeight);
    forall j: nat | j < MAX_HEIGHT ensures Gap(u, j, prev[j], w.key) {
      if j < s.maxHeight { assert Gap(s, j, w.prev[j], w.key) == true; } else { HeadIsGap(s, j, w.key); }
      assert Gap(s, j, prev[j], w.key);
      GapStays(s, u, j, prev[j], w.key);
    }
    assert forall j: nat :: !At(s, n, j) && (At(u, n, j) <==> At(s, n, j));
    assert Keys(u) == Keys(s);
  }

  lemma FillStep(y: System)
    requires SystemOk(y) && Enabled(y, Write) && y.writer.Linking? && !y.writer.filled
    ensures SystemOk(Next(y, Write))
  {
    var s, w := y.list, y.writer;
    assert Gap(s, w.i, w.prev[w.i], w.key);
    var t := Fill(s, w.node, w.i, w.prev[w.i]);
    FillKeeps(s, w.node, w.i, w.prev[w.i]);
    ReadersStay(y, t);
    assert t.levels == s.levels && Keys(t) == Keys(s);
    forall j: nat | w.i <= j < w.height ensures Gap(t, j, w.prev[j], w.key) == true {
      GapStays(s, t, j, w.prev[j], w.key);
    }
    assert w.prev[w.i] != w.node;
  }

  lemma PublishStep(y: System)
    requires SystemOk(y) && Enabled(y, Write) && y.writer.Linking? && y.writer.filled
    ensures SystemOk(Next(y, Write))
    ensures Keys(Next(y, Write).list) == if y.writer.i == 0 then Keys(y.list) + {y.writer.key} else Keys(y.list)
  {
    var s, w := y.list, y.writer;
    assert Gap(s, w.i, w.prev[w.i], w.key);
    var t := Publish(s, w.node, w.i, w.prev[w.i]);
    PublishKeeps(s, w.node, w.i, w.prev[w.i]);
    PublishShape(s, w.node, w.i, w.prev[w.i]);
    ReadersStay(y, t);
    forall j: nat | w.i + 1 <= j < w.height ensures Gap(t, j, w.prev[j], w.key) == true {
      GapStays(s, t, j, w.prev[j], w.key);
    }
  }

  lemma LoadKeeps(y: System, r: nat)
    requires SystemOk(y) && Enabled(y, Load(r))
    ensures SystemOk(Next(y, Load(r)))
  {
    SearchIsRight(y.list, y.readers[r]);
  }

  /** After every single load and store the list is in order, and every reader stands where it may. */
  lemma StepKeeps(y: System, a: Step)
    requires SystemOk(y) && Enabled(y, a)
    ensures SystemOk(Next(y, a))
  {
    match a
    case Begin(key) =>
      assert Gaps(y.list, key, seq(MAX_HEIGHT, _ => 0), y.list.maxHeight, y.list.maxHeight);
    case Choose(height) => ChooseKeeps(y, height);
    case Write =>
      if y.writer.Seeking? { SeekKeeps(y); } else if y.writer.filled { PublishStep(y); } else { FillStep(y); }
    case Start(goal) =>
    case Load(r) => LoadKeeps(y, r);
  }

  /** The contents change at one kind of step only: when a new node is published at the lowest level. */
  lemma StepKeys(y: System, a: Step)
    requires SystemOk(y) && Enabled(y, a)
    ensures SystemOk(Next(y, a))
    ensures Keys(Next(y, a).list)
            == if a == Write && y.writer.Linking? && y.writer.filled && y.writer.i == 0
               then Keys(y.list) + {y.writer.key} else Keys(y.list)
  {
    StepKeeps(y, a);
    if a == Write && y.writer.Linking? && y.writer.filled {
      PublishStep(y);
    } else {
      assert Next(y, a).list.levels == y.list.levels;
    }
  }

  /** A reader that finishes is right about the list at the instant of its last load. */
  lemma LoadIsRight(y: System, r: nat)
    requires SystemOk(y) && Enabled(y, Load(r)) && Next(y, Load(r)).readers[r].Found?
    ensures var f := Next(y, Load(r)).readers[r];
            f.goal == y.readers[r].goal && Right(y.list, f.goal, f.x, f.next)
  {
    SearchIsRight(y.list, y.readers[r]);
  }

  function Empty(): List {
    List([Node(0.0, seq(MAX_HEIGHT, _ => Null))], 1, seq(MAX_HEIGHT, _ => {}))
  }

  lemma EmptyWf()
    ensures Wf(Empty()) && Keys(Empty()) == {}
  {
    var s := Empty();
    assert forall x: nat, i: nat :: !At(s, x, i);
  }

  /** Whether steps can be taken one after the other; that the system is in order at each of them is StepKeeps. */
  ghost predicate Run(y: System, steps: seq<Step>)
    requires SystemOk(y)
    decreases |steps|
  {
    if steps == [] then true
    else Enabled(y, steps[0]) && (StepKeeps(y, steps[0]); Run(Next(y, steps[0]), steps[1..]))
  }

  ghost function After(y: System, steps: seq<Step>): System
    requires SystemOk(y) && Run(y, steps)
    decreases |steps|
  {
    if steps == [] then y
    else
      StepKeeps(y, steps[0]);
      After(Next(y, steps[0]), steps[1..])
  }

  /** In every run from the empty list, under every interleaving and choice of heights. */
  lemma {:induction false} RunKeeps(y: System, steps: seq<Step>)
    requires SystemOk(y) && Run(y, steps)
    ensures SystemOk(After(y, steps)) && Keys(y.list) <= Keys(After(y, steps).list)
    decreases |steps|
  {
    if steps != [] {
      StepKeys(y, steps[0]);
      RunKeeps(Next(y, steps[0]), steps[1..]);
    }
  }

  // ---- The list as its single writer uses it ----

  /** Node `n` has been linked in on the lowest `i` of its levels, and no other node has come or gone. */
  ghost predicate Raised(s: List, t: List, n: nat, i: nat, height: nat) {
    && |s.levels| == |t.levels| == MAX_HEIGHT && i <= height <= MAX_HEIGHT
    && forall j: nat :: j < MAX_HEIGHT ==> t.levels[j] == if j < i then s.levels[j] + {n} else s.levels[j]
  }

  lemma RaisedMore(s: List, t: List, u: List, n: nat, i: nat, height: nat)
    requires Raised(s, t, n, i, height) == true && i < height && |u.levels| == MAX_HEIGHT
    requires u.levels == t.levels[i := t.levels[i] + {n}]
    ensures Raised(s, u, n, i + 1, height) == true
  {}

  ghost predicate SameKeys(s: List, t: List) {
    |s.nodes| == |t.nodes| && forall x: nat :: x < |s.nodes| ==> t.nodes[x].key == s.nodes[x].key
  }

  lemma StillSameKeys(s: List, t: List, u: List)
    requires SameKeys(s, t) == true && SameKeys(t, u)
    ensures SameKeys(s, u) == true
  {}

  class SkipList {
    var s: List

    constructor ()
      ensures Valid() && Keys(s) == {}
    {
      s := Empty();
      EmptyWf();
    }

    ghost predicate Valid()
      reads this
    {
      Wf(s)
    }

    /** The first node at or after `key`; `prev` gets, at every level, the node before it. */
    method FindGreaterOrEqual(key: Key, prev: array?<nat>) returns (next: Link, ghost x: nat)
      requires Valid() && (prev != null ==> prev.Length == MAX_HEIGHT)
      modifies prev
      ensures Right(s, AtOrAfter(key), x, next)
      ensures prev != null && key !in Keys(s) ==> Gaps(s, key, prev[..], 0, s.maxHeight)
    {
      var node: nat, level: nat := 0, s.maxHeight - 1;
      ghost var goal := AtOrAfter(key);
      while true
        invariant level < MAX_HEIGHT && ReaderOk(s, Searching(goal, node, level))
        invariant prev != null && key !in Keys(s) ==> Gaps(s, key, prev[..], level + 1, s.maxHeight)
        decreases level, |Ahead(s, level, node)|
      {
        SearchIsRight(s, Searching(goal, node, level));
        NextIsThere(s, node, level);
        next := s.nodes[node].next[level];
        if next.To? && s.nodes[next.node].key < key {
          AheadShrinks(s, level, node, next.node);
          node := next.node;
        } else {
          if key !in Keys(s) { StopIsGap(s, Searching(goal, node, level), key); }
          if prev != null { prev[level] := node; }
          if level == 0 {
            x := node;
            return;
          }
          level := level - 1;
        }
      }
    }

    /** The last node before `key`, or the head. */
    method FindLessThan(key: Key) returns (x: nat, ghost next: Link)
      requires Valid()
      ensures Right(s, Before(key), x, next)
    {
      var level: nat := s.maxHeight - 1;
      x := 0;
      while true
        invariant level < MAX_HEIGHT && ReaderOk(s, Searching(Before(key), x, level))
        decreases level, |Ahead(s, level, x)|
      {
        SearchIsRight(s, Searching(Before(key), x, level));
        NextIsThere(s, x, level);
        var n := s.nodes[x].next[level];
        if n == Null || s.nodes[n.node].key >= key {
          if level == 0 {
            return x, n;
          }
          level := level - 1;
        } else {
          AheadShrinks(s, level, x, n.node);
          x := n.node;
        }
      }
    }

    /** The last node, or the head. */
    method FindLast() returns (x: nat, ghost next: Link)
      requires Valid()
      ensures Right(s, Last, x, next)
    {
      var level: nat := s.maxHeight - 1;
      x := 0;
      while true
        invariant level < MAX_HEIGHT && ReaderOk(s, Searching(Last, x, level))
        decreases level, |Ahead(s, level, x)|
      {
        SearchIsRight(s, Searching(Last, x, level));
        var n := s.nodes[x].next[level];
        if n == Null {
          if level == 0 {
            return x, n;
          }
          level := level - 1;
        } else {
          AheadShrinks(s, level, x, n.node);
          x := n.node;
        }
      }
    }

    method Contains(key: Key) returns (there: bool)
      requires Valid()
      ensures there <==> key in Keys(s)
    {
      ghost var x;
      var next;
      next, x := FindGreaterOrEqual(key, null);
      there := next.To? && s.nodes[next.node].key == key;
      if key in Keys(s) {
        var z :| z in s.levels[0] && At(s, z, 0) && s.nodes[z].key == key;
        assert !Passes(s, AtOrAfter(key), z);
      }
    }

    /** Fill in the links of a new node and publish it, from the lowest level up. */
    method Link(key: Key, n: nat, height: nat, prev: array<nat>)
      requires Valid() && prev.Length == MAX_HEIGHT && height > 0
      requires WriterOk(s, Linking(key, n, height, prev[..], 0, false))
      modifies this
      ensures Valid() && Keys(s) == old(Keys(s)) + {key}
      ensures Raised(old(s), s, n, height, height) == true && s.maxHeight == old(s.maxHeight) && SameKeys(old(s), s) == true
    {
      ghost var p := prev[..];
      for i: nat := 0 to height
        invariant prev[..] == p && Wf(s) == true
        invariant WriterOk(s, if i == height then Idle else Linking(key, n, height, p, i, false)) == true
        invariant Keys(s) == if i == 0 then old(Keys(s)) else old(Keys(s)) + {key}
        invariant Raised(old(s), s, n, i, height) == true && s.maxHeight == old(s.maxHeight) && SameKeys(old(s), s) == true
      {
        ghost var before := s;
        ghost var w := System(s, Linking(key, n, height, p, i, false), []);
        StepKeys(w, Write);
        StepKeys(Next(w, Write), Write);
        assert Gap(s, i, p[i], key);
        s := Publish(Fill(s, n, i, prev[i]), n, i, prev[i]);
        RaisedMore(old(s), before, s, n, i, height);
        StillSameKeys(old(s), before, s);
      }
    }

    /** Every store of an insertion leaves the list in order; at the end it holds one key more. */
    method Insert(key: Key, height: nat)
      requires Valid() && key !in Keys(s) && 1 <= height <= MAX_HEIGHT
      modifies this
      ensures Valid() && Keys(s) == old(Keys(s)) + {key}
      ensures |s.nodes| == |old(s.nodes)| + 1 && s.nodes[|old(s.nodes)|].key == key
      ensures Raised(old(s), s, |old(s.nodes)|, height, height) == true
      ensures s.maxHeight == if height > old(s.maxHeight) then height else old(s.maxHeight)
    {
      var prev := new nat[MAX_HEIGHT](_ => 0);
      ghost var at;
      var x;
      x, at := FindGreaterOrEqual(key, prev);
      ghost var before := prev[..];
      StepKeys(System(s, Seeking(key, Found(AtOrAfter(key), at, x), before), []), Choose(height));
      if height > s.maxHeight {
        for i: nat := s.maxHeight to height
          invariant s == old(s)
          invariant forall j :: 0 <= j < MAX_HEIGHT ==> prev[j] == (if s.maxHeight <= j < i then 0 else before[j])
        {
          prev[i] := 0;
        }
      }
      ghost var p := HeadFrom(before, s.maxHeight);
      ghost var t := NewNode(StoreMaxHeight(s, height), key, height);
      LinkingAgrees(t, key, |s.nodes|, height, p, prev[..]);
      s := StoreMaxHeight(s, height);
      s := NewNode(s, key, height);
      Link(key, |s.nodes| - 1, height, prev);
    }
  }

  /** Entries of `prev` above the new node's height do not matter. */
  lemma LinkingAgrees(s: List, key: Key, n: nat, height: nat, p: seq<nat>, q: seq<nat>)
    requires Wf(s) && WriterOk(s, Linking(key, n, height, p, 0, false)) && |q| == MAX_HEIGHT
    requires forall j :: 0 <= j < height ==> q[j] == p[j]
    ensures WriterOk(s, Linking(key, n, height, q, 0, false))
  {
    forall j: nat | j < height ensures Gap(s, j, q[j], key) == true {
      assert Gap(s, j, p[j], key) == true;
    }
  }
}
