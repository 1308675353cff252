/** Merging sorted children into one cursor, with direction changes (table/merger). */
module MergingIterator {
  import opened Options

  // Keys are only compared; see InternalKeys on why reals stand for any comparator's order.
  type Key = real

  ghost predicate Ascending(l: seq<Key>) {
    forall i, j :: 0 <= i < j < |l| ==> l[i] < l[j]
  }

  /** Every child is sorted and no key occurs in two children. */
  ghost predicate GoodLists(lists: seq<seq<Key>>) {
    && (forall c :: 0 <= c < |lists| ==> Ascending(lists[c]))
    && (forall c, d, i, j :: 0 <= c < d < |lists| && 0 <= i < |lists[c]| && 0 <= j < |lists[d]| ==>
          lists[c][i] != lists[d][j])
  }

  ghost predicate InUnion(lists: seq<seq<Key>>, k: Key) {
    exists c, i :: 0 <= c < |lists| && 0 <= i < |lists[c]| && lists[c][i] == k
  }

  // ---- The cursor over the union ----

  /** A place between keys. */
  datatype Cut = Start | Below(k: Key) | UpTo(k: Key) | End

  predicate Before(cut: Cut, x: Key) {
    match cut
    case Start => false
    case Below(k) => x < k
    case UpTo(k) => x <= k
    case End => true
  }

  ghost predicate FirstAfter(lists: seq<seq<Key>>, cut: Cut, r: Option<Key>) {
    match r
    case Some(k) => InUnion(lists, k) && !Before(cut, k)
                    && forall x :: InUnion(lists, x) && !Before(cut, x) ==> k <= x
    case None => forall x :: InUnion(lists, x) ==> Before(cut, x)
  }

  ghost predicate LastBefore(lists: seq<seq<Key>>, cut: Cut, r: Option<Key>) {
    match r
    case Some(k) => InUnion(lists, k) && Before(cut, k)
                    && forall x :: InUnion(lists, x) && Before(cut, x) ==> x <= k
    case None => forall x :: InUnion(lists, x) ==> !Before(cut, x)
  }

  // ---- One child ----

  /** `p` is the first position of `l` after the cut. */
  ghost predicate AtCut(l: seq<Key>, p: int, cut: Cut) {
    && 0 <= p <= |l|
    && (forall j :: 0 <= j < p ==> Before(cut, l[j]))
    && (forall j :: p <= j < |l| ==> !Before(cut, l[j]))
  }

  /** `p` is the last position of `l` before the cut. */
  ghost predicate UnderCut(l: seq<Key>, p: int, cut: Cut) {
    -1 <= p && AtCut(l, p + 1, cut)
  }

  function LowerBound(l: seq<Key>, k: Key): (p: nat)
    ensures p <= |l|
    ensures forall j :: 0 <= j < p ==> l[j] < k
    ensures p < |l| ==> k <= l[p]
  {
    if l == [] || k <= l[0] then 0 else 1 + LowerBound(l[1..], k)
  }

  datatype Direction = Forward | Reverse

  class Merger {
    const lists: seq<seq<Key>>
    const children: array<int>
    var current: int
    var direction: Direction

    constructor (lists: seq<seq<Key>>)
      requires GoodLists(lists)
      ensures this.lists == lists && At(None) && fresh(children)
    {
      this.lists := lists;
      children := new int[|lists|](_ => -1);
      current, direction := -1, Forward;
    }

    ghost predicate Shaped() {
      GoodLists(lists) && children.Length == |lists|
    }

    predicate ChildValid(c: int)
      requires 0 <= c < |lists| == children.Length
      reads children
    {
      0 <= children[c] < |lists[c]|
    }

    function ChildKey(c: int): Key
      requires 0 <= c < |lists| == children.Length && ChildValid(c)
      reads children
    {
      lists[c][children[c]]
    }

    /** The merger stands at key `r`, or is not valid.  Moving forward every other child is at its first key
        after `r`; moving backward, at its last key before. */
    ghost predicate At(r: Option<Key>)
      reads this, children
    {
      && Shaped()
      && match r
         case None => current == -1
         case Some(k) =>
           && 0 <= current < |lists| && ChildValid(current) && ChildKey(current) == k
           && forall c :: 0 <= c < |lists| && c != current ==>
                if direction == Forward then AtCut(lists[c], children[c], UpTo(k))
                else UnderCut(lists[c], children[c], Below(k))
    }

    // ---- Choosing the child to show ----

    /** From children all at a cut, the smallest key after it (merger.cc:148-161). */
    method FindSmallest(ghost cut: Cut) returns (ghost r: Option<Key>)
      requires Shaped() && direction == Forward
      requires forall c :: 0 <= c < |lists| ==> AtCut(lists[c], children[c], cut)
      modifies this`current
      ensures At(r) && FirstAfter(lists, cut, r)
    {
      var smallest := -1;
      for i := 0 to |lists|
        invariant -1 <= smallest < |lists|
        invariant smallest == -1 ==> forall c :: 0 <= c < i ==> !ChildValid(c)
        invariant smallest >= 0 ==> ChildValid(smallest)
        invariant smallest >= 0 ==> forall c :: 0 <= c < i && ChildValid(c) ==> ChildKey(smallest) <= ChildKey(c)
      {
        if ChildValid(i) {
          if smallest == -1 {
            smallest := i;
          } else if ChildKey(i) < ChildKey(smallest) {
            smallest := i;
          }
        }
      }
      current := smallest;
      r := if smallest == -1 then None else Some(ChildKey(smallest));
      if smallest >= 0 {
        forall c | 0 <= c < |lists| && 0 <= children[c] < |lists[c]|
          ensures lists[smallest][children[smallest]] <= lists[c][children[c]]
        {
          assert ChildValid(c) && ChildKey(smallest) <= ChildKey(c);
        }
        SmallestIsFirst(lists, children[..], smallest, cut);
      } else {
        forall x | InUnion(lists, x) ensures Before(cut, x) {
          var c, i :| 0 <= c < |lists| && 0 <= i < |lists[c]| && lists[c][i] == x;
          assert !ChildValid(c);
        }
      }
    }

    /** From children all under a cut, the largest key before it (merger.cc:163-176). */
    method FindLargest(ghost cut: Cut) returns (ghost r: Option<Key>)
      requires Shaped() && direction == Reverse
      requires forall c :: 0 <= c < |lists| ==> UnderCut(lists[c], children[c], cut)
      modifies this`current
      ensures At(r) && LastBefore(lists, cut, r)
    {
      var largest := -1;
      var i := |lists| - 1;
      while i >= 0
        invariant -1 <= i < |lists|
        invariant -1 <= largest < |lists|
        invariant largest == -1 ==> forall c :: i < c < |lists| ==> !ChildValid(c)
        invariant largest >= 0 ==> ChildValid(largest)
        invariant largest >= 0 ==> forall c :: i < c < |lists| && ChildValid(c) ==> ChildKey(c) <= ChildKey(largest)
      {
        if ChildValid(i) {
          if largest == -1 {
            largest := i;
          } else if ChildKey(i) > ChildKey(largest) {
            largest := i;
          }
        }
        i := i - 1;
      }
      current := largest;
      r := if largest == -1 then None else Some(ChildKey(largest));
      if largest >= 0 {
        forall c | 0 <= c < |lists| && 0 <= children[c] < |lists[c]|
          ensures lists[c][children[c]] <= lists[largest][children[largest]]
        {
          assert ChildValid(c) && ChildKey(c) <= ChildKey(largest);
        }
        LargestIsLast(lists, children[..], largest, cut);
      } else {
        forall x | InUnion(lists, x) ensures !Before(cut, x) {
          var c, j :| 0 <= c < |lists| && 0 <= j < |lists[c]| && lists[c][j] == x;
          assert !ChildValid(c);
        }
      }
    }

    // ---- Moves ----

    method SeekToFirst() returns (ghost r: Option<Key>)
      requires Shaped()
      modifies this, children
      ensures At(r) && FirstAfter(lists, Start, r)
    {
      for i := 0 to |lists|
        invariant forall c :: 0 <= c < i ==> AtCut(lists[c], children[c], Start)
      {
        children[i] := 0;
      }
      direction := Forward;
      r := FindSmallest(Start);
    }

    method SeekToLast() returns (ghost r: Option<Key>)
      requires Shaped()
      modifies this, children
      ensures At(r) && LastBefore(lists, End, r)
    {
      for i := 0 to |lists|
        invariant forall c :: 0 <= c < i ==> UnderCut(lists[c], children[c], End)
      {
        children[i] := |lists[i]| - 1;
      }
      direction := Reverse;
      r := FindLargest(End);
    }

    method Seek(target: Key) returns (ghost r: Option<Key>)
      requires Shaped()
      modifies this, children
      ensures At(r) && FirstAfter(lists, Below(target), r)
    {
      for i := 0 to |lists|
        invariant forall c :: 0 <= c < i ==> AtCut(lists[c], children[c], Below(target))
      {
        children[i] := LowerBound(lists[i], target);
      }
      direction := Forward;
      r := FindSmallest(Below(target));
    }

    /** Put a child at its first key after `key` (merger.cc:67-71). */
    method SeekPast(i: nat, key: Key)
      requires Shaped() && i < |lists|
      modifies children
      ensures AtCut(lists[i], children[i], UpTo(key))
      ensures forall c :: 0 <= c < |lists| && c != i ==> children[c] == old(children[c])
    {
      children[i] := LowerBound(lists[i], key);
      if ChildValid(i) && key == ChildKey(i) {
        children[i] := children[i] + 1;
      }
    }

    /** Put a child at its last key before `key` (merger.cc:93-100). */
    method SeekUnder(i: nat, key: Key)
      requires Shaped() && i < |lists|
      modifies children
      ensures UnderCut(lists[i], children[i], Below(key))
      ensures forall c :: 0 <= c < |lists| && c != i ==> children[c] == old(children[c])
    {
      children[i] := LowerBound(lists[i], key);
      if ChildValid(i) {
        children[i] := children[i] - 1;
      } else {
        children[i] := |lists[i]| - 1;
      }
    }

    /** The least key above the current one, whichever way the merger was moving (merger.cc:55-79). */
    method Next(ghost k: Key) returns (ghost r: Option<Key>)
      requires At(Some(k))
      modifies this, children
      ensures At(r) && FirstAfter(lists, UpTo(k), r)
    {
      var key := ChildKey(current);
      if direction != Forward {
        for i := 0 to |lists|
          invariant 0 <= current < |lists| && ChildValid(current) && ChildKey(current) == k
          invariant forall c :: 0 <= c < i && c != current ==> AtCut(lists[c], children[c], UpTo(k))
        {
          if i != current {
            SeekPast(i, key);
          }
        }
        direction := Forward;
      }
      children[current] := children[current] + 1;
      r := FindSmallest(UpTo(k));
    }

    /** The greatest key below the current one (merger.cc:81-108). */
    method Prev(ghost k: Key) returns (ghost r: Option<Key>)
      requires At(Some(k))
      modifies this, children
      ensures At(r) && LastBefore(lists, Below(k), r)
    {
      var key := ChildKey(current);
      if direction != Reverse {
        for i := 0 to |lists|
          invariant 0 <= current < |lists| && ChildValid(current) && ChildKey(current) == k
          invariant forall c :: 0 <= c < i && c != current ==> UnderCut(lists[c], children[c], Below(k))
        {
          if i != current {
            SeekUnder(i, key);
          }
        }
        direction := Reverse;
      }
      children[current] := children[current] - 1;
      r := FindLargest(Below(k));
    }
  }

  lemma SmallestIsFirst(lists: seq<seq<Key>>, ps: seq<int>, m: nat, cut: Cut)
    requires GoodLists(lists) && |ps| == |lists| && m < |lists| && 0 <= ps[m] < |lists[m]|
    requires forall c :: 0 <= c < |lists| ==> AtCut(lists[c], ps[c], cut)
    requires forall c :: 0 <= c < |lists| && 0 <= ps[c] < |lists[c]| ==> lists[m][ps[m]] <= lists[c][ps[c]]
    ensures FirstAfter(lists, cut, Some(lists[m][ps[m]]))
    ensures forall c :: 0 <= c < |lists| && c != m ==> AtCut(lists[c], ps[c], UpTo(lists[m][ps[m]]))
  {
    var k := lists[m][ps[m]];
    forall x | InUnion(lists, x) && !Before(cut, x) ensures k <= x {
      var c, i :| 0 <= c < |lists| && 0 <= i < |lists[c]| && lists[c][i] == x;
      NotBelow(lists, ps, m, cut, c, i);
    }
    forall c | 0 <= c < |lists| && c != m ensures AtCut(lists[c], ps[c], UpTo(k)) {
      OtherAt(lists, ps, m, cut, c);
    }
  }

  lemma NotBelow(lists: seq<seq<Key>>, ps: seq<int>, m: nat, cut: Cut, c: nat, i: nat)
    requires GoodLists(lists) && |ps| == |lists| && m < |lists| && 0 <= ps[m] < |lists[m]| && c < |lists| && i < |lists[c]|
    requires AtCut(lists[c], ps[c], cut) && !Before(cut, lists[c][i])
    requires 0 <= ps[c] < |lists[c]| ==> lists[m][ps[m]] <= lists[c][ps[c]]
    ensures lists[m][ps[m]] <= lists[c][i]
  {
    assert ps[c] <= i;
    assert lists[c][ps[c]] <= lists[c][i];
  }

  lemma OtherAt(lists: seq<seq<Key>>, ps: seq<int>, m: nat, cut: Cut, c: nat)
    requires GoodLists(lists) && |ps| == |lists| && m < |lists| && 0 <= ps[m] < |lists[m]| && c < |lists| && c != m
    requires AtCut(lists[c], ps[c], cut) && AtCut(lists[m], ps[m], cut)
    requires 0 <= ps[c] < |lists[c]| ==> lists[m][ps[m]] <= lists[c][ps[c]]
    ensures AtCut(lists[c], ps[c], UpTo(lists[m][ps[m]]))
  {
    var k := lists[m][ps[m]];
    forall j | 0 <= j < |lists[c]| ensures if j < ps[c] then lists[c][j] <= k else lists[c][j] > k {
      assert lists[c][j] != k;
      if j < ps[c] {
        assert Before(cut, lists[c][j]) && !Before(cut, k);
      } else {
        assert lists[c][ps[c]] <= lists[c][j];
      }
    }
  }

  lemma LargestIsLast(lists: seq<seq<Key>>, ps: seq<int>, m: nat, cut: Cut)
    requires GoodLists(lists) && |ps| == |lists| && m < |lists| && 0 <= ps[m] < |lists[m]|
    requires forall c :: 0 <= c < |lists| ==> UnderCut(lists[c], ps[c], cut)
    requires forall c :: 0 <= c < |lists| && 0 <= ps[c] < |lists[c]| ==> lists[c][ps[c]] <= lists[m][ps[m]]
    ensures LastBefore(lists, cut, Some(lists[m][ps[m]]))
    ensures forall c :: 0 <= c < |lists| && c != m ==> UnderCut(lists[c], ps[c], Below(lists[m][ps[m]]))
  {
    var k := lists[m][ps[m]];
    forall x | InUnion(lists, x) && Before(cut, x) ensures x <= k {
      var c, i :| 0 <= c < |lists| && 0 <= i < |lists[c]| && lists[c][i] == x;
      NotAbove(lists, ps, m, cut, c, i);
    }
    forall c | 0 <= c < |lists| && c != m ensures UnderCut(lists[c], ps[c], Below(k)) {
      OtherUnder(lists, ps, m, cut, c);
    }
  }

  lemma NotAbove(lists: seq<seq<Key>>, ps: seq<int>, m: nat, cut: Cut, c: nat, i: nat)
    requires GoodLists(lists) && |ps| == |lists| && m < |lists| && 0 <= ps[m] < |lists[m]| && c < |lists| && i < |lists[c]|
    requires UnderCut(lists[c], ps[c], cut) && Before(cut, lists[c][i])
    requires 0 <= ps[c] < |lists[c]| ==> lists[c][ps[c]] <= lists[m][ps[m]]
    ensures lists[c][i] <= lists[m][ps[m]]
  {
    assert i <= ps[c];
    assert lists[c][i] <= lists[c][ps[c]];
  }

  lemma OtherUnder(lists: seq<seq<Key>>, ps: seq<int>, m: nat, cut: Cut, c: nat)
    requires GoodLists(lists) && |ps| == |lists| && m < |lists| && 0 <= ps[m] < |lists[m]| && c < |lists| && c != m
    requires UnderCut(lists[c], ps[c], cut) && UnderCut(lists[m], ps[m], cut)
    requires 0 <= ps[c] < |lists[c]| ==> lists[c][ps[c]] <= lists[m][ps[m]]
    ensures UnderCut(lists[c], ps[c], Below(lists[m][ps[m]]))
  {
    var k := lists[m][ps[m]];
    forall j | 0 <= j < |lists[c]| ensures if j <= ps[c] then lists[c][j] < k else lists[c][j] >= k {
      assert lists[c][j] != k;
      if j <= ps[c] {
        assert lists[c][j] <= lists[c][ps[c]];
      } else {
        assert !Before(cut, lists[c][j]) && Before(cut, k);
      }
    }
  }

  /** On the union, stepping back undoes stepping forward, and the other way round. */
  lemma StepsInvert(lists: seq<seq<Key>>, k: Key, k': Key)
    requires InUnion(lists, k) && InUnion(lists, k')
    ensures FirstAfter(lists, UpTo(k), Some(k')) <==> LastBefore(lists, Below(k'), Some(k))
  {
    if FirstAfter(lists, UpTo(k), Some(k')) {
      forall x | InUnion(lists, x) && x < k' ensures x <= k {}
    }
    if LastBefore(lists, Below(k'), Some(k)) {
      forall x | InUnion(lists, x) && !(x <= k) ensures k' <= x {}
    }
  }

  // ---- Any moves ----

  datatype Move = ToFirst | ToLast | To(target: Key) | Forth | Back

  /** The moves of a cursor over the union of the children.  Next and Prev are only asked of a valid one; otherwise
      it stays. */
  ghost predicate Moves(lists: seq<seq<Key>>, m: Move, r: Option<Key>, r': Option<Key>) {
    match m
    case ToFirst => FirstAfter(lists, Start, r')
    case ToLast => LastBefore(lists, End, r')
    case To(target) => FirstAfter(lists, Below(target), r')
    case Forth => if r.Some? then FirstAfter(lists, UpTo(r.value), r') else r' == None
    case Back => if r.Some? then LastBefore(lists, Below(r.value), r') else r' == None
  }

  /** A move leads to one place. */
  lemma MovesOneWay(lists: seq<seq<Key>>, m: Move, r: Option<Key>, a: Option<Key>, b: Option<Key>)
    requires Moves(lists, m, r, a) && Moves(lists, m, r, b)
    ensures a == b
  {}

  method Step(it: Merger, m: Move, r: Option<Key>) returns (r': Option<Key>)
    requires it.At(r)
    modifies it, it.children
    ensures it.At(r') && Moves(it.lists, m, r, r')
  {
    ghost var at := r;
    match m {
      case ToFirst => at := it.SeekToFirst();
      case ToLast => at := it.SeekToLast();
      case To(target) => at := it.Seek(target);
      case Forth => if it.current != -1 { at := it.Next(r.value); }
      case Back => if it.current != -1 { at := it.Prev(r.value); }
    }
    r' := if it.current == -1 then None else Some(it.ChildKey(it.current));
  }

  /** Whatever moves are made, with whatever changes of direction, the merger stands where a cursor over the union of
      its children does. */
  method Play(lists: seq<seq<Key>>, moves: seq<Move>) returns (shown: seq<Option<Key>>)
    requires GoodLists(lists)
    ensures |shown| == |moves| + 1 && shown[0] == None
    ensures forall i :: 0 <= i < |moves| ==> Moves(lists, moves[i], shown[i], shown[i + 1])
  {
    var it := new Merger(lists);
    var r: Option<Key> := None;
    shown := [None];
    for i := 0 to |moves|
      invariant it.lists == lists && fresh(it) && fresh(it.children) && it.At(r) == true
      invariant |shown| == i + 1 && shown[0] == None && shown[i] == r
      invariant forall k :: 0 <= k < i ==> Moves(lists, moves[k], shown[k], shown[k + 1])
    {
      r := Step(it, moves[i], r);
      shown := shown + [r];
    }
  }
}
