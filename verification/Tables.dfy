/** Whole tables: blocks, the index over them, and the filter (table/table_builder, table/table,
    table/two_level_iterator).

    A data block is its list of entries; that a finished block reads back as that list, and seeks in it as a
    sorted list does, is proved in Blocks.  When a block is full, and how many bytes it takes in the file, are
    parameters.
 */
module Tables {
  import opened Options
  import opened Coding
  import opened Comparators
  import opened Blooms
  import opened FilterBlocks

  datatype Entry = Entry(key: IKey, value: seq<Byte>)

  datatype IndexEntry = IndexEntry(key: IKey, offset: nat)

  datatype Table = Table(blocks: seq<seq<Entry>>, index: seq<IndexEntry>, filter: Option<seq<Byte>>)

  // ---- The order of a table ----

  ghost predicate Increasing(es: seq<Entry>) {
    forall i, j :: 0 <= i < j < |es| ==> Less(es[i].key, es[j].key)
  }

  /** An index key between two blocks: at or after all of the first, before all of the second; and either it is
      the first block's last key or its user key is smaller than any of the second. */
  ghost predicate Gap(sep: IKey, before: seq<Entry>, after: seq<Entry>) {
    && (forall e :: e in before ==> AtMost(e.key, sep))
    && (forall e :: e in after ==> Less(sep, e.key))
    && ((before != [] && sep == before[|before| - 1].key) || forall e :: e in after ==> Below(sep.user, e.key.user))
  }

  function BlockOr(blocks: seq<seq<Entry>>, b: nat, last: seq<Entry>): seq<Entry> {
    if b < |blocks| then blocks[b] else last
  }

  /** The index key of block `b` lies between it and the next block, `last` if there is none. */
  ghost predicate GapAt(index: seq<IndexEntry>, blocks: seq<seq<Entry>>, last: seq<Entry>, b: nat) {
    b < |index| && b < |blocks| && Gap(index[b].key, blocks[b], BlockOr(blocks, b + 1, last))
  }

  ghost predicate TableOk(t: Table) {
    && |t.index| == |t.blocks|
    && (forall b :: 0 <= b < |t.blocks| ==> t.blocks[b] != [] && Increasing(t.blocks[b]))
    && (forall b :: 0 <= b < |t.blocks| ==> GapAt(t.index, t.blocks, [], b) == true)
  }

  /** The filter matches the user key of every entry, at its block's offset. */
  ghost predicate FilterOk(t: Table, hash: Hash) {
    t.filter.Some? && |t.index| == |t.blocks| ==>
      forall b, e :: 0 <= b < |t.blocks| && e in t.blocks[b] ==> Says(t.filter.value, hash, t.index[b].offset, e.key.user)
  }

  function Flat(blocks: seq<seq<Entry>>): seq<Entry> {
    if blocks == [] then [] else Flat(blocks[..|blocks| - 1]) + blocks[|blocks| - 1]
  }

  /** The position in the table of the first entry of block `b`. */
  function Start(blocks: seq<seq<Entry>>, b: nat): nat
    requires b <= |blocks|
  {
    |Flat(blocks[..b])|
  }

  lemma StartNext(blocks: seq<seq<Entry>>, b: nat)
    requires b < |blocks|
    ensures Start(blocks, b + 1) == Start(blocks, b) + |blocks[b]|
    ensures Flat(blocks[..b + 1]) == Flat(blocks[..b]) + blocks[b]
  {
    assert blocks[..b + 1][..b] == blocks[..b];
  }

  lemma {:induction false} FlatAt(blocks: seq<seq<Entry>>, b: nat, j: nat)
    requires b < |blocks| && j < |blocks[b]|
    ensures Start(blocks, b) + j < |Flat(blocks)| && Flat(blocks)[Start(blocks, b) + j] == blocks[b][j]
  {
    var n := |blocks| - 1;
    assert blocks[..n][..b] == blocks[..b];
    if b < n {
      FlatAt(blocks[..n], b, j);
    }
  }

  lemma StartAll(blocks: seq<seq<Entry>>)
    ensures Start(blocks, |blocks|) == |Flat(blocks)| && Start(blocks, 0) == 0
  {
    assert blocks[..|blocks|] == blocks && blocks[..0] == [];
  }

  /** The block and place of a position. */
  lemma {:induction false} Locate(blocks: seq<seq<Entry>>, p: nat) returns (b: nat, j: nat)
    requires p < |Flat(blocks)|
    ensures b < |blocks| && j < |blocks[b]| && p == Start(blocks, b) + j
  {
    var n := |blocks| - 1;
    if p < |Flat(blocks[..n])| {
      b, j := Locate(blocks[..n], p);
      assert blocks[..n][..b] == blocks[..b];
    } else {
      b, j := n, p - |Flat(blocks[..n])|;
    }
  }

  /** The first entry at or after `k`; the end if there is none. */
  ghost predicate First(es: seq<Entry>, k: IKey, p: nat) {
    && p <= |es|
    && (forall q :: 0 <= q < p ==> Less(es[q].key, k))
    && (p < |es| ==> !Less(es[p].key, k))
  }

  ghost predicate FirstIndex(index: seq<IndexEntry>, k: IKey, b: nat) {
    && b <= |index|
    && (forall q :: 0 <= q < b ==> Less(index[q].key, k))
    && (b < |index| ==> !Less(index[b].key, k))
  }

  /** Blocks whose index key is before `k` hold only keys before `k`. */
  lemma BlockBefore(t: Table, k: IKey, c: nat, e: Entry)
    requires TableOk(t) && c < |t.blocks| && Less(t.index[c].key, k) && e in t.blocks[c]
    ensures Less(e.key, k)
  {
    assert GapAt(t.index, t.blocks, [], c) == true;
    assert AtMost(e.key, t.index[c].key);
    if e.key != t.index[c].key { LessTransitive(e.key, t.index[c].key, k); }
  }

  lemma PositionBefore(t: Table, k: IKey, b: nat, j: nat, q: nat)
    requires TableOk(t) && FirstIndex(t.index, k, b)
    requires if b < |t.blocks| then First(t.blocks[b], k, j) else j == 0
    requires q < |Flat(t.blocks)| && q < Start(t.blocks, b) + j
    ensures Less(Flat(t.blocks)[q].key, k)
  {
    var c, i := Locate(t.blocks, q);
    FlatAt(t.blocks, c, i);
    if c < b {
      BlockBefore(t, k, c, t.blocks[c][i]);
    } else {
      StartOrder(t.blocks, b, c);
      if b < |t.blocks| { StartNext(t.blocks, b); }
    }
  }

  /** Seeking in the index and then in one block finds the place in the whole table. */
  lemma TwoSeeks(t: Table, k: IKey, b: nat, j: nat)
    requires TableOk(t) && FirstIndex(t.index, k, b)
    requires if b < |t.blocks| then First(t.blocks[b], k, j) else j == 0
    ensures First(Flat(t.blocks), k, Start(t.blocks, b) + j)
  {
    var all, p := Flat(t.blocks), Start(t.blocks, b) + j;
    PositionNotBefore(t, k, b, j);
    forall q | 0 <= q < p ensures Less(all[q].key, k) {
      PositionBefore(t, k, b, j, q);
    }
  }

  lemma PositionNotBefore(t: Table, k: IKey, b: nat, j: nat)
    requires TableOk(t) && FirstIndex(t.index, k, b)
    requires if b < |t.blocks| then First(t.blocks[b], k, j) else j == 0
    ensures NotBeforeAt(Flat(t.blocks), Start(t.blocks, b) + j, k) == true
  {
    var all, p := Flat(t.blocks), Start(t.blocks, b) + j;
    if b < |t.blocks| {
      StartNext(t.blocks, b);
      StartWithin(t.blocks, b + 1);
      if j < |t.blocks[b]| {
        FlatAt(t.blocks, b, j);
        assert all[p] == t.blocks[b][j];
      } else if p < |all| {
        NextBlockAfter(t, k, b);
        assert all[p] == t.blocks[b + 1][0];
        NotBothLess(k, t.blocks[b + 1][0].key);
      }
    } else {
      StartAll(t.blocks);
    }
  }

  /** The entry at `p`, if there is one, is at or after `k`. */
  ghost predicate NotBeforeAt(es: seq<Entry>, p: nat, k: IKey) {
    p <= |es| && (p < |es| ==> !Less(es[p].key, k))
  }

  lemma NotBothLess(a: IKey, b: IKey)
    requires Less(a, b)
    ensures !Less(b, a)
  {
    LessIrreflexive(a);
    if Less(b, a) { LessTransitive(a, b, a); }
  }

  lemma {:induction false} StartOrder(blocks: seq<seq<Entry>>, b: nat, c: nat)
    requires b <= c <= |blocks|
    ensures Start(blocks, b) <= Start(blocks, c)
    ensures b < c ==> Start(blocks, b + 1) <= Start(blocks, c)
  {
    if b < c {
      StartNext(blocks, c - 1);
      StartOrder(blocks, b, c - 1);
    }
  }

  lemma StartWithin(blocks: seq<seq<Entry>>, b: nat)
    requires b <= |blocks|
    ensures Start(blocks, b) <= |Flat(blocks)|
  {
    StartOrder(blocks, b, |blocks|);
    StartAll(blocks);
  }

  /** Past the end of a block whose index key is at or after `k`, the next block starts after `k`. */
  lemma NextBlockAfter(t: Table, k: IKey, b: nat)
    requires TableOk(t) && b < |t.blocks| && !Less(t.index[b].key, k)
    requires Start(t.blocks, b + 1) < |Flat(t.blocks)|
    ensures b + 1 < |t.blocks| && Flat(t.blocks)[Start(t.blocks, b + 1)] == t.blocks[b + 1][0]
    ensures Less(k, t.blocks[b + 1][0].key)
  {
    StartAll(t.blocks);
    FlatAt(t.blocks, b + 1, 0);
    var e := t.blocks[b + 1][0];
    assert GapAt(t.index, t.blocks, [], b) == true;
    assert e in t.blocks[b + 1] && Less(t.index[b].key, e.key);
    NotAfterThenLess(k, t.index[b].key, e.key);
  }

  lemma NotAfterThenLess(k: IKey, sep: IKey, key: IKey)
    requires !Less(sep, k) && Less(sep, key)
    ensures Less(k, key)
  {
    LessTotal(sep, k);
    if sep != k { LessTransitive(k, sep, key); }
  }

  // ---- Looking one key up ----

  /** What the index block's iterator does on a seek. */
  method SeekIndex(index: seq<IndexEntry>, k: IKey) returns (b: nat)
    ensures FirstIndex(index, k, b)
  {
    b := 0;
    while b < |index| && Less(index[b].key, k)
      invariant b <= |index| && forall q :: 0 <= q < b ==> Less(index[q].key, k)
    {
      b := b + 1;
    }
  }

  method SeekBlock(es: seq<Entry>, k: IKey) returns (j: nat)
    ensures First(es, k, j)
  {
    j := 0;
    while j < |es| && Less(es[j].key, k)
      invariant j <= |es| && forall q :: 0 <= q < j ==> Less(es[q].key, k)
    {
      j := j + 1;
    }
  }

  /** `found` answers a lookup whose first entry at or after `k` is at `p`: it is that entry or nothing, and
      it is not nothing when that entry has the user key of `k`. */
  ghost predicate Answers(all: seq<Entry>, k: IKey, p: nat, found: Option<Entry>) {
    && (found.Some? ==> p < |all| && found.value == all[p])
    && (p < |all| && all[p].key.user == k.user ==> found.Some?)
  }

  lemma FilterAdmits(t: Table, hash: Hash, user: seq<Byte>, b: nat, j: nat)
    requires FilterOk(t, hash) && b < |t.blocks| == |t.index|
    ensures j < |t.blocks[b]| && t.blocks[b][j].key.user == user && t.filter.Some? ==>
              Says(t.filter.value, hash, t.index[b].offset, user)
  {
    if j < |t.blocks[b]| { assert t.blocks[b][j] in t.blocks[b]; }
  }

  lemma Decide(all: seq<Entry>, k: IKey, p: nat, es: seq<Entry>, j: nat, may: bool)
    requires j <= |es| && p <= |all|
    requires if j < |es| then p < |all| && all[p] == es[j] else p < |all| ==> all[p].key.user != k.user
    requires j < |es| && es[j].key.user == k.user ==> may
    ensures Answers(all, k, p, if may && j < |es| then Some(es[j]) else None)
  {}

  /** The place one block points to, in the whole table. */
  lemma OneBlockPlace(t: Table, all: seq<Entry>, k: IKey, p: nat, b: nat, j: nat)
    requires TableOk(t) == true && all == Flat(t.blocks) && First(all, k, p) == true && |t.index| == |t.blocks|
    requires FirstIndex(t.index, k, b) == true && b < |t.blocks| && First(t.blocks[b], k, j) == true
    ensures p == Start(t.blocks, b) + j && p <= |all| && j <= |t.blocks[b]|
    ensures j == |t.blocks[b]| && p < |all| ==> all[p].key.user != k.user
  {
    TwoSeeks(t, k, b, j);
    FirstIsOne(all, k, p, Start(t.blocks, b) + j);
    if j == |t.blocks[b]| && p < |all| {
      StartNext(t.blocks, b);
      PastTheBlock(t, k, b, j);
      assert p == Start(t.blocks, b + 1);
    }
  }

  /** What one block and the filter say is what the whole table says. */
  lemma OneBlockAnswers(t: Table, k: IKey, p: nat, b: nat, j: nat, may: bool)
    requires TableOk(t) && First(Flat(t.blocks), k, p)
    requires FirstIndex(t.index, k, b) && b < |t.blocks| && First(t.blocks[b], k, j)
    requires j < |t.blocks[b]| && t.blocks[b][j].key.user == k.user ==> may
    ensures Answers(Flat(t.blocks), k, p, if may && j < |t.blocks[b]| then Some(t.blocks[b][j]) else None) == true
  {
    OneBlockPlace(t, Flat(t.blocks), k, p, b, j);
    if j < |t.blocks[b]| { FlatAt(t.blocks, b, j); }
    Decide(Flat(t.blocks), k, p, t.blocks[b], j, may);
  }

  /** Find the first entry at or after `k` in one block only, if the filter lets it (table.cc:216-244). */
  method InternalGet(t: Table, hash: Hash, k: IKey, ghost p: nat) returns (found: Option<Entry>)
    requires TableOk(t) && FilterOk(t, hash) && First(Flat(t.blocks), k, p)
    ensures Answers(Flat(t.blocks), k, p, found) == true
  {
    found := None;
    var b := SeekIndex(t.index, k);
    if b < |t.index| {
      var may := true;
      if t.filter.Some? {
        var reader := new FilterBlockReader(hash, t.filter.value);
        may := reader.KeyMayMatch(t.index[b].offset, k.user);
      }
      ghost var j' := FirstOf(t.blocks[b], k);
      FilterAdmits(t, hash, k.user, b, j');
      OneBlockAnswers(t, k, p, b, j', may);
      if may {
        var j := SeekBlock(t.blocks[b], k);
        FirstIsOne(t.blocks[b], k, j, j');
        if j < |t.blocks[b]| {
          found := Some(t.blocks[b][j]);
        }
      }
    } else {
      TwoSeeks(t, k, b, 0);
      FirstIsOne(Flat(t.blocks), k, p, Start(t.blocks, b));
      StartAll(t.blocks);
    }
  }

  ghost function FirstOf(es: seq<Entry>, k: IKey): (p: nat)
    ensures First(es, k, p)
  {
    if es == [] || !Less(es[0].key, k) then 0 else 1 + FirstOf(es[1..], k)
  }

  lemma FirstIsOne(es: seq<Entry>, k: IKey, p: nat, q: nat)
    requires First(es, k, p) && First(es, k, q)
    ensures p == q
  {}

  /** When the block the index points to has nothing at or after `k`, the next block starts with another user
      key: nothing is lost by not looking there. */
  lemma PastTheBlock(t: Table, k: IKey, b: nat, j: nat)
    requires TableOk(t) && b < |t.blocks| && !Less(t.index[b].key, k)
    requires First(t.blocks[b], k, j) && j == |t.blocks[b]|
    requires Start(t.blocks, b + 1) < |Flat(t.blocks)|
    ensures Start(t.blocks, b) + j == Start(t.blocks, b + 1)
    ensures Flat(t.blocks)[Start(t.blocks, b + 1)].key.user != k.user
  {
    StartNext(t.blocks, b);
    NextBlockAfter(t, k, b);
    var e := t.blocks[b + 1][0];
    var before := t.blocks[b];
    var sep := t.index[b].key;
    assert GapAt(t.index, t.blocks, [], b) == true;
    assert Gap(sep, before, t.blocks[b + 1]);
    assert e in t.blocks[b + 1];
    assert Less(before[|before| - 1].key, k);
    LessTotal(sep, k);
    assert Below(sep.user, e.key.user);
    assert k == sep || Less(k, sep);
    NotBoth(sep.user, e.key.user);
    if k.user == e.key.user {
      NotBoth(sep.user, k.user);
      assert false;
    }
  }

  // ---- The two-level iterator ----

  datatype DataIter = NoData | Data(block: nat, pos: nat)

  /** An index iterator and, while that is valid, an iterator over the block it points to.  Blocks may be
      empty.  A position at the end of its list is an iterator that is not valid. */
  class TwoLevelIterator {
    const t: Table
    var index: nat
    var data: DataIter

    constructor (t: Table)
      requires |t.index| == |t.blocks|
      ensures this.t == t && Ok() && On(|Flat(t.blocks)|)
    {
      this.t := t;
      index, data := |t.index|, NoData;
      new;
      StartAll(t.blocks);
    }

    ghost predicate Ok()
      reads this
    {
      && |t.index| == |t.blocks| && index <= |t.index|
      && match data
         case NoData => true
         case Data(b, j) => b == index < |t.blocks| && j <= |t.blocks[b]|
    }

    predicate DataValid()
      requires Ok()
      reads this
    {
      data.Data? && data.pos < |t.blocks[data.block]|
    }

    /** Where in the whole table a walk forward from here begins. */
    ghost predicate At(p: int)
      requires Ok()
      reads this
    {
      match data
      case NoData => index == |t.index| && p == |Flat(t.blocks)|
      case Data(b, j) => p == Start(t.blocks, b) + j
    }

    /** The iterator is on entry `p` of the table, or past the last one. */
    ghost predicate On(p: int)
      requires Ok()
      reads this
    {
      At(p) && (data.NoData? || DataValid())
    }

    method InitDataBlock()
      requires |t.index| == |t.blocks| && index <= |t.index|
      requires data.Data? ==> data.block < |t.blocks| && data.pos <= |t.blocks[data.block]|
      modifies this`data
      ensures Ok() && (data.NoData? <==> index == |t.index|)
    {
      if index == |t.index| {
        data := NoData;
      } else if data.Data? && data.block == index {
        // The iterator is over this block already.
      } else {
        data := Data(index, |t.blocks[index]|);
      }
    }

    method SkipEmptyDataBlocksForward(ghost p: nat)
      requires Ok() && At(p)
      modifies this
      ensures Ok() && On(p)
    {
      while data.NoData? || !DataValid()
        invariant Ok() && At(p)
        decreases |t.index| - index, if data.NoData? then 0 else 1
      {
        if index == |t.index| {
          data := NoData;
          return;
        }
        StartNext(t.blocks, index);
        StartAll(t.blocks);
        index := index + 1;
        InitDataBlock();
        if data.Data? {
          data := Data(data.block, 0);
        }
      }
    }

    /** On the entry before `q`, or about to look for it in the blocks before this one. */
    ghost predicate Behind(q: int)
      requires Ok()
      reads this
    {
      if data.NoData? then index == |t.index| && q == 0
      else if DataValid() then q - 1 == Start(t.blocks, data.block) + data.pos
      else q == Start(t.blocks, data.block)
    }

    method SkipEmptyDataBlocksBackward(ghost q: nat)
      requires Ok() && Behind(q)
      modifies this
      ensures Ok() && On(if q == 0 then |Flat(t.blocks)| else q - 1)
    {
      while data.NoData? || !DataValid()
        invariant Ok() && Behind(q)
        decreases if data.NoData? then 0 else 1, index
      {
        if index == |t.index| {
          data := NoData;
          return;
        }
        StartAll(t.blocks);
        ghost var b := index;
        index := if index == 0 then |t.index| else index - 1;
        InitDataBlock();
        if data.Data? {
          StartNext(t.blocks, index);
          var n := |t.blocks[data.block]|;
          data := Data(data.block, if n == 0 then 0 else n - 1);
        }
      }
    }

    method SeekToFirst()
      requires Ok()
      modifies this
      ensures Ok() && On(0)
    {
      index := 0;
      InitDataBlock();
      if data.Data? {
        data := Data(data.block, 0);
      }
      StartAll(t.blocks);
      SkipEmptyDataBlocksForward(0);
    }

    method SeekToLast()
      requires Ok()
      modifies this
      ensures Ok() && On(if |Flat(t.blocks)| == 0 then 0 else |Flat(t.blocks)| - 1)
    {
      index := if |t.index| == 0 then 0 else |t.index| - 1;
      InitDataBlock();
      StartAll(t.blocks);
      if data.Data? {
        StartNext(t.blocks, index);
        var n := |t.blocks[data.block]|;
        data := Data(data.block, if n == 0 then 0 else n - 1);
      }
      SkipEmptyDataBlocksBackward(|Flat(t.blocks)|);
    }

    method Next(ghost p: nat)
      requires Ok() && On(p) && p < |Flat(t.blocks)|
      modifies this
      ensures Ok() && On(p + 1)
    {
      data := Data(data.block, data.pos + 1);
      SkipEmptyDataBlocksForward(p + 1);
    }

    method Prev(ghost p: nat)
      requires Ok() && On(p) && p < |Flat(t.blocks)|
      modifies this
      ensures Ok() && On(if p == 0 then |Flat(t.blocks)| else p - 1)
    {
      data := Data(data.block, if data.pos == 0 then |t.blocks[data.block]| else data.pos - 1);
      SkipEmptyDataBlocksBackward(p);
    }

    method Seek(k: IKey) returns (ghost p: nat)
      requires Ok() && TableOk(t)
      modifies this
      ensures Ok() && On(p) && First(Flat(t.blocks), k, p)
    {
      index := SeekIndex(t.index, k);
      InitDataBlock();
      ghost var j := 0;
      if data.Data? {
        var pos := SeekBlock(t.blocks[data.block], k);
        data := Data(data.block, pos);
        j := pos;
      }
      TwoSeeks(t, k, index, j);
      StartAll(t.blocks);
      p := Start(t.blocks, index) + j;
      SkipEmptyDataBlocksForward(p);
    }

    /** The entry the iterator is on. */
    method Current(ghost p: nat) returns (e: Entry)
      requires Ok() && On(p) && DataValid()
      ensures p < |Flat(t.blocks)| && e == Flat(t.blocks)[p]
    {
      e := t.blocks[data.block][data.pos];
      FlatAt(t.blocks, data.block, data.pos);
    }
  }

  // ---- Building a table ----

  /** Entry `e` comes after everything up to `last`. */
  lemma GapGrows(sep: IKey, before: seq<Entry>, after: seq<Entry>, e: Entry)
    requires Gap(sep, before, after) && after != [] && Less(after[|after| - 1].key, e.key)
    ensures Gap(sep, before, after + [e])
  {
    var last := after[|after| - 1];
    assert last in after;
    LessTransitive(sep, last.key, e.key);
    if Below(sep.user, last.key.user) && Below(last.key.user, e.key.user) {
      Transitive(sep.user, last.key.user, e.key.user);
    }
  }

  /** A separator chosen between the last key of a block and the next key. */
  lemma GapStarts(before: seq<Entry>, e: Entry)
    requires before != [] && Increasing(before) && Less(before[|before| - 1].key, e.key)
    ensures Gap(InternalSeparator(before[|before| - 1].key, e.key), before, [e])
  {
    var last := before[|before| - 1].key;
    var sep := InternalSeparator(last, e.key);
    InternalSeparatorBetween(last, e.key);
    forall d | d in before ensures AtMost(d.key, sep) {
      var i :| 0 <= i < |before| && before[i] == d;
      if i < |before| - 1 && sep != last { LessTransitive(d.key, last, sep); }
    }
  }

  lemma GapEnds(before: seq<Entry>)
    requires before != [] && Increasing(before)
    ensures Gap(InternalSuccessor(before[|before| - 1].key), before, [])
  {
    var last := before[|before| - 1].key;
    var sep := InternalSuccessor(last);
    InternalSuccessorAfter(last);
    forall d | d in before ensures AtMost(d.key, sep) {
      var i :| 0 <= i < |before| && before[i] == d;
      if i < |before| - 1 && sep != last { LessTransitive(d.key, last, sep); }
    }
  }

  /** Everything the builder has taken in, block by block. */
  datatype Progress = Progress(blocks: seq<seq<Entry>>, offsets: seq<nat>, index: seq<IndexEntry>, current: seq<Entry>, pending: bool)

  /** Index entries stand between their blocks; the last full block's is still to come if it is pending. */
  ghost predicate Indexed(g: Progress) {
    && |g.offsets| == |g.blocks| && |g.index| == |g.blocks| - (if g.pending then 1 else 0)
    && (g.pending ==> g.current == []) && (!g.pending && g.blocks != [] ==> g.current != [])
    && (forall b :: 0 <= b < |g.blocks| ==> g.blocks[b] != [] && Increasing(g.blocks[b])) && Increasing(g.current)
    && (forall b :: 0 <= b < |g.index| ==>
          g.index[b].offset == g.offsets[b] && GapAt(g.index, g.blocks, g.current, b) == true)
  }

  /** Every key is, or will be, in the filter of its block. */
  ghost predicate Filtered(g: Progress, offset: nat, groups: seq<set<seq<Byte>>>, pending: seq<seq<Byte>>) {
    && |groups| == offset / BASE && |g.offsets| == |g.blocks|
    && (forall b, e :: 0 <= b < |g.blocks| && e in g.blocks[b] ==> InFilter(g.offsets[b] / BASE, e.key.user, groups, pending))
    && (forall e :: e in g.current ==> InFilter(offset / BASE, e.key.user, groups, pending))
  }

  ghost predicate InFilter(f: nat, user: seq<Byte>, groups: seq<set<seq<Byte>>>, pending: seq<seq<Byte>>) {
    if f < |groups| then user in groups[f] else f == |groups| && user in pending
  }

  predicate InDone(f: nat, user: seq<Byte>, groups: seq<set<seq<Byte>>>) {
    f < |groups| && user in groups[f]
  }

  function LastOf(g: Progress): Option<IKey> {
    if g.current != [] then Some(g.current[|g.current| - 1].key)
    else if g.blocks != [] && g.blocks[|g.blocks| - 1] != [] then Some(g.blocks[|g.blocks| - 1][|g.blocks[|g.blocks| - 1]| - 1].key)
    else None
  }

  /** One entry more, with the index entry that had to wait for it. */
  function Taken(g: Progress, sep: IKey, e: Entry): Progress {
    g.(index := if g.pending && g.offsets != [] then g.index + [IndexEntry(sep, g.offsets[|g.offsets| - 1])] else g.index,
       current := g.current + [e], pending := false)
  }

  /** The key of an entry taken is one more that is pending. */
  lemma TakenFiltered(g: Progress, sep: IKey, e: Entry, offset: nat, groups: seq<set<seq<Byte>>>, pending: seq<seq<Byte>>)
    requires Filtered(g, offset, groups, pending)
    ensures Filtered(Taken(g, sep, e), offset, groups, pending + [e.key.user]) == true
  {}

  lemma TakenIndexed(g: Progress, sep: IKey, e: Entry)
    requires Indexed(g) && (LastOf(g).Some? ==> Less(LastOf(g).value, e.key))
    requires g.pending ==> LastOf(g).Some? && sep == InternalSeparator(LastOf(g).value, e.key)
    ensures Indexed(Taken(g, sep, e)) == true && LastOf(Taken(g, sep, e)) == Some(e.key)
  {
    var h, n := Taken(g, sep, e), |g.blocks|;
    if g.pending {
      GapStarts(g.blocks[n - 1], e);
      assert g.current + [e] == [e];
    }
    IncreasingMore(g.current, e);
    forall b | 0 <= b < |h.index|
      ensures h.index[b].offset == h.offsets[b] && GapAt(h.index, h.blocks, h.current, b) == true
    {
      if b == n - 1 && !g.pending {
        assert GapAt(g.index, g.blocks, g.current, b) == true;
        GapGrows(g.index[b].key, g.blocks[b], g.current, e);
      } else if b < |g.index| {
        assert GapAt(g.index, g.blocks, g.current, b) == true;
      }
    }
  }

  lemma IncreasingMore(es: seq<Entry>, e: Entry)
    requires Increasing(es) && (es != [] ==> Less(es[|es| - 1].key, e.key))
    ensures Increasing(es + [e])
  {
    forall i | 0 <= i < |es| ensures Less(es[i].key, e.key) {
      if i < |es| - 1 { LessTransitive(es[i].key, es[|es| - 1].key, e.key); }
    }
  }

  /** The current block is full. */
  function Flushed(g: Progress, offset: nat): Progress {
    g.(blocks := g.blocks + [g.current], offsets := g.offsets + [offset], current := [], pending := true)
  }

  lemma FlushedIndexed(g: Progress, offset: nat)
    requires Indexed(g) && g.current != []
    ensures Indexed(Flushed(g, offset)) && LastOf(Flushed(g, offset)) == LastOf(g)
    ensures Flat(Flushed(g, offset).blocks) == Flat(g.blocks) + g.current
  {
    var h := Flushed(g, offset);
    assert h.blocks[..|g.blocks|] == g.blocks;
    forall b | 0 <= b < |h.index|
      ensures h.index[b].offset == h.offsets[b] && GapAt(h.index, h.blocks, h.current, b) == true
    {
      assert GapAt(g.index, g.blocks, g.current, b) == true;
      assert BlockOr(h.blocks, b + 1, h.current) == BlockOr(g.blocks, b + 1, g.current);
    }
  }

  lemma FlushedFiltered(g: Progress, offset: nat, offset': nat, groups: seq<set<seq<Byte>>>, pending: seq<seq<Byte>>,
                        groups': seq<set<seq<Byte>>>, pending': seq<seq<Byte>>)
    requires Filtered(g, offset, groups, pending) && |groups'| == offset' / BASE
    requires if |groups'| == |groups| then groups' == groups && pending' == pending
             else pending' == [] && |groups'| > |groups| && groups'[..|groups|] == groups && groups'[|groups|] == KeySet(pending)
    ensures Filtered(Flushed(g, offset), offset', groups', pending')
  {
    var h := Flushed(g, offset);
    assert forall f: nat :: f < |groups| ==> groups'[f] == groups'[..|groups|][f] || groups' == groups;
    forall b, e | 0 <= b < |h.blocks| && e in h.blocks[b] ensures InFilter(h.offsets[b] / BASE, e.key.user, groups', pending') {
      assert InFilter(h.offsets[b] / BASE, e.key.user, groups, pending);
    }
  }

  class TableBuilder {
    const hash: Hash
    const filterBlock: FilterBlockBuilder?
    var offset: nat
    var dataBlock: seq<Entry>
    var index: seq<IndexEntry>
    var lastKey: IKey
    var pendingIndexEntry: bool
    var pendingOffset: nat
    /** The data blocks in the file, and where they start. */
    var blocks: seq<seq<Entry>>
    ghost var offsets: seq<nat>

    ghost function State(): Progress
      reads this
    {
      Progress(blocks, offsets, index, dataBlock, pendingIndexEntry)
    }

    ghost predicate Valid()
      reads this, filterBlock
    {
      && Indexed(State()) == true
      && (LastOf(State()).Some? ==> lastKey == LastOf(State()).value)
      && (pendingIndexEntry ==> pendingOffset == offsets[|offsets| - 1])
      && (filterBlock != null ==>
            filterBlock.Valid() && filterBlock.hash == hash && Filtered(State(), offset, filterBlock.groups, filterBlock.pending) == true)
    }

    /** All entries added. */
    ghost function All(): seq<Entry>
      reads this
    {
      Flat(blocks) + dataBlock
    }

    constructor (hash: Hash, filterBlock: FilterBlockBuilder?)
      requires filterBlock != null ==>
                 filterBlock.Valid() && filterBlock.hash == hash && filterBlock.groups == [] && filterBlock.pending == []
      modifies filterBlock
      ensures Valid() && All() == [] && this.hash == hash && this.filterBlock == filterBlock
    {
      this.hash, this.filterBlock := hash, filterBlock;
      offset, dataBlock, index, lastKey := 0, [], [], IKey([], 0);
      pendingIndexEntry, pendingOffset, blocks, offsets := false, 0, [], [];
      new;
      if filterBlock != null {
        filterBlock.StartBlock(0);
      }
    }

    /** Add an entry with a larger key (table_builder.cc:94-123); `full` and `size` say whether the block is
        then full, and what it takes in the file. */
    method Add(key: IKey, value: seq<Byte>, full: bool, size: nat)
      requires Valid() && (LastOf(State()).Some? ==> Less(LastOf(State()).value, key))
      modifies this, filterBlock
      ensures Valid() && All() == old(All()) + [Entry(key, value)] && LastOf(State()) == Some(key)
      ensures if full then blocks == old(blocks) + [old(dataBlock) + [Entry(key, value)]] && dataBlock == [] && offset == old(offset) + size
              else blocks == old(blocks) && dataBlock == old(dataBlock) + [Entry(key, value)] && offset == old(offset)
      // the index entry of a full block waits for the next key, to be as short as it may
      ensures index == if old(pendingIndexEntry) then old(index) + [IndexEntry(InternalSeparator(old(lastKey), key), old(pendingOffset))]
                       else old(index)
    {
      Take(key, value);
      if full {
        Flush(size);
      }
    }

    method Take(key: IKey, value: seq<Byte>)
      requires Valid() && (LastOf(State()).Some? ==> Less(LastOf(State()).value, key))
      modifies this, filterBlock
      ensures Valid() && All() == old(All()) + [Entry(key, value)] && LastOf(State()) == Some(key)
      ensures blocks == old(blocks) && dataBlock == old(dataBlock) + [Entry(key, value)] && offset == old(offset)
      ensures index == if old(pendingIndexEntry) then old(index) + [IndexEntry(InternalSeparator(old(lastKey), key), old(pendingOffset))]
                       else old(index)
    {
      ghost var g := State();
      var e := Entry(key, value);
      ghost var sep := InternalSeparator(lastKey, key);
      if pendingIndexEntry {
        lastKey := InternalSeparator(lastKey, key);
        index := index + [IndexEntry(lastKey, pendingOffset)];
        pendingIndexEntry := false;
      }
      lastKey := key;
      dataBlock := dataBlock + [e];
      TakenIndexed(g, sep, e);
      assert State() == Taken(g, sep, e);
      assert All() == old(All()) + [e];
      if filterBlock != null {
        TakenFiltered(g, sep, e, offset, filterBlock.groups, filterBlock.pending);
        filterBlock.AddKey(key.user);
      }
    }

    /** Write the current block, if there is anything in it (table_builder.cc:125-139). */
    method Flush(size: nat)
      requires Valid()
      modifies this, filterBlock
      ensures Valid() && All() == old(All()) && LastOf(State()) == old(LastOf(State()))
      ensures dataBlock == [] && (blocks != [] ==> pendingIndexEntry)
      ensures if old(dataBlock) == [] then blocks == old(blocks) && offset == old(offset)
              else blocks == old(blocks) + [old(dataBlock)] && offset == old(offset) + size
      ensures index == old(index) && lastKey == old(lastKey)
    {
      if dataBlock == [] {
        return;
      }
      ghost var g, start := State(), offset;
      FlushedIndexed(g, offset);
      pendingOffset := offset;
      blocks, offsets, dataBlock := blocks + [dataBlock], offsets + [offset], [];
      offset := offset + size;
      pendingIndexEntry := true;
      if filterBlock != null {
        ghost var groups, pending := filterBlock.groups, filterBlock.pending;
        OffsetsGrow(start, offset);
        filterBlock.StartBlock(offset);
        FlushedFiltered(g, start, offset, groups, pending, filterBlock.groups, filterBlock.pending);
      }
    }

    /** The finished filter block, if there is one (table_builder.cc:205-209). */
    method FinishFilter() returns (filter: Option<seq<Byte>>)
      requires Valid()
      modifies filterBlock
      ensures filter.Some? <==> filterBlock != null
      ensures filterBlock != null && |filterBlock.result| < 0x1_0000_0000 ==>
                AllDone(State(), filterBlock.groups) == true && Admits(filter.value, hash, filterBlock.groups) == true
    {
      filter := None;
      if filterBlock != null {
        ghost var groups, pending := filterBlock.groups, filterBlock.pending;
        var contents := filterBlock.Finish();
        filter := Some(contents);
        AllFiltered(State(), offset, groups, pending, filterBlock.groups);
      }
    }

    /** The index entry of the last block, a short key after it (table_builder.cc:228-234). */
    method FinishIndex()
      requires Indexed(State()) == true && dataBlock == [] && (blocks != [] ==> pendingIndexEntry)
      requires LastOf(State()).Some? ==> lastKey == LastOf(State()).value
      requires pendingIndexEntry ==> pendingOffset == offsets[|offsets| - 1]
      modifies this`index, this`lastKey, this`pendingIndexEntry
      ensures index == old(index) + if blocks == [] then [] else [IndexEntry(InternalSuccessor(old(lastKey)), pendingOffset)]
      ensures TableOk(Table(blocks, index, None)) == true
      ensures forall b :: 0 <= b < |blocks| ==> index[b].offset == offsets[b]
    {
      ghost var g := State();
      if pendingIndexEntry {
        lastKey := InternalSuccessor(lastKey);
        index := index + [IndexEntry(lastKey, pendingOffset)];
        pendingIndexEntry := false;
      }
      FinishedOk(g, Table(blocks, index, None));
    }

    /** The finished table (table_builder.cc:198-253). */
    method Finish(size: nat) returns (t: Table)
      requires Valid()
      modifies this, filterBlock
      ensures TableOk(t) && Flat(t.blocks) == old(All())
      ensures t.blocks == old(blocks) + if old(dataBlock) == [] then [] else [old(dataBlock)]
      ensures t.blocks != [] ==>
                |t.index| == |old(index)| + 1 && t.index[..|old(index)|] == old(index)
                && t.index[|old(index)|].key == InternalSuccessor(old(lastKey))
      ensures filterBlock != null && |filterBlock.result| < 0x1_0000_0000 ==> FilterOk(t, hash)
      ensures t.filter.Some? <==> filterBlock != null
    {
      Flush(size);
      assert Flat(blocks) + [] == Flat(blocks);
      var filter := FinishFilter();
      ghost var g := State();
      FinishIndex();
      t := Table(blocks, index, filter);
      SameBlocks(Table(blocks, index, None), t);
      if filterBlock != null && |filterBlock.result| < 0x1_0000_0000 {
        FinishedFiltered(g, t, hash, filterBlock.groups);
      }
    }
  }

  lemma SameBlocks(s: Table, t: Table)
    requires TableOk(s) && t.blocks == s.blocks && t.index == s.index
    ensures TableOk(t) == true
  {
    forall b | 0 <= b < |t.blocks| ensures GapAt(t.index, t.blocks, [], b) == true {
      assert GapAt(s.index, s.blocks, [], b) == true;
    }
  }

  lemma OffsetsGrow(a: nat, b: nat)
    requires a <= b
    ensures a / BASE <= b / BASE
  {}

  ghost predicate AllDone(g: Progress, groups: seq<set<seq<Byte>>>) {
    && |g.offsets| >= |g.blocks|
    && forall b, e :: 0 <= b < |g.blocks| && e in g.blocks[b] ==> InDone(g.offsets[b] / BASE, e.key.user, groups)
  }

  /** The filters admit every key of their groups. */
  ghost predicate Admits(contents: seq<Byte>, hash: Hash, groups: seq<set<seq<Byte>>>) {
    forall f: nat, key, offset: nat :: f < |groups| && key in groups[f] && offset / BASE == f ==> Says(contents, hash, offset, key)
  }

  lemma FinishedFiltered(g: Progress, t: Table, hash: Hash, groups: seq<set<seq<Byte>>>)
    requires t.filter.Some? && t.blocks == g.blocks && |t.index| == |t.blocks| <= |g.offsets|
    requires forall b :: 0 <= b < |t.blocks| ==> t.index[b].offset == g.offsets[b]
    requires AllDone(g, groups) && Admits(t.filter.value, hash, groups)
    ensures FilterOk(t, hash) == true
  {
    forall b, e | 0 <= b < |t.blocks| && e in t.blocks[b] ensures Says(t.filter.value, hash, t.index[b].offset, e.key.user) {
      assert g.offsets[b] == t.index[b].offset;
      assert InDone(g.offsets[b] / BASE, e.key.user, groups);
    }
  }

  /** After the last filter is made, every key is in the filter of its block. */
  lemma AllFiltered(g: Progress, offset: nat, groups: seq<set<seq<Byte>>>, pending: seq<seq<Byte>>, groups': seq<set<seq<Byte>>>)
    requires Filtered(g, offset, groups, pending)
    requires groups' == if pending == [] then groups else groups + [KeySet(pending)]
    ensures AllDone(g, groups') == true
  {
    forall b, e | 0 <= b < |g.blocks| && e in g.blocks[b] ensures InDone(g.offsets[b] / BASE, e.key.user, groups') {
      var f, user := g.offsets[b] / BASE, e.key.user;
      assert InFilter(f, user, groups, pending);
      if f < |groups| {
        assert groups'[f] == groups[f];
      } else {
        assert user in KeySet(pending) && pending != [];
        assert groups'[f] == KeySet(pending);
      }
    }
  }

  lemma FinishedOk(g: Progress, t: Table)
    requires Indexed(g) && g.current == [] && t.blocks == g.blocks && (g.blocks != [] ==> g.pending)
    requires if g.pending then
               var last := g.blocks[|g.blocks| - 1];
               && last != [] && t.index == g.index + [IndexEntry(InternalSuccessor(last[|last| - 1].key), g.offsets[|g.offsets| - 1])]
             else t.index == g.index
    ensures TableOk(t)
    ensures forall b :: 0 <= b < |t.blocks| ==> t.index[b].offset == g.offsets[b]
  {
    var n := |g.blocks|;
    assert |t.index| == n;
    forall b | 0 <= b < n ensures GapAt(t.index, t.blocks, [], b) == true {
      if b == n - 1 {
        GapEnds(g.blocks[b]);
        assert t.index[b].key == InternalSuccessor(g.blocks[b][|g.blocks[b]| - 1].key);
      } else {
        assert t.index[b] == g.index[b];
        assert GapAt(g.index, g.blocks, g.current, b) == true;
        assert BlockOr(t.blocks, b + 1, []) == BlockOr(g.blocks, b + 1, g.current);
      }
    }
    assert forall b :: 0 <= b < n ==> t.blocks[b] != [] && Increasing(t.blocks[b]);
    forall b | 0 <= b < n ensures t.index[b].offset == g.offsets[b] {
      if b < n - 1 { assert t.index[b] == g.index[b]; }
    }
  }
}
