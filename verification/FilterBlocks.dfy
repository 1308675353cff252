/** Filters for stretches of a table, found by block offset (table/filter_block), with Bloom filters. */
module FilterBlocks {
  import opened Coding
  import opened Blooms

  const BASE_LG: nat := 11
  const BASE: nat := 2048

  function PowerOfTwo(n: nat): (p: nat)
    ensures p > 0
  {
    if n == 0 then 1 else 2 * PowerOfTwo(n - 1)
  }

  lemma BaseIsPower()
    ensures PowerOfTwo(BASE_LG) == BASE
  {
    assert PowerOfTwo(4) == 16;
    assert PowerOfTwo(8) == 16 * PowerOfTwo(4);
  }

  // ---- Reading ----

  function Word32At(s: seq<Byte>, at: nat): Word
    requires at + 4 <= |s|
  {
    DecodeFixed32(s[at..at + 4])
  }

  /** What a filter block answers for a key of the block at `offset`; errors are potential matches. */
  ghost predicate Says(contents: seq<Byte>, hash: Hash, offset: nat, key: seq<Byte>) {
    var n := |contents|;
    n >= 5 ==>
      var arrayAt := Word32At(contents, n - 5);
      var index := offset / PowerOfTwo(contents[n - 1]);
      arrayAt <= n - 5 && index < (n - 5 - arrayAt) / 4 ==>
        var start, limit := Word32At(contents, arrayAt + 4 * index), Word32At(contents, arrayAt + 4 * index + 4);
        if start <= limit && limit <= arrayAt then MayMatch(hash, key, contents[start..limit])
        else start != limit
  }

  lemma EntryInside(n: nat, start: nat, num: nat, index: nat)
    requires n >= 5 && start <= n - 5 && num == (n - 5 - start) / 4 && index < num
    ensures start + 4 * index + 8 <= n
  {}

  class FilterBlockReader {
    const contents: seq<Byte>
    const hash: Hash
    const baseLg: nat
    const arrayAt: nat
    const num: nat

    /** filter_block.cc:77-88 */
    constructor (hash: Hash, contents: seq<Byte>)
      ensures this.hash == hash && this.contents == contents && Valid()
    {
      var n := |contents|;
      this.hash, this.contents := hash, contents;
      baseLg, arrayAt, num := 0, 0, 0;
      if n >= 5 {
        baseLg := contents[n - 1];
        var lastWord: nat := DecodeFixed32(contents[n - 5..n - 1]);
        if lastWord <= n - 5 {
          arrayAt, num := lastWord, (n - 5 - lastWord) / 4;
        }
      }
    }

    ghost predicate Valid() {
      var n := |contents|;
      if n >= 5 && Word32At(contents, n - 5) <= n - 5 then
        baseLg == contents[n - 1] && arrayAt == Word32At(contents, n - 5) && num == (n - 5 - arrayAt) / 4
      else num == 0
    }

    /** filter_block.cc:90-104 */
    method KeyMayMatch(blockOffset: nat, key: seq<Byte>) returns (may: bool)
      requires Valid()
      ensures may <==> Says(contents, hash, blockOffset, key)
    {
      var index := blockOffset / PowerOfTwo(baseLg);
      if index < num {
        EntryInside(|contents|, arrayAt, num, index);
        var start := Word32At(contents, arrayAt + 4 * index);
        var limit := Word32At(contents, arrayAt + 4 * index + 4);
        if start <= limit && limit <= arrayAt {
          may := Blooms.KeyMayMatch(hash, key, contents[start..limit]);
          return;
        } else if start == limit {
          return false;
        }
      }
      may := true;
    }
  }

  // ---- Building ----

  /** Where filter `f` ends. */
  function EndOf(offsets: seq<nat>, result: seq<Byte>, f: nat): nat {
    if f + 1 < |offsets| then offsets[f + 1] else |result|
  }

  /** The filter of these keys: nothing if there are none. */
  ghost predicate FilterOf(hash: Hash, filter: seq<Byte>, keys: seq<seq<Byte>>, bitsPerKey: nat, k: nat) {
    if keys == [] then filter == []
    else
      && |filter| == FilterBytes(|keys|, bitsPerKey) + 1 && filter[|filter| - 1] == k
      && ExactlyProbed(filter[..|filter| - 1], hash, keys, k)
  }

  /** Each probe of `key` is also a probe of one of the keys. */
  ghost predicate ProbesHit(hash: Hash, keys: seq<seq<Byte>>, bitsPerKey: nat, k: nat, key: seq<Byte>) {
    && keys != []
    && forall j: nat :: j < k ==> ProbeHits(hash, keys, 8 * FilterBytes(|keys|, bitsPerKey), k, key, j)
  }

  ghost predicate ProbeHits(hash: Hash, keys: seq<seq<Byte>>, bits: nat, k: nat, key: seq<Byte>, j: nat)
    requires bits > 0
  {
    ProbedByOne(hash, keys, k, bits, Probe(hash(key), j) % bits)
  }

  /** A filter matches exactly what hits it. */
  lemma FilterMatches(hash: Hash, filter: seq<Byte>, keys: seq<seq<Byte>>, bitsPerKey: nat, k: nat, key: seq<Byte>)
    requires 1 <= k <= 30 && FilterOf(hash, filter, keys, bitsPerKey, k)
    ensures MayMatch(hash, key, filter) <==> ProbesHit(hash, keys, bitsPerKey, k, key)
  {
    if keys != [] {
      var marks := filter[..|filter| - 1];
      var bits := 8 * |marks|;
      forall j: nat | j < k ensures Bit(marks, Probe(hash(key), j) % bits) == ProbeHits(hash, keys, bits, k, key, j) {}
    }
  }

  /** A key hits its own filter. */
  lemma OwnProbesHit(hash: Hash, keys: seq<seq<Byte>>, bitsPerKey: nat, k: nat, key: seq<Byte>)
    requires key in keys
    ensures ProbesHit(hash, keys, bitsPerKey, k, key)
  {
    var i :| 0 <= i < |keys| && keys[i] == key;
    var bits := 8 * FilterBytes(|keys|, bitsPerKey);
    forall j: nat | j < k ensures ProbeHits(hash, keys, bits, k, key, j) {
      assert Probed(hash(keys[i]), k, bits, Probe(hash(key), j) % bits);
    }
  }

  /** Filter `f` is the filter of these keys. */
  ghost predicate Placed(hash: Hash, result: seq<Byte>, offsets: seq<nat>, f: nat, keys: seq<seq<Byte>>, bitsPerKey: nat, k: nat) {
    && f < |offsets| && offsets[f] <= EndOf(offsets, result, f) <= |result|
    && FilterOf(hash, result[offsets[f]..EndOf(offsets, result, f)], keys, bitsPerKey, k)
  }

  lemma PlacedStays(hash: Hash, result: seq<Byte>, offsets: seq<nat>, f: nat, keys: seq<seq<Byte>>, bitsPerKey: nat, k: nat,
                    more: seq<Byte>)
    requires Placed(hash, result, offsets, f, keys, bitsPerKey, k)
    ensures Placed(hash, result + more, offsets + [|result|], f, keys, bitsPerKey, k) == true
  {
    assert (result + more)[offsets[f]..EndOf(offsets, result, f)] == result[offsets[f]..EndOf(offsets, result, f)];
  }

  /** The filter made last. */
  lemma LastPlaced(hash: Hash, result: seq<Byte>, offsets: seq<nat>, keys: seq<seq<Byte>>, bitsPerKey: nat, k: nat, more: seq<Byte>)
    requires FilterOf(hash, more, keys, bitsPerKey, k)
    ensures Placed(hash, result + more, offsets + [|result|], |offsets|, keys, bitsPerKey, k) == true
  {
    assert (result + more)[|result|..|result + more|] == more;
  }

  class FilterBlockBuilder {
    const hash: Hash
    const bitsPerKey: nat
    const k: nat
    var keys: seq<Byte>
    var start: seq<nat>
    var result: seq<Byte>
    var filterOffsets: seq<nat>
    /** The keys not yet in a filter, and those of every filter. */
    ghost var pending: seq<seq<Byte>>
    ghost var lists: seq<seq<seq<Byte>>>
    ghost var groups: seq<set<seq<Byte>>>

    constructor (hash: Hash, bitsPerKey: nat, k: nat)
      requires 1 <= k <= 30
      ensures Valid() && groups == [] && pending == [] && lists == []
      ensures this.hash == hash && this.bitsPerKey == bitsPerKey && this.k == k
    {
      this.hash, this.bitsPerKey, this.k := hash, bitsPerKey, k;
      keys, start, result, filterOffsets, pending, groups, lists := [], [], [], [], [], [], [];
    }

    ghost predicate Valid()
      reads this
    {
      && 1 <= k <= 30 && |groups| == |lists| == |filterOffsets| && |start| == |pending|
      && Flattened(keys, start, pending) == true
      && (forall f: nat :: f < |lists| ==> Placed(hash, result, filterOffsets, f, lists[f], bitsPerKey, k) == true)
      && (forall f: nat :: f < |lists| ==> groups[f] == KeySet(lists[f]))
    }

    /** Make filters up to the one for the block that starts here. */
    method StartBlock(blockOffset: nat)
      requires Valid() && blockOffset / BASE >= |filterOffsets|
      modifies this
      ensures Valid() && |groups| == blockOffset / BASE
      ensures if blockOffset / BASE == |old(groups)| then groups == old(groups) && pending == old(pending)
              else pending == [] && |groups| > |old(groups)| && groups[..|old(groups)|] == old(groups)
                   && groups[|old(groups)|] == KeySet(old(pending))
      ensures lists == old(lists) + Extra(old(pending), blockOffset / BASE - |old(groups)|)
    {
      var filterIndex := blockOffset / BASE;
      while filterIndex > |filterOffsets|
        invariant Valid() && filterIndex >= |filterOffsets| && |groups| >= |old(groups)|
        invariant if |groups| == |old(groups)| then groups == old(groups) && pending == old(pending)
                  else pending == [] && groups[..|old(groups)|] == old(groups) && groups[|old(groups)|] == KeySet(old(pending))
        invariant lists == old(lists) + Extra(old(pending), |groups| - |old(groups)|)
        decreases filterIndex - |filterOffsets|
      {
        GenerateFilter();
      }
    }

    method AddKey(key: seq<Byte>)
      requires Valid()
      modifies this
      ensures Valid() && groups == old(groups) && lists == old(lists) && pending == old(pending) + [key]
    {
      FlattenMore(keys, start, pending, key);
      start := start + [|keys|];
      keys := keys + key;
      pending := pending + [key];
    }

    /** The pending keys, from where they were put one after the other. */
    method PendingKeys() returns (tmpKeys: seq<seq<Byte>>)
      requires Valid()
      ensures tmpKeys == pending
    {
      var bounds := start + [|keys|];
      tmpKeys := [];
      for i := 0 to |start|
        invariant tmpKeys == pending[..i]
      {
        KeyAt(keys, start, pending, i);
        tmpKeys := tmpKeys + [keys[bounds[i]..bounds[i + 1]]];
      }
    }

    /** One filter for all pending keys, empty if there are none (filter_block.cc:51-75). */
    method GenerateFilter()
      requires Valid()
      modifies this
      ensures Valid() && pending == [] && groups == old(groups) + [KeySet(old(pending))] && lists == old(lists) + [old(pending)]
    {
      ghost var before, offsets := result, filterOffsets;
      if |start| == 0 {
        filterOffsets := filterOffsets + [|result|];
        assert before + [] == before;
        LastPlaced(hash, before, offsets, [], bitsPerKey, k, []);
      } else {
        var tmpKeys := PendingKeys();
        filterOffsets := filterOffsets + [|result|];
        result := CreateFilter(hash, tmpKeys, bitsPerKey, k, result);
        assert result == before + result[|before|..];
        MadeFilter(hash, pending, bitsPerKey, k, before, result);
        LastPlaced(hash, before, offsets, pending, bitsPerKey, k, result[|before|..]);
        keys, start := [], [];
      }
      ghost var more := result[|before|..];
      forall f: nat | f < |lists| ensures Placed(hash, result, filterOffsets, f, lists[f], bitsPerKey, k) == true {
        PlacedStays(hash, before, offsets, f, lists[f], bitsPerKey, k, more);
      }
      groups, lists, pending := groups + [KeySet(pending)], lists + [pending], [];
    }

    /** The finished block (filter_block.cc:35-49); offsets are written in 32 bits. */
    method Finish() returns (contents: seq<Byte>)
      requires Valid()
      modifies this
      ensures Valid() && pending == []
      ensures groups == if old(pending) == [] then old(groups) else old(groups) + [KeySet(old(pending))]
      ensures lists == if old(pending) == [] then old(lists) else old(lists) + [old(pending)]
      ensures |result| < 0x1_0000_0000 ==>
                forall f: nat, key, offset: nat :: f < |groups| && key in groups[f] && offset / BASE == f ==>
                  Says(contents, hash, offset, key)
      ensures |result| < 0x1_0000_0000 ==> SaysExactly(contents, hash, lists, bitsPerKey, k) == true
    {
      if |start| != 0 {
        GenerateFilter();
      }
      var arrayOffset := |result|;
      contents := result;
      for i := 0 to |filterOffsets|
        invariant contents == result + Fixed32s(filterOffsets[..i])
      {
        assert filterOffsets[..i + 1][..i] == filterOffsets[..i];
        contents := contents + EncodeFixed32(filterOffsets[i] % 0x1_0000_0000);
      }
      assert filterOffsets[..|filterOffsets|] == filterOffsets;
      contents := contents + EncodeFixed32(arrayOffset % 0x1_0000_0000);
      contents := contents + [BASE_LG];
      if |result| < 0x1_0000_0000 {
        assert Finished(contents, result, filterOffsets);
        FinishedExact(hash, result, filterOffsets, lists, bitsPerKey, k, contents);
        FinishedAdmits(hash, groups, lists, bitsPerKey, k, contents);
      }
    }
  }

  /** A reader says yes exactly to what hits the filter of the block's range, and to every key past the last filter. */
  ghost predicate SaysExactly(contents: seq<Byte>, hash: Hash, lists: seq<seq<seq<Byte>>>, bitsPerKey: nat, k: nat) {
    forall key, offset: nat :: Says(contents, hash, offset, key)
      == (offset / BASE < |lists| ==> ProbesHit(hash, lists[offset / BASE], bitsPerKey, k, key))
  }

  lemma FinishedExact(hash: Hash, result: seq<Byte>, offsets: seq<nat>, lists: seq<seq<seq<Byte>>>, bitsPerKey: nat, k: nat,
                      contents: seq<Byte>)
    requires 1 <= k <= 30 && Finished(contents, result, offsets) == true && |lists| == |offsets|
    requires forall f: nat :: f < |lists| ==> Placed(hash, result, offsets, f, lists[f], bitsPerKey, k) == true
    ensures SaysExactly(contents, hash, lists, bitsPerKey, k) == true
  {
    forall key, offset: nat
      ensures Says(contents, hash, offset, key)
              == (offset / BASE < |lists| ==> ProbesHit(hash, lists[offset / BASE], bitsPerKey, k, key))
    {
      var f := offset / BASE;
      if f < |lists| {
        assert Placed(hash, result, offsets, f, lists[f], bitsPerKey, k) == true;
        FinishedSays(hash, result, offsets, f, lists[f], bitsPerKey, k, contents, offset, key);
      } else {
        SaysPastTheLast(hash, result, offsets, contents, offset, key);
      }
    }
  }

  lemma FinishedAdmits(hash: Hash, groups: seq<set<seq<Byte>>>, lists: seq<seq<seq<Byte>>>, bitsPerKey: nat, k: nat,
                       contents: seq<Byte>)
    requires SaysExactly(contents, hash, lists, bitsPerKey, k) && |groups| == |lists|
    requires forall f: nat :: f < |lists| ==> groups[f] == KeySet(lists[f])
    ensures forall f: nat, key, offset: nat :: f < |groups| && key in groups[f] && offset / BASE == f ==>
              Says(contents, hash, offset, key)
  {
    forall f: nat, key, offset: nat | f < |groups| && key in groups[f] && offset / BASE == f
      ensures Says(contents, hash, offset, key)
    {
      OwnProbesHit(hash, lists[f], bitsPerKey, k, key);
    }
  }

  /** The lists of `n` filters made one after the other: the first takes what is pending, the others nothing. */
  function Extra(pending: seq<seq<Byte>>, n: nat): seq<seq<seq<Byte>>> {
    if n == 0 then [] else [pending] + seq(n - 1, _ => [])
  }

  function KeySet(keys: seq<seq<Byte>>): set<seq<Byte>> {
    set k | k in keys
  }

  // ---- Keys end to end ----

  function Concat(keys: seq<seq<Byte>>): seq<Byte> {
    if keys == [] then [] else Concat(keys[..|keys| - 1]) + keys[|keys| - 1]
  }

  ghost predicate Flattened(flat: seq<Byte>, start: seq<nat>, keys: seq<seq<Byte>>) {
    && |start| == |keys| && flat == Concat(keys)
    && forall i :: 0 <= i < |keys| ==> start[i] == |Concat(keys[..i])|
  }

  lemma FlattenMore(flat: seq<Byte>, start: seq<nat>, keys: seq<seq<Byte>>, key: seq<Byte>)
    requires Flattened(flat, start, keys)
    ensures Flattened(flat + key, start + [|flat|], keys + [key])
  {
    assert (keys + [key])[..|keys|] == keys;
    assert forall i :: 0 <= i <= |keys| ==> (keys + [key])[..i] == keys[..i];
  }

  lemma {:induction false} ConcatPrefix(keys: seq<seq<Byte>>, i: nat)
    requires i <= |keys|
    ensures |Concat(keys[..i])| <= |Concat(keys)| && Concat(keys)[..|Concat(keys[..i])|] == Concat(keys[..i])
  {
    if i == |keys| {
      assert keys[..i] == keys;
    } else {
      var n := |keys| - 1;
      ConcatPrefix(keys[..n], i);
      assert keys[..n][..i] == keys[..i];
    }
  }

  lemma KeyAt(flat: seq<Byte>, start: seq<nat>, keys: seq<seq<Byte>>, i: nat)
    requires Flattened(flat, start, keys) && i < |keys|
    ensures var end := (start + [|flat|])[i + 1];
            start[i] <= end <= |flat| && flat[start[i]..end] == keys[i]
  {
    ConcatPrefix(keys, i + 1);
    var end := (start + [|flat|])[i + 1];
    assert keys[..|keys|] == keys;
    assert end == |Concat(keys[..i + 1])|;
    assert keys[..i + 1][..i] == keys[..i];
    assert flat[..end] == Concat(keys[..i]) + keys[i];
    assert flat[start[i]..end] == flat[..end][start[i]..];
  }

  /** What CreateFilter appends is the filter of the keys. */
  lemma MadeFilter(hash: Hash, keys: seq<seq<Byte>>, bitsPerKey: nat, k: nat, before: seq<Byte>, after: seq<Byte>)
    requires keys != [] && |after| == |before| + FilterBytes(|keys|, bitsPerKey) + 1 && after[|after| - 1] == k
    requires ExactlyProbed(after[|before|..|after| - 1], hash, keys, k)
    ensures FilterOf(hash, after[|before|..], keys, bitsPerKey, k) == true
  {
    var filter := after[|before|..];
    assert filter[..|filter| - 1] == after[|before|..|after| - 1];
  }

  lemma WordFromSlice(s: seq<Byte>, at: nat, v: Word)
    requires at + 4 <= |s| && s[at..at + 4] == EncodeFixed32(v)
    ensures Word32At(s, at) == v
  {
    Fixed32RoundTrip(v, []);
    assert EncodeFixed32(v) + [] == EncodeFixed32(v);
  }

  lemma SliceInTable(a: seq<Byte>, b: seq<Byte>, c: seq<Byte>, d: seq<Byte>, at: nat)
    requires |c| == 4
    ensures at + 4 <= |b| ==> (a + b + c + d)[|a| + at..|a| + at + 4] == b[at..at + 4]
    ensures (a + b + c + d)[|a| + |b|..|a| + |b| + 4] == c
  {}

  /** A word of the offset array, or the word after it. */
  lemma OffsetWord(result: seq<Byte>, table: seq<Byte>, last: seq<Byte>, contents: seq<Byte>, at: nat, v: Word, e: seq<Byte>)
    requires |last| == 4 && contents == result + table + last + [BASE_LG] && e == EncodeFixed32(v)
    requires if at < |table| then at + 4 <= |table| && table[at..at + 4] == e else at == |table| && last == e
    ensures |contents| == |result| + |table| + 5 && Word32At(contents, |result| + at) == v
  {
    SliceInTable(result, table, last, [BASE_LG], at);
    WordFromSlice(contents, |result| + at, v);
  }

  /** What the reader looks up, once the words it reads are known. */
  ghost predicate WordIs(s: seq<Byte>, at: nat, v: nat) {
    at + 4 <= |s| && Word32At(s, at) == v
  }

  lemma SaysFrom(contents: seq<Byte>, hash: Hash, offset: nat, key: seq<Byte>, m: nat, num: nat, f: nat, start: nat, limit: nat)
    requires |contents| == m + 4 * num + 5 && contents[|contents| - 1] == BASE_LG && WordIs(contents, m + 4 * num, m) == true
    requires offset / BASE == f < num
    requires WordIs(contents, m + 4 * f, start) == true && WordIs(contents, m + 4 * f + 4, limit) == true
    requires start <= limit <= m
    ensures Says(contents, hash, offset, key) == MayMatch(hash, key, contents[start..limit])
  {
    BaseIsPower();
    assert (|contents| - 5 - m) / 4 == num;
  }

  lemma OffsetEntry(result: seq<Byte>, offsets: seq<nat>, table: seq<Byte>, last: seq<Byte>, contents: seq<Byte>, i: nat, v: Word,
                    at: nat)
    requires i < |offsets| && v == offsets[i] && table == Fixed32s(offsets) && at == |result| + 4 * i
    requires |last| == 4 && contents == result + table + last + [BASE_LG]
    ensures WordIs(contents, at, v) == true
  {
    Fixed32sAt(offsets, i);
    OffsetWord(result, table, last, contents, 4 * i, v, EncodeFixed32(v));
  }

  lemma LastByte(front: seq<Byte>, contents: seq<Byte>)
    requires contents == front + [BASE_LG]
    ensures |contents| == |front| + 1 && contents[|front|] == BASE_LG
  {}

  lemma LastEntry(result: seq<Byte>, table: seq<Byte>, last: seq<Byte>, contents: seq<Byte>, v: Word, at: nat)
    requires last == EncodeFixed32(v) && contents == result + table + last + [BASE_LG] && at == |result| + |table|
    ensures |contents| == at + 5 && WordIs(contents, at, v) == true && contents[|contents| - 1] == BASE_LG
  {
    OffsetWord(result, table, last, contents, |table|, v, last);
    LastByte(result + table + last, contents);
  }

  /** What a finished block consists of. */
  ghost predicate Finished(contents: seq<Byte>, result: seq<Byte>, offsets: seq<nat>) {
    |result| < 0x1_0000_0000 && contents == result + Fixed32s(offsets) + EncodeFixed32(|result|) + [BASE_LG]
  }

  lemma FinishedEnd(contents: seq<Byte>, result: seq<Byte>, offsets: seq<nat>)
    requires Finished(contents, result, offsets)
    ensures |contents| == |result| + 4 * |offsets| + 5 && contents[|contents| - 1] == BASE_LG
    ensures WordIs(contents, |result| + 4 * |offsets|, |result|) == true
  {
    LastEntry(result, Fixed32s(offsets), EncodeFixed32(|result|), contents, |result|, |result| + 4 * |offsets|);
  }

  lemma FinishedStart(contents: seq<Byte>, result: seq<Byte>, offsets: seq<nat>, f: nat)
    requires Finished(contents, result, offsets) && f < |offsets| && offsets[f] <= |result|
    ensures WordIs(contents, |result| + 4 * f, offsets[f]) == true
  {
    OffsetEntry(result, offsets, Fixed32s(offsets), EncodeFixed32(|result|), contents, f, offsets[f], |result| + 4 * f);
  }

  lemma FinishedLimit(contents: seq<Byte>, result: seq<Byte>, offsets: seq<nat>, f: nat)
    requires Finished(contents, result, offsets) && f < |offsets| && EndOf(offsets, result, f) <= |result|
    ensures WordIs(contents, |result| + 4 * f + 4, EndOf(offsets, result, f)) == true
  {
    var at := |result| + 4 * f + 4;
    if f + 1 < |offsets| {
      OffsetEntry(result, offsets, Fixed32s(offsets), EncodeFixed32(|result|), contents, f + 1, offsets[f + 1], at);
    } else {
      LastEntry(result, Fixed32s(offsets), EncodeFixed32(|result|), contents, |result|, at);
    }
  }

  lemma FinishedFilter(contents: seq<Byte>, result: seq<Byte>, offsets: seq<nat>, start: nat, limit: nat)
    requires Finished(contents, result, offsets) && start <= limit <= |result|
    ensures |contents| >= |result| && contents[start..limit] == result[start..limit]
  {
    SliceOfHead(result, Fixed32s(offsets), EncodeFixed32(|result|), [BASE_LG], start, limit);
  }

  lemma FinishedSays(hash: Hash, result: seq<Byte>, offsets: seq<nat>, f: nat, keys: seq<seq<Byte>>, bitsPerKey: nat, k: nat,
                     contents: seq<Byte>, offset: nat, key: seq<Byte>)
    requires 1 <= k <= 30 && offset / BASE == f && Finished(contents, result, offsets) == true
    requires Placed(hash, result, offsets, f, keys, bitsPerKey, k)
    ensures Says(contents, hash, offset, key) == ProbesHit(hash, keys, bitsPerKey, k, key)
  {
    var start, limit := offsets[f], EndOf(offsets, result, f);
    FinishedEnd(contents, result, offsets);
    FinishedStart(contents, result, offsets, f);
    FinishedLimit(contents, result, offsets, f);
    FinishedFilter(contents, result, offsets, start, limit);
    SaysFrom(contents, hash, offset, key, |result|, |offsets|, f, start, limit);
    FilterMatches(hash, result[start..limit], keys, bitsPerKey, k, key);
  }

  lemma SaysPastTheLast(hash: Hash, result: seq<Byte>, offsets: seq<nat>, contents: seq<Byte>, offset: nat, key: seq<Byte>)
    requires offset / BASE >= |offsets| && Finished(contents, result, offsets) == true
    ensures Says(contents, hash, offset, key)
  {
    BaseIsPower();
    FinishedEnd(contents, result, offsets);
    assert (|contents| - 5 - |result|) / 4 == |offsets|;
  }

  lemma SliceOfHead(a: seq<Byte>, b: seq<Byte>, c: seq<Byte>, d: seq<Byte>, i: nat, j: nat)
    requires i <= j <= |a|
    ensures (a + b + c + d)[i..j] == a[i..j]
  {}
}
