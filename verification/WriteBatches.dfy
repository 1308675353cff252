/** The wire form of a batch of updates (db/write_batch). */
module WriteBatches {
  import opened Coding

  datatype Op = Put(key: seq<Byte>, value: seq<Byte>) | Delete(key: seq<Byte>)

  const TYPE_DELETION: Byte := 0
  const TYPE_VALUE: Byte := 1
  const HEADER: nat := 12

  /** Lengths are written in 32 bits. */
  predicate Encodable(op: Op) {
    |op.key| < 0x1_0000_0000 && (op.Put? ==> |op.value| < 0x1_0000_0000)
  }

  function EncodeOp(op: Op): seq<Byte> {
    match op
    case Put(k, v) => [TYPE_VALUE] + PutLengthPrefixed(k) + PutLengthPrefixed(v)
    case Delete(k) => [TYPE_DELETION] + PutLengthPrefixed(k)
  }

  function EncodeOps(ops: seq<Op>): seq<Byte> {
    if ops == [] then [] else EncodeOp(ops[0]) + EncodeOps(ops[1..])
  }

  lemma {:induction false} EncodeAppend(a: seq<Op>, b: seq<Op>)
    ensures EncodeOps(a + b) == EncodeOps(a) + EncodeOps(b)
  {
    if a == [] {
      assert a + b == b;
    } else {
      assert (a + b)[1..] == a[1..] + b;
      EncodeAppend(a[1..], b);
    }
  }

  lemma EncodeOne(op: Op)
    ensures EncodeOps([op]) == EncodeOp(op)
  {
    assert EncodeOps([op]) == EncodeOp(op) + EncodeOps([]);
  }

  // ---- Reading a batch ----

  /** The update at the front of the input, or nothing if it is malformed. */
  function ParseOp(input: seq<Byte>): (r: Got<Op>)
    requires input != []
    ensures r.Got? ==> |r.rest| < |input|
  {
    if input[0] == TYPE_VALUE then
      match GetLengthPrefixed(input[1..])
      case Missing => Missing
      case Got(k, rest) =>
        match GetLengthPrefixed(rest)
        case Missing => Missing
        case Got(v, rest') => Got(Op.Put(k, v), rest')
    else if input[0] == TYPE_DELETION then
      match GetLengthPrefixed(input[1..])
      case Missing => Missing
      case Got(k, rest) => Got(Op.Delete(k), rest)
    else Missing
  }

  lemma ParsePut(s: seq<Byte>, k: seq<Byte>, v: seq<Byte>, rest: seq<Byte>, tail: seq<Byte>)
    requires s != [] && s[0] == TYPE_VALUE
    requires GetLengthPrefixed(s[1..]) == Got(k, rest) && GetLengthPrefixed(rest) == Got(v, tail)
    ensures ParseOp(s) == Got(Op.Put(k, v), tail)
  {}

  lemma ParseDelete(s: seq<Byte>, k: seq<Byte>, tail: seq<Byte>)
    requires s != [] && s[0] == TYPE_DELETION && GetLengthPrefixed(s[1..]) == Got(k, tail)
    ensures ParseOp(s) == Got(Op.Delete(k), tail)
  {}

  lemma Behind(x: Byte, a: seq<Byte>, b: seq<Byte>)
    ensures (([x] + a) + b)[1..] == a + b
  {}

  lemma OpRoundTrip(op: Op, tail: seq<Byte>)
    requires Encodable(op)
    ensures ParseOp(EncodeOp(op) + tail) == Got(op, tail)
  {
    var k := PutLengthPrefixed(op.key);
    match op
    case Put(key, value) =>
      var v := PutLengthPrefixed(value);
      LengthPrefixedRead(value, tail);
      LengthPrefixedRead(key, v + tail);
      assert ([TYPE_VALUE] + k + v) + tail == ([TYPE_VALUE] + k) + (v + tail);
      Behind(TYPE_VALUE, k, v + tail);
      ParsePut(([TYPE_VALUE] + k) + (v + tail), key, value, v + tail, tail);
    case Delete(key) =>
      LengthPrefixedRead(key, tail);
      Behind(TYPE_DELETION, k, tail);
      ParseDelete(([TYPE_DELETION] + k) + tail, key, tail);
  }

  /** The updates a reader sees, and whether it reaches the end of the input without a malformed one. */
  function ParseOps(input: seq<Byte>): (seq<Op>, bool)
    decreases |input|
  {
    if input == [] then ([], true)
    else
      match ParseOp(input)
      case Missing => ([], false)
      case Got(op, rest) => ([op] + ParseOps(rest).0, ParseOps(rest).1)
  }

  lemma {:induction false} OpsRoundTrip(ops: seq<Op>)
    requires forall op :: op in ops ==> Encodable(op)
    ensures ParseOps(EncodeOps(ops)) == (ops, true)
  {
    if ops != [] {
      OpsRoundTrip(ops[1..]);
      OpRoundTrip(ops[0], EncodeOps(ops[1..]));
      assert [ops[0]] + ops[1..] == ops;
    }
  }

  // ---- The batch ----

  /** The bytes are the header and the updates in order; the count is kept in 32 bits. */
  ghost predicate Represents(rep: seq<Byte>, sequence: Word64, ops: seq<Op>) {
    && rep == EncodeFixed64(sequence) + EncodeFixed32(|ops| % 0x1_0000_0000) + EncodeOps(ops)
    && forall op :: op in ops ==> Encodable(op)
  }

  lemma ExtendRepresents(rep: seq<Byte>, sequence: Word64, ops: seq<Op>, more: seq<Op>, count: Word, total: Word)
    requires Represents(rep, sequence, ops) && count == |ops| % 0x1_0000_0000
    requires forall op :: op in more ==> Encodable(op)
    requires total == |ops + more| % 0x1_0000_0000
    ensures |rep| >= HEADER
    ensures Represents(rep[..8] + EncodeFixed32(total) + rep[12..] + EncodeOps(more), sequence, ops + more)
  {
    var body, bytes := EncodeOps(ops), EncodeOps(more);
    assert rep == EncodeFixed64(sequence) + EncodeFixed32(count) + body;
    ExtendParts(rep, sequence, count, body, total, bytes);
    EncodeAppend(ops, more);
  }

  lemma CountSum(ops: seq<Op>, more: seq<Op>, c: Word, n: Word, total: Word)
    requires c == |ops| % 0x1_0000_0000 && n == |more| % 0x1_0000_0000 && total == (c + n) % 0x1_0000_0000
    ensures total == |ops + more| % 0x1_0000_0000
  {
    SumModWord(|ops|, |more|);
  }

  lemma SequenceRepresents(rep: seq<Byte>, sequence: Word64, ops: seq<Op>, s: Word64)
    requires Represents(rep, sequence, ops)
    ensures |rep| >= HEADER && Represents(EncodeFixed64(s) + rep[8..], s, ops)
  {
    var count, body := EncodeFixed32(|ops| % 0x1_0000_0000), EncodeOps(ops);
    HeaderParts(rep, sequence, |ops| % 0x1_0000_0000, body);
    assert EncodeFixed64(s) + (count + body) == EncodeFixed64(s) + count + body;
  }

  class WriteBatch {
    var rep: seq<Byte>
    ghost var sequence: Word64
    ghost var ops: seq<Op>

    ghost predicate Valid()
      reads this
    {
      Represents(rep, sequence, ops) == true
    }

    constructor ()
      ensures Valid() && ops == [] && sequence == 0
    {
      ops, sequence := [], 0;
      rep := [0, 0, 0, 0, 0, 0, 0, 0, 0, 0, 0, 0];
    }

    method Clear()
      modifies this
      ensures Valid() && ops == [] && sequence == 0
    {
      ops, sequence := [], 0;
      rep := [0, 0, 0, 0, 0, 0, 0, 0, 0, 0, 0, 0];
    }

    /** What the batch takes in the log. */
    function ByteSize(): nat
      reads this
    {
      |rep|
    }

    method Count() returns (n: Word)
      requires Valid()
      ensures n == |ops| % 0x1_0000_0000
    {
      n := DecodeFixed32(rep[8..]);
      HeaderParts(rep, sequence, |ops| % 0x1_0000_0000, EncodeOps(ops));
    }

    method Sequence() returns (s: Word64)
      requires Valid()
      ensures s == sequence
    {
      s := DecodeFixed64(rep);
      HeaderParts(rep, sequence, |ops| % 0x1_0000_0000, EncodeOps(ops));
    }

    method SetSequence(s: Word64)
      requires Valid()
      modifies this`rep, this`sequence
      ensures Valid() && sequence == s
    {
      SequenceRepresents(rep, sequence, ops, s);
      rep := EncodeFixed64(s) + rep[8..];
      sequence := s;
    }

    /** Count `n` more updates and append their bytes. */
    method Extend(n: Word, bytes: seq<Byte>, ghost more: seq<Op>)
      requires Valid() && n == |more| % 0x1_0000_0000 && bytes == EncodeOps(more)
      requires forall op :: op in more ==> Encodable(op)
      modifies this`rep, this`ops
      ensures Valid() == true && ops == old(ops) + more
    {
      var c := Count();
      var total := (c + n) % 0x1_0000_0000;
      CountSum(ops, more, c, n, total);
      ExtendRepresents(rep, sequence, ops, more, c, total);
      rep := rep[..8] + EncodeFixed32(total) + rep[12..] + bytes;
      ops := ops + more;
    }

    method Put(key: seq<Byte>, value: seq<Byte>)
      requires Valid() && Encodable(Op.Put(key, value))
      modifies this`rep, this`ops
      ensures Valid() && ops == old(ops) + [Op.Put(key, value)]
    {
      EncodeOne(Op.Put(key, value));
      Extend(1, [TYPE_VALUE] + PutLengthPrefixed(key) + PutLengthPrefixed(value), [Op.Put(key, value)]);
    }

    method Delete(key: seq<Byte>)
      requires Valid() && Encodable(Op.Delete(key))
      modifies this`rep, this`ops
      ensures Valid() && ops == old(ops) + [Op.Delete(key)]
    {
      EncodeOne(Op.Delete(key));
      Extend(1, [TYPE_DELETION] + PutLengthPrefixed(key), [Op.Delete(key)]);
    }

    /** The updates of `source` after those already here; `source` is left alone. */
    method Append(source: WriteBatch)
      requires Valid() && source.Valid() && source != this
      modifies this`rep, this`ops
      ensures Valid() && ops == old(ops) + source.ops
    {
      var n := source.Count();
      HeaderParts(source.rep, source.sequence, |source.ops| % 0x1_0000_0000, EncodeOps(source.ops));
      Extend(n, source.rep[12..], source.ops);
    }
  }

  lemma SumModWord(a: nat, b: nat)
    ensures (a % 0x1_0000_0000 + b % 0x1_0000_0000) % 0x1_0000_0000 == (a + b) % 0x1_0000_0000
  {}

  lemma ExtendParts(rep: seq<Byte>, sequence: Word64, count: Word, body: seq<Byte>, total: Word, bytes: seq<Byte>)
    requires rep == EncodeFixed64(sequence) + EncodeFixed32(count) + body
    ensures |rep| == HEADER + |body|
    ensures rep[..8] + EncodeFixed32(total) + rep[12..] + bytes
            == EncodeFixed64(sequence) + EncodeFixed32(total) + (body + bytes)
  {
    HeaderParts(rep, sequence, count, body);
    var head := EncodeFixed64(sequence) + EncodeFixed32(total);
    assert (head + body) + bytes == head + (body + bytes);
  }

  lemma HeaderParts(rep: seq<Byte>, sequence: Word64, count: Word, body: seq<Byte>)
    requires rep == EncodeFixed64(sequence) + EncodeFixed32(count) + body
    ensures |rep| == HEADER + |body| && rep[..8] == EncodeFixed64(sequence) && rep[12..] == body
    ensures rep[8..] == EncodeFixed32(count) + body
    ensures DecodeFixed64(rep) == sequence && DecodeFixed32(rep[8..]) == count
  {
    assert rep == EncodeFixed64(sequence) + (EncodeFixed32(count) + body);
    Fixed64RoundTrip(sequence, EncodeFixed32(count) + body);
    assert rep[8..] == EncodeFixed32(count) + body;
    Fixed32RoundTrip(count, body);
  }

  /** What is left of the bytes at the first malformed update. */
  function StopsAt(input: seq<Byte>): (r: seq<Byte>)
    ensures r == [] <==> ParseOps(input).1
    decreases |input|
  {
    if input == [] then []
    else match ParseOp(input) case Missing => input case Got(_, rest) => StopsAt(rest)
  }

  /** What is said of a malformed update. */
  function Complaint(tag: Byte): string {
    if tag == TYPE_VALUE then "bad WriteBatch Put"
    else if tag == TYPE_DELETION then "bad WriteBatch Delete"
    else "unknown WriteBatch tag"
  }

  lemma ParseOpsTurn(input: seq<Byte>, seen: seq<Op>)
    requires input != []
    ensures match ParseOp(input)
            case Missing => ParseOps(input) == ([], false) && seen + ParseOps(input).0 == seen && StopsAt(input) == input
            case Got(op, rest) =>
              && seen + ParseOps(input).0 == (seen + [op]) + ParseOps(rest).0
              && ParseOps(input).1 == ParseOps(rest).1 && StopsAt(input) == StopsAt(rest)
  {}

  // ---- Iterating, on any bytes whatever ----

  datatype Status = OK | Corruption(message: string)

  /** The updates are handed over one by one, also those in front of a malformed one (write_batch.cc:38-79). */
  method Iterate(rep: seq<Byte>) returns (seen: seq<Op>, status: Status)
    ensures |rep| < HEADER ==> seen == [] && status == Corruption("malformed WriteBatch (too small)")
    ensures |rep| >= HEADER ==> seen == ParseOps(rep[HEADER..]).0
    ensures |rep| >= HEADER && !ParseOps(rep[HEADER..]).1 ==> status == Corruption(Complaint(StopsAt(rep[HEADER..])[0]))
    ensures |rep| >= HEADER ==> (status == OK <==> ParseOps(rep[HEADER..]).1 && |seen| % 0x1_0000_0000 == DecodeFixed32(rep[8..]))
  {
    seen := [];
    if |rep| < HEADER {
      return seen, Corruption("malformed WriteBatch (too small)");
    }
    var input := rep[HEADER..];
    ghost var all, stop := ParseOps(input), StopsAt(input);
    var found: nat := 0;
    while input != []
      invariant all.0 == seen + ParseOps(input).0 && all.1 == ParseOps(input).1 && stop == StopsAt(input)
      invariant found == |seen|
      decreases |input|
    {
      ParseOpsTurn(input, seen);
      match ParseOp(input) {
        case Missing =>
          return seen, Corruption(Complaint(input[0]));
        case Got(op, rest) =>
          found := found + 1;
          seen, input := seen + [op], rest;
      }
    }
    if found % 0x1_0000_0000 != DecodeFixed32(rep[8..]) {
      status := Corruption("WriteBatch has wrong count");
    } else {
      status := OK;
    }
  }

  /** An update with the sequence number it is stored under. */
  datatype Versioned = Versioned(sequence: nat, op: Op)

  function Number(ops: seq<Op>, first: nat): (r: seq<Versioned>)
    ensures |r| == |ops|
    ensures forall i :: 0 <= i < |r| ==> r[i] == Versioned(first + i, ops[i])
  {
    seq(|ops|, i requires 0 <= i < |ops| => Versioned(first + i, ops[i]))
  }

  /** What InsertInto adds to a memtable: every update of the batch, once, in order, under consecutive
      sequence numbers from the batch's own (write_batch.cc:117-136). */
  method InsertInto(batch: WriteBatch) returns (added: seq<Versioned>, status: Status)
    requires batch.Valid()
    ensures status == OK && added == Number(batch.ops, batch.sequence)
  {
    var first := batch.Sequence();
    HeaderParts(batch.rep, batch.sequence, |batch.ops| % 0x1_0000_0000, EncodeOps(batch.ops));
    var ops;
    ops, status := Iterate(batch.rep);
    OpsRoundTrip(batch.ops);
    added := Number(ops, first);
  }
}
