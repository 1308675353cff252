/** What is not written, and what is not taken (nanopb pb_encode.c, pb_decode.c). */
module NanopbRefusals {
  import opened Options
  import opened Coding
  import opened NanopbFields
  import opened NanopbWire
  import opened NanopbEncode
  import opened NanopbDecode
  import opened NanopbRoundTrip

  // ---- What can be written ----

  /** The field's size is one the encoder knows, and the value fits what the field describes. */
  ghost predicate Writable(f: Field, v: Value)
    decreases f, 0
  {
    match f.ltype
    case VarInt => ValidSize(f.dataSize)
    case UVarInt => ValidSize(f.dataSize)
    case SVarInt => ValidSize(f.dataSize)
    case Bytes => v.Blob? && |v.bytes| + BYTES_OFFSET <= f.dataSize
    case Submessage(sub) => v.Struct? && |v.cells| == |sub| && WritableFields(sub, v.cells, 0)
    case _ => true
  }

  ghost predicate WritableCell(f: Field, c: Cell)
    decreases f, 1
  {
    if f.htype.Repeated? then c.Many? && |c.items| <= f.arraySize && forall v <- c.items :: Writable(f, v)
    else KindOk(f, c) && Present(f, c) ==> Writable(f, c.value)
  }

  ghost predicate WritableFields(fields: seq<Field>, cells: seq<Cell>, i: nat)
    requires |cells| == |fields| && i <= |fields|
    decreases fields, |fields| - i
  {
    i < |fields| ==> WritableCell(fields[i], cells[Home(fields, i)]) && WritableFields(fields, cells, i + 1)
  }

  lemma {:induction false} PackedWritten(f: Field, items: seq<Value>)
    requires Packable(f.ltype) && forall v <- items :: Typed(f, v)
    ensures EncodePacked(f, items).Some? <==> forall v <- items :: Writable(f, v)
  {
    if items != [] {
      assert items[0] in items && items == [items[0]] + items[1..];
      PackedWritten(f, items[1..]);
    }
  }

  lemma {:induction false} UnpackedWritten(f: Field, items: seq<Value>)
    requires forall v <- items :: Typed(f, v)
    ensures EncodeUnpacked(f, items).Some? <==> forall v <- items :: Writable(f, v)
    decreases f, 1, |items|
  {
    if items != [] {
      assert items[0] in items && items == [items[0]] + items[1..];
      ValueWritten(f, items[0]);
      UnpackedWritten(f, items[1..]);
    }
  }

  lemma {:induction false} ValueWritten(f: Field, v: Value)
    requires Typed(f, v)
    ensures EncodeValue(f, v).Some? <==> Writable(f, v)
    decreases f, 0
  {
    if f.ltype.Submessage? {
      MessageWritten(f.ltype.sub, v.cells, 0);
    }
  }

  lemma {:induction false} CellWritten(f: Field, c: Cell)
    requires TypedCell(f, c)
    ensures EncodeCell(f, c).Some? <==> WritableCell(f, c)
    decreases f, 2
  {
    if f.htype.Repeated? {
      PackedOrNot(f, c.items);
      assert EncodeCell(f, c) == EncodeArray(f, c.items);
    } else if Present(f, c) {
      ValueWritten(f, c.value);
      assert EncodeCell(f, c) == EncodeTagged(f, c.value);
    }
  }

  lemma {:induction false} PackedOrNot(f: Field, items: seq<Value>)
    requires forall v <- items :: Typed(f, v)
    ensures EncodeArray(f, items).Some? <==> |items| <= f.arraySize && forall v <- items :: Writable(f, v)
    decreases f, 1, |items| + 1
  {
    if Packable(f.ltype) {
      PackedWritten(f, items);
    } else {
      UnpackedWritten(f, items);
    }
  }

  /** A structure of the right type can be written if and only if, at every depth, its numbers are of sizes the encoder
      knows, its byte arrays fit their buffers, and its arrays are no longer than they may be. */
  lemma {:induction false} MessageWritten(fields: seq<Field>, cells: seq<Cell>, i: nat)
    requires |cells| == |fields| && i <= |fields| && TypedFields(fields, cells)
    ensures EncodeFields(fields, cells, i).Some? <==> WritableFields(fields, cells, i)
    decreases fields, |fields| - i
  {
    if i < |fields| {
      assert TypedCell(fields[i], cells[Home(fields, i)]);
      CellWritten(fields[i], cells[Home(fields, i)]);
      MessageWritten(fields, cells, i + 1);
    }
  }

  // ---- Which values are taken ----

  lemma UVarIntTaken(f: Field, n: Word64, tail: seq<Byte>)
    requires f.ltype.UVarInt? && ValidSize(f.dataSize)
    ensures DecodeScalar(f, EncodeVarint(n) + tail) == if n < Modulus(f.dataSize) then Got(Int(n), tail) else Missing
  {
    VarintBack(n, tail);
  }

  lemma SVarIntTaken(f: Field, n: int, tail: seq<Byte>)
    requires f.ltype.SVarInt? && ValidSize(f.dataSize) && FitsSigned(n, 8)
    ensures DecodeScalar(f, EncodeVarint(Zigzag(n)) + tail) == if FitsSigned(n, f.dataSize) then Got(Int(n), tail) else Missing
  {
    VarintBack(Zigzag(n), tail);
    ZigzagRoundTrip(n);
    CastKeeps(n, f.dataSize);
  }

  /** A signed number is taken for what it is if and only if it fits the field; one that does not fit 32 bits is cut to
      them first, so that a field of four bytes always takes it, for another number, and a shorter one may. */
  lemma VarIntTaken(f: Field, n: int, tail: seq<Byte>)
    requires f.ltype.VarInt? && ValidSize(f.dataSize) && FitsSigned(n, 8)
    ensures var r := DecodeScalar(f, EncodeVarint(n % TWO_64) + tail);
      && (r == Got(Int(n), tail) <==> FitsSigned(n, f.dataSize))
      && (f.dataSize == 8 || FitsSigned(n, 4) ==> (r == Missing <==> !FitsSigned(n, f.dataSize)))
      && (f.dataSize == 4 ==> r == Got(Int(CastSigned(n, 4)), tail))
  {
    var w := n % TWO_64;
    VarintBack(w, tail);
    if f.dataSize == 8 {
      SignedBack(n, 8);
    } else {
      Wrapped(n);
      CutTo32(n, w);
      CastKeeps(CastSigned(n, 4), f.dataSize);
      CastKeeps(n, 4);
    }
    CastKeeps(n, f.dataSize);
  }

  lemma Wrapped(n: int)
    requires FitsSigned(n, 8)
    ensures n % TWO_64 == if n < 0 then n + TWO_64 else n
  {}

  lemma CutTo32(n: int, w: int)
    requires w == if n < 0 then n + TWO_64 else n
    ensures CastSigned(w, 4) == CastSigned(n, 4)
  {
    Mod32(n + TWO_32 / 2);
  }

  /** An instance: five more than 2^32 is five to a field of four bytes. */
  lemma TakenForFive(f: Field, n: nat, tail: seq<Byte>)
    requires f.ltype.VarInt? && f.dataSize == 4 && n == TWO_32 + 5
    ensures DecodeScalar(f, EncodeVarint(n) + tail) == Got(Int(5), tail)
  {
    VarIntTaken(f, n, tail);
    Wrapped(n);
    CutOfFive(n);
  }

  lemma CutOfFive(n: nat)
    requires n == TWO_32 + 5
    ensures CastSigned(n, 4) == 5
  {}

  /** Bytes are taken if the buffer has room for them, text if it has room for the NUL too, and bytes of fixed length if
      there are as many as that or none. */
  lemma StringTaken(f: Field, b: seq<Byte>, tail: seq<Byte>)
    requires |b| < TWO_32 && (f.ltype.Bytes? || f.ltype.Text? || f.ltype.FixedLength?)
    ensures DecodeScalar(f, PutString(b) + tail)
            == if f.ltype.Bytes? then (if |b| + BYTES_OFFSET <= f.dataSize then Got(Blob(b), tail) else Missing)
               else if f.ltype.Text? then (if |b| < f.dataSize then Got(Blob(b + [0]), tail) else Missing)
               else if b == [] then Got(Blob(Zeros(f.dataSize)), tail)
               else if |b| == f.dataSize then Got(Blob(b), tail) else Missing
  {
    StringRoundTrip(b, tail);
  }

  // ---- Which messages are taken ----

  /** The tags that are read before the message ends or is refused. */
  ghost function TagsRead(fields: seq<Field>, st: DState, s: seq<Byte>): set<nat>
    requires Fits(fields, st)
    decreases |s|
  {
    if s == [] then {}
    else
      match ReadVarint32(s)
      case Missing => {}
      case Got(t, rest) =>
        if t == 0 then {}
        else
          match DecodeNext(fields, st, t / 8, t % 8, rest)
          case Missing => {}
          case Got(st', rest') => {t / 8} + TagsRead(fields, st', rest')
  }

  /** Some required field, the `k`th of them, has one of these tags. */
  ghost predicate RequiredRead(fields: seq<Field>, k: nat, tags: set<nat>) {
    exists i :: 0 <= i < |fields| && fields[i].htype.Required? && RequiredBefore(fields, i) == k && fields[i].tag in tags
  }

  /** One turn marks the required field whose tag it reads, if it is one of the first 64, and no other. */
  lemma TurnMarks(fields: seq<Field>, st: DState, tag: nat, wireType: nat, s: seq<Byte>, st': DState, rest: seq<Byte>, k: nat)
    requires Fits(fields, st) && DistinctTags(fields) && k < MAX_REQUIRED_FIELDS
    requires DecodeNext(fields, st, tag, wireType, s) == Got(st', rest)
    ensures k in st'.seen <==> k in st.seen || RequiredRead(fields, k, {tag})
  {
    var r := Find(fields, st.pos, tag);
    if r.Some? {
      var i := r.value;
      var st1 := Enter(fields, st, i).value;
      assert st'.seen == st1.seen;
      if RequiredRead(fields, k, {tag}) {
        var j :| 0 <= j < |fields| && fields[j].htype.Required? && RequiredBefore(fields, j) == k && fields[j].tag in {tag};
        assert j == i;
      }
    }
  }

  /** After the loop exactly those of the first 64 required fields are marked whose tags were read. */
  lemma {:induction false} MarkedAreRead(fields: seq<Field>, st: DState, s: seq<Byte>, k: nat)
    requires Fits(fields, st) && DistinctTags(fields) && k < MAX_REQUIRED_FIELDS && DecodeLoop(fields, st, s).Got?
    ensures k in DecodeLoop(fields, st, s).value.seen <==> k in st.seen || RequiredRead(fields, k, TagsRead(fields, st, s))
    decreases |s|
  {
    if s != [] {
      var r := ReadVarint32(s);
      if r.value != 0 {
        var t, next := r.value, DecodeNext(fields, st, r.value / 8, r.value % 8, r.rest);
        TurnMarks(fields, st, t / 8, t % 8, r.rest, next.value, next.rest, k);
        MarkedAreRead(fields, next.value, next.rest, k);
        ReadEither(fields, k, {t / 8}, TagsRead(fields, next.value, next.rest));
      }
    }
  }

  lemma ReadEither(fields: seq<Field>, k: nat, a: set<nat>, b: set<nat>)
    ensures RequiredRead(fields, k, a + b) <==> RequiredRead(fields, k, a) || RequiredRead(fields, k, b)
  {
    if RequiredRead(fields, k, a + b) {
      var i :| 0 <= i < |fields| && fields[i].htype.Required? && RequiredBefore(fields, i) == k && fields[i].tag in a + b;
      assert fields[i].tag in a || fields[i].tag in b;
    }
  }

  lemma {:induction false} RequiredOrder(fields: seq<Field>, i: nat, j: nat)
    requires i < j <= |fields| && fields[i].htype.Required?
    ensures RequiredBefore(fields, i) < RequiredBefore(fields, j)
  {
    if i + 1 < j { RequiredOrder(fields, i, j - 1); }
  }

  lemma {:induction false} NthRequired(fields: seq<Field>, n: nat, k: nat) returns (i: nat)
    requires n <= |fields| && k < RequiredBefore(fields, n)
    ensures i < n && fields[i].htype.Required? && RequiredBefore(fields, i) == k
  {
    if k < RequiredBefore(fields, n - 1) { i := NthRequired(fields, n - 1, k); } else { i := n - 1; }
  }

  /** Every one of the first 64 required fields has had its tag read. */
  ghost predicate RequiredThere(fields: seq<Field>, tags: set<nat>) {
    forall i :: 0 <= i < |fields| && fields[i].htype.Required? && RequiredBefore(fields, i) < MAX_REQUIRED_FIELDS ==>
      fields[i].tag in tags
  }

  /** A message is taken if and only if all of its fields are, the last full array is complete, and the tags of the first
      64 required fields have all been read. */
  lemma MessageTaken(fields: seq<Field>, cells: seq<Cell>, s: seq<Byte>)
    requires |cells| == |fields| && DistinctTags(fields)
    ensures var r := DecodeLoop(fields, Start(cells), s);
      DecodeMessage(fields, cells, s).Got? <==>
        r.Got? && FixedDone(fields, r.value) && RequiredThere(fields, TagsRead(fields, Start(cells), s))
  {
    var r, tags := DecodeLoop(fields, Start(cells), s), TagsRead(fields, Start(cells), s);
    if r.Got? {
      if RequiredSeen(fields, r.value.seen) {
        forall i | 0 <= i < |fields| && fields[i].htype.Required? && RequiredBefore(fields, i) < MAX_REQUIRED_FIELDS
          ensures fields[i].tag in tags
        {
          MarkOfField(fields, cells, s, i);
        }
      }
      if RequiredThere(fields, tags) {
        forall k | 0 <= k < RequiredBefore(fields, |fields|) && k < MAX_REQUIRED_FIELDS ensures k in r.value.seen {
          var i := NthRequired(fields, |fields|, k);
          MarkedAreRead(fields, Start(cells), s, k);
          assert RequiredRead(fields, k, tags);
        }
      }
    }
  }

  lemma MarkOfField(fields: seq<Field>, cells: seq<Cell>, s: seq<Byte>, i: nat)
    requires |cells| == |fields| && DistinctTags(fields) && DecodeLoop(fields, Start(cells), s).Got?
    requires RequiredSeen(fields, DecodeLoop(fields, Start(cells), s).value.seen)
    requires i < |fields| && fields[i].htype.Required? && RequiredBefore(fields, i) < MAX_REQUIRED_FIELDS
    ensures fields[i].tag in TagsRead(fields, Start(cells), s)
  {
    var k, tags := RequiredBefore(fields, i), TagsRead(fields, Start(cells), s);
    RequiredOrder(fields, i, |fields|);
    MarkedAreRead(fields, Start(cells), s, k);
    var j :| 0 <= j < |fields| && fields[j].htype.Required? && RequiredBefore(fields, j) == k && fields[j].tag in tags;
    if i < j { RequiredOrder(fields, i, j); }
    if j < i { RequiredOrder(fields, j, i); }
  }

  // ---- Arrays of the wrong length ----

  lemma {:induction false} PackedTooLong(f: Field, items: seq<Value>, a: Array, e: seq<Byte>)
    requires EncodePacked(f, items) == Some(e) && |e| < TWO_32 && Packable(f.ltype)
    requires a.count == |a.items| <= f.arraySize < a.count + |items|
    ensures DecodePacked(f, a, e) == None
    decreases |items|
  {
    var e0, e1 := EncodeScalar(f, items[0]).value, EncodePacked(f, items[1..]).value;
    ScalarBack(f, items[0], e0, e1);
    if a.count < f.arraySize {
      PackedTooLong(f, items[1..], Put(a, Back(f, items[0])), e1);
    }
  }

  /** More entries than the array has room for are refused, packed or not. */
  lemma {:induction false} UnpackedTooLong(fields: seq<Field>, st: DState, i: nat, n: nat, items: seq<Value>, e: seq<Byte>,
                                           tail: seq<Byte>)
    requires WellFormed(fields) && i < |fields| && ArrayAt(fields, st, i, n)
    requires !Packable(fields[i].ltype) && EncodeUnpacked(fields[i], items) == Some(e) && |e| < TWO_32
    requires n <= fields[i].arraySize < n + |items|
    ensures DecodeLoop(fields, st, e + tail) == Missing
    decreases |items|
  {
    var f := fields[i];
    var e0, e1 := EncodeTagged(f, items[0]).value, EncodeUnpacked(f, items[1..]).value;
    assert e + tail == e0 + (e1 + tail);
    if n == f.arraySize {
      var body := EncodeValue(f, items[0]).value + (e1 + tail);
      assert e + tail == EncodeTag(f.tag, WireType(f.ltype)) + body;
      ArrayStep(fields, st, i, n, WireType(f.ltype), body, Missing);
    } else {
      var w := ItemBack(fields, st, i, n, items[0], e0, e1 + tail);
      if Readable(f, items[0]) {
        UnpackedTooLong(fields, ArrayNext(fields, st, i, [w]), i, n + 1, items[1..], e1, tail);
      }
    }
  }

  lemma PackedArrayTooLong(fields: seq<Field>, st: DState, i: nat, items: seq<Value>, e: seq<Byte>, tail: seq<Byte>)
    requires WellFormed(fields) && i < |fields| && ArrayAt(fields, st, i, 0) && Packable(fields[i].ltype)
    requires |items| > fields[i].arraySize && PackedField(fields[i], items) == Some(e) && |e| < TWO_32
    ensures DecodeLoop(fields, st, e + tail) == Missing
  {
    var f := fields[i];
    var p := EncodePacked(f, items).value;
    var body := PutString(p) + tail;
    assert e + tail == EncodeTag(f.tag, WT_STRING) + body;
    StringBack(f, p, PutString(p), tail);
    assert st.cells[i].items == [];
    PackedTooLong(f, items, Array([], 0), p);
    assert DecodeArray(f, WT_STRING, Array([], 0), body) == Missing;
    ArrayStep(fields, st, i, 0, WT_STRING, body, Missing);
  }

  lemma ArrayTooLong(fields: seq<Field>, cells: seq<Cell>, i: nat, items: seq<Value>, e: seq<Byte>, tail: seq<Byte>)
    requires WellFormed(fields) && |cells| == |fields| && i < |fields| && ArrayAt(fields, Start(cells), i, 0) == true
    requires |items| > fields[i].arraySize && |e| < TWO_32
    requires (if Packable(fields[i].ltype) then PackedField(fields[i], items) else EncodeUnpacked(fields[i], items)) == Some(e)
    ensures DecodeMessage(fields, cells, e + tail) == Missing
  {
    if Packable(fields[i].ltype) {
      PackedArrayTooLong(fields, Start(cells), i, items, e, tail);
    } else {
      UnpackedTooLong(fields, Start(cells), i, 0, items, e, tail);
    }
  }

  /** A full array that is begun must be filled. */
  lemma FullArrayTooShort(fields: seq<Field>, cells: seq<Cell>, i: nat, items: seq<Value>, e: seq<Byte>)
    requires WellFormed(fields) && |cells| == |fields| && i < |fields| && ArrayAt(fields, Start(cells), i, 0)
    requires IsFixedArray(fields[i]) && 0 < |items| < fields[i].arraySize && AllReadable(fields[i], items)
    requires EncodeArray(fields[i], items) == Some(e) && |e| < TWO_32
    ensures DecodeMessage(fields, cells, e) == Missing
  {
    var f, st := fields[i], Start(cells);
    var ws: seq<Value>;
    assert e + [] == e;
    if Packable(f.ltype) {
      ws := PackedArrayBack(fields, st, i, items, e, []);
    } else {
      ws := UnpackedBack(fields, st, i, 0, items, e, []);
    }
    assert DecodeLoop(fields, st, e) == Got(ArrayNext(fields, st, i, ws), []);
  }
}
