/** What the encoder writes, the decoder reads back (nanopb pb_encode.c, pb_decode.c). */
module NanopbRoundTrip {
  import opened Options
  import opened Coding
  import opened NanopbFields
  import opened NanopbWire
  import opened NanopbEncode
  import opened NanopbDecode

  // ---- What can be read back ----

  /** Every text that is written ends with a NUL inside its buffer. */
  ghost predicate Readable(f: Field, v: Value)
    decreases f, 0
  {
    match f.ltype
    case Text => v.Blob? ==> |CString(v.bytes)| < f.dataSize
    case Submessage(sub) => v.Struct? && |v.cells| == |sub| ==> ReadableFields(sub, v.cells, 0)
    case _ => true
  }

  ghost predicate ReadableCell(f: Field, c: Cell)
    decreases f, 1
  {
    if f.htype.Repeated? then c.Many? ==> forall v <- c.items :: Readable(f, v)
    else KindOk(f, c) && Present(f, c) ==> Readable(f, c.value)
  }

  ghost predicate ReadableFields(fields: seq<Field>, cells: seq<Cell>, i: nat)
    requires |cells| == |fields| && i <= |fields|
    decreases fields, |fields| - i
  {
    i < |fields| ==> ReadableCell(fields[i], cells[Home(fields, i)]) && ReadableFields(fields, cells, i + 1)
  }

  // ---- Agreement ----

  /** The same value: truth of a bool, text of a buffer, present fields of a submessage. */
  ghost predicate Same(f: Field, v: Value, w: Value)
    decreases f, 0
  {
    match f.ltype
    case Bool => v.Int? && w.Int? && (v.n != 0 <==> w.n != 0)
    case Text => v.Blob? && w.Blob? && CString(v.bytes) == CString(w.bytes)
    case Submessage(sub) =>
      v.Struct? && w.Struct? && |v.cells| == |sub| == |w.cells| && SameFields(sub, v.cells, w.cells)
    case _ => v == w
  }

  /** An array has the same entries; another field has the same value if it is present, is absent if it is
      absent, and its `has_` or `which_` member says so. */
  ghost predicate SameCell(f: Field, c: Cell, d: Cell)
    decreases f, 1
  {
    && KindOk(f, c)
    && if f.htype.Repeated? then
         && d.Many? && |d.items| == |c.items|
         && (forall k :: 0 <= k < |c.items| ==> Same(f, c.items[k], d.items[k]))
       else
         && KindOk(f, d)
         && (Present(f, c) ==> Same(f, c.value, d.value))
         && (if f.htype == Optional(false) then Present(f, d) ==> Present(f, c) else Present(f, d) <==> Present(f, c))
  }

  ghost predicate SameFields(fields: seq<Field>, cells: seq<Cell>, ds: seq<Cell>)
    requires |cells| == |fields| == |ds|
    decreases fields
  {
    forall k :: 0 <= k < |fields| ==> SameCell(fields[k], cells[Home(fields, k)], ds[Home(fields, k)])
  }

  // ---- Values ----

  function Back(f: Field, v: Value): Value {
    match (f.ltype, v)
    case (Bool, Int(n)) => Int(if n != 0 then 1 else 0)
    case (Text, Blob(b)) => Blob(CString(b) + [0])
    case _ => v
  }

  lemma {:induction false} CStringOf(b: seq<Byte>)
    requires 0 !in b
    ensures CString(b + [0]) == b
  {
    if b != [] {
      assert (b + [0])[1..] == b[1..] + [0];
      CStringOf(b[1..]);
    }
  }

  lemma VarintBack(n: Word64, tail: seq<Byte>)
    ensures GetVarint64(EncodeVarint(n) + tail) == Got(n, tail)
  {
    Varint64RoundTrip(n, tail);
  }

  lemma SignedBack(n: int, size: nat)
    requires ValidSize(size) && FitsSigned(n, size)
    ensures CastSigned(n % TWO_64, if size == 8 then 8 else 4) == n
  {
    var u := n % TWO_64;
    assert u == if n < 0 then n + TWO_64 else n;
    if size == 8 {
      assert CastSigned(u, 8) == n;
    } else {
      CastKeeps(n, 4);
      Mod32(n + TWO_32 / 2);
    }
  }

  lemma Mod32(x: int)
    ensures (x + TWO_64) % TWO_32 == x % TWO_32
  {
    var q, r := x / TWO_32, x % TWO_32;
    assert x + TWO_64 == (q + TWO_32) * TWO_32 + r;
  }

  lemma StringBack(f: Field, b: seq<Byte>, e: seq<Byte>, tail: seq<Byte>)
    requires e == PutString(b) && |e| < TWO_32
    ensures TakeString(e + tail) == Got(b, tail)
  {
    StringRoundTrip(b, tail);
  }

  lemma NarrowedBack(n: int, size: nat, tail: seq<Byte>)
    requires ValidSize(size) && FitsSigned(n, size)
    ensures Narrowed(n, size, tail) == Got(Int(n), tail)
  {
    CastKeeps(n, size);
  }

  lemma VarIntBack(f: Field, n: int, w: Word64, tail: seq<Byte>)
    requires f.ltype.VarInt? && ValidSize(f.dataSize) && FitsSigned(n, f.dataSize) && w == n % TWO_64
    ensures DecodeScalar(f, EncodeVarint(w) + tail) == Got(Int(n), tail)
  {
    VarintBack(w, tail);
    SignedBack(n, f.dataSize);
    NarrowedBack(n, f.dataSize, tail);
  }

  lemma SVarIntBack(f: Field, n: int, w: Word64, tail: seq<Byte>)
    requires f.ltype.SVarInt? && ValidSize(f.dataSize) && FitsSigned(n, f.dataSize) && w == Zigzag(n)
    ensures DecodeScalar(f, EncodeVarint(w) + tail) == Got(Int(n), tail)
  {
    VarintBack(w, tail);
    ZigzagRoundTrip(n);
    NarrowedBack(n, f.dataSize, tail);
  }

  lemma IntegerBack(f: Field, v: Value, e: seq<Byte>, tail: seq<Byte>)
    requires EncodeScalar(f, v) == Some(e)
    requires f.ltype.Bool? || f.ltype.VarInt? || f.ltype.UVarInt? || f.ltype.SVarInt?
    ensures DecodeScalar(f, e + tail) == Got(Back(f, v), tail)
  {
    match f.ltype
    case Bool => Varint32Exact(if v.n != 0 then 1 else 0, tail);
    case VarInt => VarIntBack(f, v.n, v.n % TWO_64, tail);
    case UVarInt => VarintBack(v.n, tail);
    case SVarInt => SVarIntBack(f, v.n, Zigzag(v.n), tail);
  }

  lemma FixedBack(f: Field, v: Value, e: seq<Byte>, tail: seq<Byte>)
    requires EncodeScalar(f, v) == Some(e) && (f.ltype.Fixed32? || f.ltype.Fixed64?)
    ensures DecodeScalar(f, e + tail) == Got(v, tail)
  {
    if f.ltype.Fixed32? {
      Fixed32RoundTrip(v.n, tail);
      assert (e + tail)[4..] == tail;
    } else {
      Fixed64RoundTrip(v.n, tail);
      assert (e + tail)[8..] == tail;
    }
  }

  lemma BlobBack(f: Field, v: Value, e: seq<Byte>, tail: seq<Byte>)
    requires EncodeScalar(f, v) == Some(e) && |e| < TWO_32 && (f.ltype.Bytes? || f.ltype.Text? || f.ltype.FixedLength?)
    ensures DecodeScalar(f, e + tail) == if Readable(f, v) then Got(Back(f, v), tail) else Missing
  {
    match f.ltype
    case Bytes => StringBack(f, v.bytes, e, tail);
    case FixedLength =>
      StringBack(f, v.bytes, e, tail);
      if v.bytes == [] { assert Zeros(f.dataSize) == []; }
    case Text => StringBack(f, CString(v.bytes), e, tail);
  }

  lemma BackIsSame(f: Field, v: Value, e: seq<Byte>)
    requires EncodeScalar(f, v) == Some(e)
    ensures Same(f, v, Back(f, v)) && e != []
  {
    if f.ltype.Text? {
      CStringOf(CString(v.bytes));
    }
  }

  lemma ScalarBack(f: Field, v: Value, e: seq<Byte>, tail: seq<Byte>)
    requires EncodeScalar(f, v) == Some(e) && |e| < TWO_32
    ensures DecodeScalar(f, e + tail) == if Readable(f, v) then Got(Back(f, v), tail) else Missing
    ensures Same(f, v, Back(f, v)) && e != []
  {
    BackIsSame(f, v, e);
    if f.ltype.Bytes? || f.ltype.Text? || f.ltype.FixedLength? {
      BlobBack(f, v, e, tail);
    } else if f.ltype.Fixed32? || f.ltype.Fixed64? {
      FixedBack(f, v, e, tail);
    } else {
      IntegerBack(f, v, e, tail);
    }
  }

  /** `b` is `a` with these entries after it. */
  ghost predicate Extends(f: Field, a: Array, items: seq<Value>, b: Array) {
    && b.count == |b.items| == |a.items| + |items|
    && b.items[..|a.items|] == a.items
    && forall k :: 0 <= k < |items| ==> Same(f, items[k], b.items[|a.items| + k])
  }

  /** An entry and then the others. */
  lemma ExtendsMore(f: Field, a: Array, items: seq<Value>, w: Value, b: Array)
    requires a.count == |a.items| && items != [] && Same(f, items[0], w) && Extends(f, Put(a, w), items[1..], b)
    ensures Extends(f, a, items, b)
  {
    var n := |a.items|;
    assert b.items[..n + 1] == a.items + [w];
    assert b.items[..n] == b.items[..n + 1][..n] == a.items;
    forall k | 0 <= k < |items| ensures Same(f, items[k], b.items[n + k]) {
      if k == 0 {
        assert b.items[..n + 1][n] == w;
      } else {
        assert items[k] == items[1..][k - 1];
      }
    }
  }

  /** Entries packed together come back in order. */
  lemma {:induction false} PackedBack(f: Field, items: seq<Value>, a: Array, e: seq<Byte>)
    requires EncodePacked(f, items) == Some(e) && |e| < TWO_32 && Packable(f.ltype)
    requires a.count == |a.items| && a.count + |items| <= f.arraySize
    ensures DecodePacked(f, a, e).Some? && Extends(f, a, items, DecodePacked(f, a, e).value)
    decreases |items|
  {
    if items != [] {
      var e0, e1 := EncodeScalar(f, items[0]).value, EncodePacked(f, items[1..]).value;
      ScalarBack(f, items[0], e0, e1);
      var w := Back(f, items[0]);
      PackedBack(f, items[1..], Put(a, w), e1);
      ExtendsMore(f, a, items, w, DecodePacked(f, Put(a, w), e1).value);
    }
  }

  // ---- Fields ----

  /** One turn of the decoding loop, on a tag of the table. */
  lemma LoopStep(fields: seq<Field>, st: DState, i: nat, wireType: nat, body: seq<Byte>, st1: DState, r: Got<DState>)
    requires WellFormed(fields) && Fits(fields, st) && i < |fields| && wireType < 8
    requires Enter(fields, st, i) == Some(st1) && r == DecodeAt(fields, st1, i, wireType, body)
    ensures r.Missing? ==> DecodeLoop(fields, st, EncodeTag(fields[i].tag, wireType) + body) == Missing
    ensures r.Got? ==> Fits(fields, r.value)
    ensures r.Got? ==>
      DecodeLoop(fields, st, EncodeTag(fields[i].tag, wireType) + body) == DecodeLoop(fields, r.value, r.rest)
  {
    var f := fields[i];
    assert f in fields;
    var t := 8 * f.tag + wireType;
    Varint32Exact(t, body);
    assert t / 8 == f.tag && t % 8 == wireType && t != 0;
    FindIsUnique(fields, st.pos, i);
    assert DecodeNext(fields, st, f.tag, wireType, body) == r;
  }

  predicate TagBefore(fields: seq<Field>, i: nat, tag: nat)
    requires i <= |fields|
  {
    exists j :: 0 <= j < i && fields[j].tag == tag
  }

  /** The cell of a field whose turn has not come. */
  ghost predicate Fresh(fields: seq<Field>, i: nat, f: Field, c: Cell, d: Cell)
    requires i <= |fields|
  {
    if f.htype.OneOf? then
      d.Union? && (d.which == 0 || (c.Union? && d.which == c.which && TagBefore(fields, i, d.which)))
    else d == DefaultCell(f)
  }

  ghost predicate CellsOk(fields: seq<Field>, cells: seq<Cell>, i: nat, ds: seq<Cell>)
    requires |cells| == |fields| == |ds| && i <= |fields|
  {
    && (forall k :: 0 <= k < i ==> SameCell(fields[k], cells[Home(fields, k)], ds[Home(fields, k)]))
    && (forall k :: i <= k < |fields| ==> Fresh(fields, i, fields[k], cells[Home(fields, k)], ds[Home(fields, k)]))
  }

  /** Before the `i`th field: the fields read agree, the others are at their defaults. */
  ghost predicate Inv(fields: seq<Field>, cells: seq<Cell>, i: nat, st: DState)
    requires |cells| == |fields| && i <= |fields|
  {
    && Fits(fields, st)
    && CellsOk(fields, cells, i, st.cells) == true
    && SeenUpTo(fields, i, st.seen)
    && FixedDone(fields, st)
    && (st.fixed.Some? ==> st.fixed.value < i)
  }

  ghost predicate SeenUpTo(fields: seq<Field>, i: nat, seen: set<nat>)
    requires i <= |fields|
  {
    forall k :: 0 <= k < RequiredBefore(fields, i) && k < MAX_REQUIRED_FIELDS ==> k in seen
  }

  lemma CellsStart(fields: seq<Field>, cells: seq<Cell>)
    requires |cells| == |fields|
    ensures CellsOk(fields, cells, 0, Defaults(fields))
  {
    var ds := Defaults(fields);
    forall k | 0 <= k < |fields|
      ensures Fresh(fields, 0, fields[k], cells[Home(fields, k)], ds[Home(fields, k)])
    {
      HomeOfUnion(fields, k);
      assert ds[Home(fields, k)] == DefaultCell(fields[Home(fields, k)]);
    }
  }

  /** Nothing is written for a field: its default agrees. */
  lemma CellsSkip(fields: seq<Field>, cells: seq<Cell>, i: nat, ds: seq<Cell>)
    requires WellFormed(fields) && |cells| == |fields| == |ds| && i < |fields| && CellsOk(fields, cells, i, ds)
    requires var c := cells[Home(fields, i)];
      KindOk(fields[i], c) && !Present(fields[i], c) && (fields[i].htype.Repeated? ==> c.items == [])
    ensures CellsOk(fields, cells, i + 1, ds)
  {
    var f, h := fields[i], Home(fields, i);
    assert f in fields;
    assert Fresh(fields, i, f, cells[h], ds[h]);
    if f.htype == Optional(false) {
      ZeroByDefault(f, cells[h].value);
    }
    forall k | i < k < |fields| ensures Fresh(fields, i + 1, fields[k], cells[Home(fields, k)], ds[Home(fields, k)]) {
      assert Fresh(fields, i, fields[k], cells[Home(fields, k)], ds[Home(fields, k)]);
    }
  }

  /** A field's cell is read: no other field is disturbed, because no other member of a union was written. */
  lemma CellsWrite(fields: seq<Field>, cells: seq<Cell>, i: nat, ds: seq<Cell>, d: Cell)
    requires WellFormed(fields) && |cells| == |fields| == |ds| && i < |fields| && CellsOk(fields, cells, i, ds)
    requires SameCell(fields[i], cells[Home(fields, i)], d)
    requires fields[i].htype.OneOf? ==> d.which == fields[i].tag == cells[Home(fields, i)].which
    ensures CellsOk(fields, cells, i + 1, ds[Home(fields, i) := d])
  {
    var f, h := fields[i], Home(fields, i);
    var ds' := ds[h := d];
    HomeOfUnion(fields, i);
    forall k | 0 <= k < i ensures SameCell(fields[k], cells[Home(fields, k)], ds'[Home(fields, k)]) {
      HomeOfUnion(fields, k);
      assert SameCell(fields[k], cells[Home(fields, k)], ds[Home(fields, k)]);
      assert fields[k].tag != f.tag;
    }
    forall k | i < k < |fields| ensures Fresh(fields, i + 1, fields[k], cells[Home(fields, k)], ds'[Home(fields, k)]) {
      HomeOfUnion(fields, k);
      assert Fresh(fields, i, fields[k], cells[Home(fields, k)], ds[Home(fields, k)]);
      assert TagBefore(fields, i + 1, f.tag);
    }
  }

  // ---- Single values ----

  function NewCell(f: Field, v: Value): Cell {
    match f.htype
    case OneOf(_) => Union(f.tag, v)
    case Optional(flagged) => if flagged then Opt(true, v) else One(v)
    case _ => One(v)
  }

  lemma SingularDecode(fields: seq<Field>, cells: seq<Cell>, i: nat, d: Cell, wireType: nat, count: nat, s: seq<Byte>)
    requires WellFormed(fields) && |cells| == |fields| && i < |fields| && !fields[i].htype.Repeated?
    requires Fresh(fields, i, fields[i], cells[Home(fields, i)], d)
    requires Present(fields[i], cells[Home(fields, i)])
    ensures DecodeCell(fields[i], wireType, d, count, s) ==
            match DecodeValue(fields[i], DefaultValue(fields[i]), s)
            case Missing => Missing
            case Got(v, rest) => Got(Decoded(NewCell(fields[i], v), count), rest)
  {
    var f := fields[i];
    assert f in fields;
    assert !TagBefore(fields, i, f.tag);
  }

  /** A field that is not an array is read: `body` decodes to `r`. */
  lemma SingularStep(fields: seq<Field>, cells: seq<Cell>, i: nat, st: DState, body: seq<Byte>, r: Got<Value>)
    returns (st': DState)
    requires WellFormed(fields) && |cells| == |fields| && i < |fields| && Inv(fields, cells, i, st)
    requires !fields[i].htype.Repeated? && KindOk(fields[i], cells[Home(fields, i)])
    requires Present(fields[i], cells[Home(fields, i)])
    requires r == DecodeValue(fields[i], DefaultValue(fields[i]), body)
    requires r.Got? ==> Same(fields[i], cells[Home(fields, i)].value, r.value)
    ensures r.Missing? ==>
      DecodeLoop(fields, st, EncodeTag(fields[i].tag, WireType(fields[i].ltype)) + body) == Missing
    ensures r.Got? ==> Inv(fields, cells, i + 1, st')
    ensures r.Got? ==>
      DecodeLoop(fields, st, EncodeTag(fields[i].tag, WireType(fields[i].ltype)) + body) == DecodeLoop(fields, st', r.rest)
  {
    var f, h := fields[i], Home(fields, i);
    var wireType := WireType(f.ltype);
    var st1 := EnterSingular(fields, cells, i, st);
    assert Fresh(fields, i, f, cells[h], st.cells[h]);
    SingularDecode(fields, cells, i, st.cells[h], wireType, st.fixedCount, body);
    st' := st1;
    if r.Got? {
      var d := NewCell(f, r.value);
      st' := st1.(cells := st.cells[h := d]);
      LoopStep(fields, st, i, wireType, body, st1, Got(st', r.rest));
      NewCellAgrees(f, cells[h], r.value);
      CellsWrite(fields, cells, i, st.cells, d);
    } else {
      LoopStep(fields, st, i, wireType, body, st1, Missing);
    }
  }

  lemma EnterSingular(fields: seq<Field>, cells: seq<Cell>, i: nat, st: DState) returns (st1: DState)
    requires |cells| == |fields| && i < |fields| && Inv(fields, cells, i, st) && !fields[i].htype.Repeated?
    ensures Enter(fields, st, i) == Some(st1)
    ensures st1 == st.(pos := i, seen := st1.seen) && SeenUpTo(fields, i + 1, st1.seen)
  {
    st1 := Enter(fields, st, i).value;
  }

  lemma NewCellAgrees(f: Field, c: Cell, v: Value)
    requires !f.htype.Repeated? && KindOk(f, c) && Present(f, c) && Same(f, c.value, v)
    ensures SameCell(f, c, NewCell(f, v))
  {
  }

  // ---- Arrays ----

  ghost predicate AllReadable(f: Field, items: seq<Value>) {
    forall v <- items :: Readable(f, v)
  }

  /** The first `n` entries of array `i` have been read. */
  ghost predicate ArrayAt(fields: seq<Field>, st: DState, i: nat, n: nat)
    requires i < |fields|
  {
    && Fits(fields, st)
    && fields[i].htype.Repeated?
    && st.cells[i].Many? && |st.cells[i].items| == n
    && (IsFixedArray(fields[i]) ==>
        if st.fixed == Some(i) then st.fixedCount == n else n == 0 && FixedDone(fields, st))
  }

  /** After these entries too. */
  function ArrayNext(fields: seq<Field>, st: DState, i: nat, items: seq<Value>): DState
    requires Fits(fields, st) && i < |fields| && st.cells[i].Many?
  {
    var all := st.cells[i].items + items;
    var isFixed := IsFixedArray(fields[i]);
    st.(pos := i, cells := st.cells[i := Many(all)],
        fixed := if isFixed then Some(i) else st.fixed,
        fixedCount := if isFixed then |all| else st.fixedCount)
  }

  lemma ArrayStep(fields: seq<Field>, st: DState, i: nat, n: nat, wireType: nat, body: seq<Byte>, r: Got<Array>)
    requires WellFormed(fields) && i < |fields| && ArrayAt(fields, st, i, n) && wireType < 8
    requires r == DecodeArray(fields[i], wireType, Array(st.cells[i].items, n), body)
    requires r.Got? ==> st.cells[i].items <= r.value.items && r.value.count == |r.value.items|
    ensures r.Missing? ==> DecodeLoop(fields, st, EncodeTag(fields[i].tag, wireType) + body) == Missing
    ensures r.Got? ==>
      DecodeLoop(fields, st, EncodeTag(fields[i].tag, wireType) + body) ==
      DecodeLoop(fields, ArrayNext(fields, st, i, r.value.items[n..]), r.rest)
  {
    var st1 := EnterArray(fields, st, i, n);
    DecodeAtArray(fields, st1, i, n, wireType, body, r);
    if r.Got? {
      assert st.cells[i].items + r.value.items[n..] == r.value.items;
      LoopStep(fields, st, i, wireType, body, st1, Got(ArrayNext(fields, st, i, r.value.items[n..]), r.rest));
    } else {
      LoopStep(fields, st, i, wireType, body, st1, Missing);
    }
  }

  lemma DecodeAtArray(fields: seq<Field>, st: DState, i: nat, n: nat, wireType: nat, body: seq<Byte>, r: Got<Array>)
    requires i < |fields| && Fits(fields, st) && fields[i].htype.Repeated? && st.cells[i].Many?
    requires |st.cells[i].items| == n && (IsFixedArray(fields[i]) ==> st.fixedCount == n)
    requires r == DecodeArray(fields[i], wireType, Array(st.cells[i].items, n), body)
    ensures r.Missing? ==> DecodeAt(fields, st, i, wireType, body) == Missing
    ensures r.Got? ==> DecodeAt(fields, st, i, wireType, body) == Got(
      st.(cells := st.cells[i := Many(r.value.items)],
          fixedCount := if IsFixedArray(fields[i]) then r.value.count else st.fixedCount), r.rest)
  {
    HomeOfUnion(fields, i);
  }

  lemma EnterArray(fields: seq<Field>, st: DState, i: nat, n: nat) returns (st1: DState)
    requires i < |fields| && ArrayAt(fields, st, i, n)
    ensures Enter(fields, st, i) == Some(st1)
    ensures st1 == if IsFixedArray(fields[i]) then st.(pos := i, fixed := Some(i), fixedCount := n) else st.(pos := i)
  {
    st1 := Enter(fields, st, i).value;
  }

  /** From `s` to `tail`, these entries were read if they are readable, as `ws`. */
  ghost predicate ArrayDone(fields: seq<Field>, st: DState, i: nat, items: seq<Value>, s: seq<Byte>, ws: seq<Value>,
                            tail: seq<Byte>)
    requires Fits(fields, st) && i < |fields| && st.cells[i].Many?
  {
    if AllReadable(fields[i], items) then
      && AllSame(fields[i], items, ws)
      && DecodeLoop(fields, st, s) == (if items == [] then DecodeLoop(fields, st, tail)
                                       else DecodeLoop(fields, ArrayNext(fields, st, i, ws), tail))
    else DecodeLoop(fields, st, s) == Missing
  }

  lemma ArrayMore(fields: seq<Field>, st: DState, i: nat, items: seq<Value>, s: seq<Byte>, w: Value, rest: seq<Byte>,
                  ws: seq<Value>, tail: seq<Byte>)
    requires Fits(fields, st) && i < |fields| && st.cells[i].Many? && items != []
    requires ArrayDone(fields, st, i, [items[0]], s, [w], rest)
    requires Readable(fields[i], items[0]) ==>
      ArrayDone(fields, ArrayNext(fields, st, i, [w]), i, items[1..], rest, ws, tail)
    ensures ArrayDone(fields, st, i, items, s, [w] + ws, tail)
  {
    var f := fields[i];
    assert items == [items[0]] + items[1..];
    if Readable(f, items[0]) {
      assert AllReadable(f, [items[0]]);
      assert AllReadable(f, items) <==> AllReadable(f, items[1..]);
      if AllReadable(f, items) {
        assert Same(f, [items[0]][0], [w][0]);
        AllSameMore(f, items, w, ws);
        ArrayNextTwice(fields, st, i, [w], ws);
        if items[1..] == [] {
          assert [w] + ws == [w];
        }
      }
    } else {
      assert !AllReadable(f, items);
    }
  }

  /** One entry of an array that is not packed. */
  lemma {:induction false} ItemBack(fields: seq<Field>, st: DState, i: nat, n: nat, v: Value, e: seq<Byte>, rest: seq<Byte>)
    returns (w: Value)
    requires WellFormed(fields) && i < |fields| && ArrayAt(fields, st, i, n) && n < fields[i].arraySize
    requires !Packable(fields[i].ltype) && EncodeTagged(fields[i], v) == Some(e) && |e| < TWO_32
    ensures ArrayDone(fields, st, i, [v], e + rest, [w], rest) == true
    ensures Readable(fields[i], v) ==> ArrayAt(fields, ArrayNext(fields, st, i, [w]), i, n + 1)
    decreases fields[i], 1
  {
    var f := fields[i];
    assert f in fields;
    var tag, e0 := EncodeTag(f.tag, WireType(f.ltype)), EncodeValue(f, v).value;
    assert e + rest == tag + (e0 + rest);
    ValueBack(f, v, Int(0), e0, rest);
    var a := Array(st.cells[i].items, n);
    var r := DecodeArray(f, WireType(f.ltype), a, e0 + rest);
    ArrayStep(fields, st, i, n, WireType(f.ltype), e0 + rest, r);
    w := Int(0);
    if Readable(f, v) {
      w := DecodeValue(f, Int(0), e0 + rest).value;
      assert r == Got(Put(a, w), rest);
      assert r.value.items[n..] == [w];
    }
  }

  /** The entries of an array that is not packed come back in order, if they are readable. */
  lemma {:induction false} UnpackedBack(fields: seq<Field>, st: DState, i: nat, n: nat, items: seq<Value>,
                                        e: seq<Byte>, tail: seq<Byte>) returns (ws: seq<Value>)
    requires WellFormed(fields) && i < |fields| && ArrayAt(fields, st, i, n) && n + |items| <= fields[i].arraySize
    requires !Packable(fields[i].ltype) && EncodeUnpacked(fields[i], items) == Some(e) && |e| < TWO_32
    ensures ArrayDone(fields, st, i, items, e + tail, ws, tail) == true
    decreases fields[i], 2, |items|
  {
    var f := fields[i];
    assert f in fields;
    ws := [];
    if items == [] {
      assert e + tail == tail;
    } else {
      var e0, e1 := EncodeTagged(f, items[0]).value, EncodeUnpacked(f, items[1..]).value;
      assert e + tail == e0 + (e1 + tail);
      var w := ItemBack(fields, st, i, n, items[0], e0, e1 + tail);
      if Readable(f, items[0]) == true {
        ws := UnpackedBack(fields, ArrayNext(fields, st, i, [w]), i, n + 1, items[1..], e1, tail);
      }
      ArrayMore(fields, st, i, items, e + tail, w, e1 + tail, ws, tail);
      ws := [w] + ws;
    }
  }

  lemma ArrayNextTwice(fields: seq<Field>, st: DState, i: nat, a: seq<Value>, b: seq<Value>)
    requires Fits(fields, st) && i < |fields| && st.cells[i].Many?
    ensures ArrayNext(fields, ArrayNext(fields, st, i, a), i, b) == ArrayNext(fields, st, i, a + b)
  {
    assert st.cells[i].items + a + b == st.cells[i].items + (a + b);
  }

  ghost predicate AllSame(f: Field, vs: seq<Value>, ws: seq<Value>) {
    |vs| == |ws| && forall k :: 0 <= k < |vs| ==> Same(f, vs[k], ws[k])
  }

  lemma AllSameMore(f: Field, items: seq<Value>, w: Value, ws: seq<Value>)
    requires items != [] && Same(f, items[0], w) && AllSame(f, items[1..], ws)
    ensures AllSame(f, items, [w] + ws)
  {
    forall k | 0 <= k < |items| ensures Same(f, items[k], ([w] + ws)[k]) {
      if k > 0 {
        assert items[k] == items[1..][k - 1];
      }
    }
  }

  // ---- Messages ----

  /** A value comes back if it is readable, and is refused if it is not. */
  lemma {:induction false} ValueBack(f: Field, v: Value, prior: Value, e: seq<Byte>, tail: seq<Byte>)
    requires FieldOk(f) && EncodeValue(f, v) == Some(e) && |e| < TWO_32
    requires prior == Int(0) || prior == DefaultValue(f)
    ensures var r := DecodeValue(f, prior, e + tail);
      if Readable(f, v) then r.Got? && r.rest == tail && Same(f, v, r.value) else r == Missing
    decreases f, 0
  {
    if f.ltype.Submessage? {
      var sub := f.ltype.sub;
      var p := EncodeFields(sub, v.cells, 0).value;
      StringBack(f, p, e, tail);
      assert SubCells(sub, prior) == Defaults(sub);
      MessageBack(sub, v.cells, p);
    } else {
      ScalarBack(f, v, e, tail);
    }
  }

  /** Decoding an encoding succeeds if and only if every text written ends inside its buffer; then all bytes are
      used and the message agrees with the one encoded, at every depth. */
  lemma {:induction false} MessageBack(fields: seq<Field>, cells: seq<Cell>, e: seq<Byte>)
    requires WellFormed(fields) && |cells| == |fields|
    requires EncodeFields(fields, cells, 0) == Some(e) && |e| < TWO_32
    ensures var r := Decode(fields, e);
      if ReadableFields(fields, cells, 0) then r.Got? && r.rest == [] && SameFields(fields, cells, r.value)
      else r == Missing
    decreases fields, |fields| + 1
  {
    CellsStart(fields, cells);
    FieldsBack(fields, cells, 0, Start(Defaults(fields)), e);
  }

  /** The fields from the `i`th on come back, if they are readable. */
  ghost predicate Finishes(fields: seq<Field>, cells: seq<Cell>, i: nat, st: DState, e: seq<Byte>)
    requires |cells| == |fields| && i <= |fields| && Fits(fields, st)
  {
    var r := DecodeLoop(fields, st, e);
    if ReadableFields(fields, cells, i) then r.Got? && r.rest == [] && Inv(fields, cells, |fields|, r.value)
    else r == Missing
  }

  /** The `i`th field comes back, if it is readable. */
  ghost predicate StepDone(fields: seq<Field>, cells: seq<Cell>, i: nat, st: DState, e: seq<Byte>, st1: DState, e1: seq<Byte>)
    requires |cells| == |fields| && i < |fields| && Fits(fields, st)
  {
    if ReadableCell(fields[i], cells[Home(fields, i)]) then
      Inv(fields, cells, i + 1, st1) && DecodeLoop(fields, st, e) == DecodeLoop(fields, st1, e1)
    else DecodeLoop(fields, st, e) == Missing
  }

  lemma FinishStep(fields: seq<Field>, cells: seq<Cell>, i: nat, st: DState, e: seq<Byte>, st1: DState, e1: seq<Byte>)
    requires |cells| == |fields| && i < |fields| && Fits(fields, st)
    requires StepDone(fields, cells, i, st, e, st1, e1)
    requires ReadableCell(fields[i], cells[Home(fields, i)]) ==> Finishes(fields, cells, i + 1, st1, e1)
    ensures Finishes(fields, cells, i, st, e)
  {
  }

  lemma {:induction false} FieldsBack(fields: seq<Field>, cells: seq<Cell>, i: nat, st: DState, e: seq<Byte>)
    requires WellFormed(fields) && |cells| == |fields| && i <= |fields| && Inv(fields, cells, i, st)
    requires EncodeFields(fields, cells, i) == Some(e) && |e| < TWO_32
    ensures Finishes(fields, cells, i, st, e) == true
    decreases fields, |fields| - i
  {
    if i < |fields| {
      var f, c := fields[i], cells[Home(fields, i)];
      assert f in fields;
      var e0, e1 := EncodeCell(f, c).value, EncodeFields(fields, cells, i + 1).value;
      var st1 := FieldBack(fields, cells, i, st, e0, e1);
      assert StepDone(fields, cells, i, st, e, st1, e1) == true;
      if ReadableCell(f, c) == true {
        FieldsBack(fields, cells, i + 1, st1, e1);
      }
      FinishStep(fields, cells, i, st, e, st1, e1);
    }
  }

  lemma {:induction false} FieldBack(fields: seq<Field>, cells: seq<Cell>, i: nat, st: DState, e: seq<Byte>, tail: seq<Byte>)
    returns (st1: DState)
    requires WellFormed(fields) && |cells| == |fields| && i < |fields| && Inv(fields, cells, i, st)
    requires EncodeCell(fields[i], cells[Home(fields, i)]) == Some(e) && |e| < TWO_32
    ensures StepDone(fields, cells, i, st, e + tail, st1, tail) == true
    decreases fields[i], 4
  {
    var f, c := fields[i], cells[Home(fields, i)];
    assert f in fields;
    st1 := st;
    if f.htype.Repeated? && c.items != [] {
      var ws := ArrayBack(fields, cells, i, st, e, tail);
      st1 := ArrayNext(fields, st, i, ws);
    } else if Present(f, c) {
      WrittenOnce(f, c, e);
      var tag := EncodeTag(f.tag, WireType(f.ltype));
      var ve := EncodeValue(f, c.value).value;
      assert e + tail == tag + (ve + tail);
      ValueBack(f, c.value, DefaultValue(f), ve, tail);
      st1 := SingularStep(fields, cells, i, st, ve + tail, DecodeValue(f, DefaultValue(f), ve + tail));
    } else {
      NotWritten(f, c, e);
      assert e + tail == tail;
      CellsSkip(fields, cells, i, st.cells);
    }
  }

  lemma WrittenOnce(f: Field, c: Cell, e: seq<Byte>)
    requires EncodeCell(f, c) == Some(e) && Present(f, c)
    ensures !f.htype.Repeated? && KindOk(f, c) && EncodeValue(f, c.value).Some?
    ensures e == EncodeTag(f.tag, WireType(f.ltype)) + EncodeValue(f, c.value).value
    ensures ReadableCell(f, c) <==> Readable(f, c.value)
  {
    assert EncodeCell(f, c) == EncodeTagged(f, c.value);
  }

  lemma NotWritten(f: Field, c: Cell, e: seq<Byte>)
    requires EncodeCell(f, c) == Some(e) && !Present(f, c) && (f.htype.Repeated? ==> c.items == [])
    ensures KindOk(f, c) && e == [] && ReadableCell(f, c)
  {
    if f.htype.Repeated? {
      assert EncodeCell(f, c) == EncodeArray(f, c.items);
    }
  }

  /** An array that is written comes back, packed or not. */
  lemma {:induction false} ArrayBack(fields: seq<Field>, cells: seq<Cell>, i: nat, st: DState, e: seq<Byte>, tail: seq<Byte>)
    returns (ws: seq<Value>)
    requires WellFormed(fields) && |cells| == |fields| && i < |fields| && Inv(fields, cells, i, st)
    requires fields[i].htype.Repeated? && KindOk(fields[i], cells[Home(fields, i)])
    requires cells[Home(fields, i)].items != []
    requires EncodeArray(fields[i], cells[Home(fields, i)].items) == Some(e) && |e| < TWO_32
    ensures st.cells[i].Many?
    ensures var f, items := fields[i], cells[Home(fields, i)].items;
      && (AllReadable(f, items) <==> ReadableCell(f, cells[Home(fields, i)]))
      && (!AllReadable(f, items) ==> DecodeLoop(fields, st, e + tail) == Missing)
      && (AllReadable(f, items) ==>
            && DecodeLoop(fields, st, e + tail) == DecodeLoop(fields, ArrayNext(fields, st, i, ws), tail)
            && Inv(fields, cells, i + 1, ArrayNext(fields, st, i, ws)))
    decreases fields[i], 3
  {
    var f := fields[i];
    HomeOfUnion(fields, i);
    var items := cells[i].items;
    assert Fresh(fields, i, f, cells[i], st.cells[i]);
    assert ArrayAt(fields, st, i, 0);
    if Packable(f.ltype) {
      ws := PackedArrayBack(fields, st, i, items, e, tail);
    } else {
      ws := UnpackedBack(fields, st, i, 0, items, e, tail);
    }
    if AllReadable(f, items) {
      ArrayAgrees(fields, cells, i, st, ws);
    }
  }

  lemma PackedArrayBack(fields: seq<Field>, st: DState, i: nat, items: seq<Value>, e: seq<Byte>, tail: seq<Byte>)
    returns (ws: seq<Value>)
    requires WellFormed(fields) && i < |fields| && ArrayAt(fields, st, i, 0) && Packable(fields[i].ltype)
    requires items != [] && EncodeArray(fields[i], items) == Some(e) && |e| < TWO_32
    ensures AllReadable(fields[i], items) && AllSame(fields[i], items, ws)
    ensures DecodeLoop(fields, st, e + tail) == DecodeLoop(fields, ArrayNext(fields, st, i, ws), tail)
  {
    var f := fields[i];
    var p := EncodePacked(f, items).value;
    var tag := EncodeTag(f.tag, WT_STRING);
    assert e + tail == tag + (PutString(p) + tail);
    StringBack(f, p, PutString(p), tail);
    PackedBack(f, items, Array([], 0), p);
    var a := DecodePacked(f, Array([], 0), p).value;
    ws := a.items;
    assert st.cells[i].items == [];
    ArrayStep(fields, st, i, 0, WT_STRING, PutString(p) + tail, Got(a, tail));
    assert a.items[0..] == ws;
  }

  lemma ArrayAgrees(fields: seq<Field>, cells: seq<Cell>, i: nat, st: DState, ws: seq<Value>)
    requires WellFormed(fields) && |cells| == |fields| && i < |fields| && Inv(fields, cells, i, st)
    requires fields[i].htype.Repeated? && KindOk(fields[i], cells[i]) && Home(fields, i) == i
    requires st.cells[i] == Many([]) && AllSame(fields[i], cells[i].items, ws)
    ensures Inv(fields, cells, i + 1, ArrayNext(fields, st, i, ws))
  {
    var d := Many([] + ws);
    assert SameCell(fields[i], cells[i], d);
    CellsWrite(fields, cells, i, st.cells, d);
  }

  /** A message is stored in a buffer and read back. */
  method StoreAndRead(fields: seq<Field>, cells: seq<Cell>, bufSize: nat)
    returns (sent: bool, received: bool, copy: seq<Cell>)
    requires WellFormed(fields) && |cells| == |fields| && TypedFields(fields, cells) && bufSize < TWO_32
    ensures sent <==> EncodeFields(fields, cells, 0).Some? && |EncodeFields(fields, cells, 0).value| <= bufSize
    ensures sent ==> (received <==> ReadableFields(fields, cells, 0))
    ensures sent && received ==> |copy| == |fields| && SameFields(fields, cells, copy)
  {
    received, copy := false, [];
    var output := new OStream.Storing([], bufSize);
    sent := output.WriteMessage(fields, cells);
    if sent {
      ghost var e := EncodeFields(fields, cells, 0).value;
      assert output.state == [] + e == e;
      var input := new IStream(output.state, 0, output.bytesWritten);
      assert input.Rest() == e;
      MessageBack(fields, cells, e);
      received, copy := input.ReadFresh(fields);
    }
  }
}
