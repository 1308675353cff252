/** Fields the decoder's table does not have are skipped whole (nanopb pb_decode.c pb_skip_field). */
module NanopbUnknown {
  import opened Options
  import opened Coding
  import opened NanopbFields
  import opened NanopbWire
  import opened NanopbEncode
  import opened NanopbDecode
  import opened NanopbRoundTrip

  // ---- One value ----

  lemma {:induction false} VarintSkipped(v: nat, tail: seq<Byte>)
    ensures SkipVarint(EncodeVarint(v) + tail) == Some(tail)
  {
    if v < 128 {
      assert EncodeVarint(v) + tail == [v] + tail;
    } else {
      VarintSkipped(v / 128, tail);
      var rest := EncodeVarint(v / 128);
      assert EncodeVarint(v) == [v % 128 + 128] + rest;
      assert (EncodeVarint(v) + tail)[1..] == rest + tail;
    }
  }

  lemma StringSkipped(b: seq<Byte>, tail: seq<Byte>)
    requires |b| < TWO_32
    ensures SkipField(PutString(b) + tail, WT_STRING) == Some(tail)
  {
    StringRoundTrip(b, tail);
  }

  /** Whatever the encoder writes for a value is skipped by its wire type, to the byte. */
  lemma ValueSkipped(g: Field, v: Value, e: seq<Byte>, tail: seq<Byte>)
    requires EncodeValue(g, v) == Some(e) && |e| < TWO_32
    ensures SkipField(e + tail, WireType(g.ltype)) == Some(tail)
  {
    if g.ltype.Submessage? {
      StringSkipped(EncodeFields(g.ltype.sub, v.cells, 0).value, tail);
    } else {
      ScalarSkipped(g, v, e, tail);
    }
  }

  lemma ScalarSkipped(g: Field, v: Value, e: seq<Byte>, tail: seq<Byte>)
    requires EncodeScalar(g, v) == Some(e) && |e| < TWO_32
    ensures SkipField(e + tail, WireType(g.ltype)) == Some(tail)
  {
    match (g.ltype, v)
    case (Bool, Int(n)) => VarintSkipped(if n != 0 then 1 else 0, tail);
    case (VarInt, Int(n)) => VarintSkipped(n % TWO_64, tail);
    case (UVarInt, Int(n)) => VarintSkipped(n, tail);
    case (SVarInt, Int(n)) => VarintSkipped(Zigzag(n), tail);
    case (Fixed32, _) => assert |e| == 4 && (e + tail)[4..] == tail;
    case (Fixed64, _) => assert |e| == 8 && (e + tail)[8..] == tail;
    case (Bytes, Blob(b)) => StringSkipped(b, tail);
    case (Text, Blob(b)) => StringSkipped(CString(b), tail);
    case (FixedLength, Blob(b)) => StringSkipped(b, tail);
  }

  // ---- One turn of the decoding loop ----

  /** A tag that no field of the table has. */
  predicate UnknownTag(fields: seq<Field>, tag: nat) {
    0 < tag < 0x2000_0000 && forall k :: 0 <= k < |fields| ==> fields[k].tag != tag
  }

  /** What follows an unknown tag is skipped and nothing else changes; if it cannot be skipped, decoding fails. */
  lemma TagSkipped(fields: seq<Field>, st: DState, tag: nat, wireType: nat, body: seq<Byte>)
    requires Fits(fields, st) && UnknownTag(fields, tag) && wireType < 8
    ensures DecodeLoop(fields, st, EncodeTag(tag, wireType) + body)
            == match SkipField(body, wireType)
               case None => Missing
               case Some(rest) => DecodeLoop(fields, st, rest)
  {
    var t := 8 * tag + wireType;
    Varint32Exact(t, body);
    assert t / 8 == tag && t % 8 == wireType && t != 0;
    assert Find(fields, st.pos, tag) == None;
  }

  /** Groups and the wire types not assigned are refused. */
  lemma GroupRefused(fields: seq<Field>, st: DState, tag: nat, wireType: nat, body: seq<Byte>)
    requires Fits(fields, st) && UnknownTag(fields, tag) && wireType in {3, 4, 6, 7}
    ensures DecodeLoop(fields, st, EncodeTag(tag, wireType) + body) == Missing
  {
    TagSkipped(fields, st, tag, wireType, body);
  }

  /** A field that the table does not have leaves no trace. */
  lemma FieldSkipped(fields: seq<Field>, st: DState, g: Field, v: Value, e: seq<Byte>, tail: seq<Byte>)
    requires Fits(fields, st) && UnknownTag(fields, g.tag) && EncodeTagged(g, v) == Some(e) && |e| < TWO_32
    ensures DecodeLoop(fields, st, e + tail) == DecodeLoop(fields, st, tail)
  {
    var tag, ve := EncodeTag(g.tag, WireType(g.ltype)), EncodeValue(g, v).value;
    assert e + tail == tag + (ve + tail);
    ValueSkipped(g, v, ve, tail);
    TagSkipped(fields, st, g.tag, WireType(g.ltype), ve + tail);
  }

  lemma {:induction false} ItemsSkipped(fields: seq<Field>, st: DState, g: Field, items: seq<Value>, e: seq<Byte>,
                                        tail: seq<Byte>)
    requires Fits(fields, st) && UnknownTag(fields, g.tag) && EncodeUnpacked(g, items) == Some(e) && |e| < TWO_32
    ensures DecodeLoop(fields, st, e + tail) == DecodeLoop(fields, st, tail)
    decreases |items|
  {
    if items == [] {
      assert e + tail == tail;
    } else {
      var e0, e1 := EncodeTagged(g, items[0]).value, EncodeUnpacked(g, items[1..]).value;
      assert e + tail == e0 + (e1 + tail);
      FieldSkipped(fields, st, g, items[0], e0, e1 + tail);
      ItemsSkipped(fields, st, g, items[1..], e1, tail);
    }
  }

  lemma PackedSkipped(fields: seq<Field>, st: DState, g: Field, items: seq<Value>, e: seq<Byte>, tail: seq<Byte>)
    requires Fits(fields, st) && UnknownTag(fields, g.tag) && PackedField(g, items) == Some(e) && |e| < TWO_32
    ensures DecodeLoop(fields, st, e + tail) == DecodeLoop(fields, st, tail)
  {
    var tag, p := EncodeTag(g.tag, WT_STRING), EncodePacked(g, items).value;
    assert e + tail == tag + (PutString(p) + tail);
    StringSkipped(p, tail);
    TagSkipped(fields, st, g.tag, WT_STRING, PutString(p) + tail);
  }

  /** Whatever is written for a field of another table: nothing, a value, or an array, packed or not. */
  lemma CellSkipped(fields: seq<Field>, st: DState, g: Field, c: Cell, e: seq<Byte>, tail: seq<Byte>)
    requires Fits(fields, st) && UnknownTag(fields, g.tag) && EncodeCell(g, c) == Some(e) && |e| < TWO_32
    ensures DecodeLoop(fields, st, e + tail) == DecodeLoop(fields, st, tail)
  {
    if g.htype.Repeated? {
      assert EncodeArray(g, c.items) == Some(e);
      if c.items == [] {
        assert e + tail == tail;
      } else if Packable(g.ltype) {
        PackedSkipped(fields, st, g, c.items, e, tail);
      } else {
        ItemsSkipped(fields, st, g, c.items, e, tail);
      }
    } else if Present(g, c) {
      assert EncodeTagged(g, c.value) == Some(e);
      FieldSkipped(fields, st, g, c.value, e, tail);
    } else {
      assert e + tail == tail;
    }
  }

  // ---- A message with unknown fields in it ----

  /** A field of another table, and what the sender's structure holds for it. */
  datatype Unknown = Unknown(field: Field, cell: Cell)

  function EncodeUnknown(us: seq<Unknown>): Option<seq<Byte>> {
    if us == [] then Some([]) else Join(EncodeCell(us[0].field, us[0].cell), EncodeUnknown(us[1..]))
  }

  /** The fields from the `i`th on, the unknown fields `us[k]` coming before the `k`th. */
  function EncodeMixed(fields: seq<Field>, cells: seq<Cell>, us: seq<seq<Unknown>>, i: nat): Option<seq<Byte>>
    requires |cells| == |fields| && |us| == |fields| + 1 && i <= |fields|
    decreases |fields| - i
  {
    Join(EncodeUnknown(us[i]),
         if i == |fields| then Some([])
         else Join(EncodeCell(fields[i], cells[Home(fields, i)]), EncodeMixed(fields, cells, us, i + 1)))
  }

  predicate Unknowns(fields: seq<Field>, us: seq<seq<Unknown>>) {
    |us| == |fields| + 1 && forall k :: 0 <= k < |us| ==> AllUnknown(fields, us[k])
  }

  predicate AllUnknown(fields: seq<Field>, us: seq<Unknown>) {
    forall u <- us :: UnknownTag(fields, u.field.tag)
  }

  lemma {:induction false} UnknownSkipped(fields: seq<Field>, st: DState, us: seq<Unknown>, e: seq<Byte>, tail: seq<Byte>)
    requires Fits(fields, st) && AllUnknown(fields, us) && EncodeUnknown(us) == Some(e) && |e| < TWO_32
    ensures DecodeLoop(fields, st, e + tail) == DecodeLoop(fields, st, tail)
  {
    if us == [] {
      assert e + tail == tail;
    } else {
      var e0, e1 := EncodeCell(us[0].field, us[0].cell).value, EncodeUnknown(us[1..]).value;
      assert e + tail == e0 + (e1 + tail);
      assert us[0] in us;
      CellSkipped(fields, st, us[0].field, us[0].cell, e0, e1 + tail);
      UnknownSkipped(fields, st, us[1..], e1, tail);
    }
  }

  /** How a message ends: with the bytes, or with a zero tag and whatever comes after it. */
  ghost predicate Ending(end: seq<Byte>, tail: seq<Byte>) {
    (end == [] && tail == []) || end == [0] + tail
  }

  /** From the `i`th field on the message comes back and `tail` is left, or it is refused if it is not readable. */
  ghost predicate EndsWith(fields: seq<Field>, cells: seq<Cell>, i: nat, st: DState, s: seq<Byte>, tail: seq<Byte>)
    requires |cells| == |fields| && i <= |fields| && Fits(fields, st)
  {
    var r := DecodeLoop(fields, st, s);
    if ReadableFields(fields, cells, i) then r.Got? && r.rest == tail && Inv(fields, cells, |fields|, r.value)
    else r == Missing
  }

  lemma EndStep(fields: seq<Field>, cells: seq<Cell>, i: nat, st: DState, s: seq<Byte>, st1: DState, s1: seq<Byte>, tail: seq<Byte>)
    requires |cells| == |fields| && i < |fields| && Fits(fields, st)
    requires StepDone(fields, cells, i, st, s, st1, s1)
    requires ReadableCell(fields[i], cells[Home(fields, i)]) ==> EndsWith(fields, cells, i + 1, st1, s1, tail)
    ensures EndsWith(fields, cells, i, st, s, tail)
  {
  }

  lemma LoopEnds(fields: seq<Field>, st: DState, end: seq<Byte>, tail: seq<Byte>)
    requires Fits(fields, st) && Ending(end, tail)
    ensures DecodeLoop(fields, st, end) == Got(st, tail)
  {
    if end != [] {
      Varint32Exact(0, tail);
    }
  }

  lemma {:induction false} MixedFieldsBack(fields: seq<Field>, cells: seq<Cell>, us: seq<seq<Unknown>>, i: nat, st: DState,
                                           e: seq<Byte>, end: seq<Byte>, tail: seq<Byte>)
    requires WellFormed(fields) && |cells| == |fields| && i <= |fields| && Inv(fields, cells, i, st) && Ending(end, tail)
    requires Unknowns(fields, us)
    requires EncodeMixed(fields, cells, us, i) == Some(e) && |e| < TWO_32
    ensures EndsWith(fields, cells, i, st, e + end, tail) == true
    decreases |fields| - i
  {
    var u := EncodeUnknown(us[i]).value;
    assert AllUnknown(fields, us[i]);
    if i == |fields| {
      assert e == u + [] == u;
      UnknownSkipped(fields, st, us[i], u, end);
      LoopEnds(fields, st, end, tail);
    } else {
      var f, c := fields[i], cells[Home(fields, i)];
      var e0, e1 := EncodeCell(f, c).value, EncodeMixed(fields, cells, us, i + 1).value;
      assert e + end == u + (e0 + (e1 + end));
      UnknownSkipped(fields, st, us[i], u, e0 + (e1 + end));
      var st1 := FieldBack(fields, cells, i, st, e0, e1 + end);
      if ReadableCell(f, c) == true {
        MixedFieldsBack(fields, cells, us, i + 1, st1, e1, end, tail);
      }
      EndStep(fields, cells, i, st, e0 + (e1 + end), st1, e1 + end, tail);
    }
  }

  /** Whatever fields of other tables come before, between and after its own, a message is decoded as without them;
      it ends where its bytes end, or at a zero tag, after which nothing is read. */
  lemma UnknownFieldsIgnored(fields: seq<Field>, cells: seq<Cell>, us: seq<seq<Unknown>>, e: seq<Byte>, end: seq<Byte>,
                             tail: seq<Byte>)
    requires WellFormed(fields) && |cells| == |fields| && Ending(end, tail)
    requires Unknowns(fields, us)
    requires EncodeMixed(fields, cells, us, 0) == Some(e) && |e| < TWO_32
    ensures var r := Decode(fields, e + end);
      if ReadableFields(fields, cells, 0) then r.Got? && r.rest == tail && SameFields(fields, cells, r.value)
      else r == Missing
  {
    CellsStart(fields, cells);
    MixedFieldsBack(fields, cells, us, 0, Start(Defaults(fields)), e, end, tail);
  }

  // ---- A field that comes twice ----

  /** A field that is neither an array nor a submessage is read in one turn, whatever the structure holds. */
  lemma ScalarTurn(fields: seq<Field>, st: DState, i: nat, v: Value, e: seq<Byte>, tail: seq<Byte>) returns (st1: DState)
    requires WellFormed(fields) && Fits(fields, st) && i < |fields| && !fields[i].htype.Repeated? && !fields[i].ltype.Submessage?
    requires EncodeTagged(fields[i], v) == Some(e) && |e| < TWO_32 && Readable(fields[i], v)
    ensures Enter(fields, st, i).Some?
    ensures st1 == Enter(fields, st, i).value
                   .(cells := st.cells[Home(fields, i) := NewCell(fields[i], Back(fields[i], v))])
    ensures Fits(fields, st1) && DecodeLoop(fields, st, e + tail) == DecodeLoop(fields, st1, tail)
  {
    var f, h := fields[i], Home(fields, i);
    var tag, ve := EncodeTag(f.tag, WireType(f.ltype)), EncodeValue(f, v).value;
    assert e + tail == tag + (ve + tail);
    ScalarBack(f, v, ve, tail);
    var entered := Enter(fields, st, i).value;
    st1 := entered.(cells := st.cells[h := NewCell(f, Back(f, v))]);
    assert DecodeCell(f, WireType(f.ltype), st.cells[h], entered.fixedCount, ve + tail)
           == Got(Decoded(NewCell(f, Back(f, v)), entered.fixedCount), tail);
    assert DecodeAt(fields, entered, i, WireType(f.ltype), ve + tail) == Got(st1, tail);
    LoopStep(fields, st, i, WireType(f.ltype), ve + tail, entered, Got(st1, tail));
  }

  /** Of a field that comes twice the last value counts. */
  lemma LastWins(fields: seq<Field>, st: DState, i: nat, v: Value, w: Value, e: seq<Byte>, d: seq<Byte>, tail: seq<Byte>)
    requires WellFormed(fields) && Fits(fields, st) && i < |fields| && !fields[i].htype.Repeated? && !fields[i].ltype.Submessage?
    requires EncodeTagged(fields[i], v) == Some(e) && |e| < TWO_32 && Readable(fields[i], v)
    requires EncodeTagged(fields[i], w) == Some(d) && |d| < TWO_32 && Readable(fields[i], w)
    ensures DecodeLoop(fields, st, e + (d + tail)) == DecodeLoop(fields, st, d + tail)
  {
    var st1 := ScalarTurn(fields, st, i, v, e, d + tail);
    var st2 := ScalarTurn(fields, st1, i, w, d, tail);
    var st2' := ScalarTurn(fields, st, i, w, d, tail);
    assert st2 == st2';
  }
}
