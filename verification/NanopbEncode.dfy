/** Encoding a message by its descriptor table (nanopb pb_encode.c). */
module NanopbEncode {
  import opened Options
  import opened Coding
  import opened NanopbFields
  import opened NanopbWire

  // ---- The bytes of a message ----

  function WireType(t: LType): nat {
    if t.Bool? || t.VarInt? || t.UVarInt? || t.SVarInt? then WT_VARINT
    else if t.Fixed32? then WT_32BIT
    else if t.Fixed64? then WT_64BIT
    else WT_STRING
  }

  /** A text buffer, full unless what follows its NUL is left out. */
  predicate TextOk(b: seq<Byte>, size: nat) {
    |b| <= size && (|b| < size ==> |CString(b)| < |b|)
  }

  /** A value other than a submessage; none if it cannot be encoded. */
  function EncodeScalar(f: Field, v: Value): Option<seq<Byte>> {
    match (f.ltype, v)
    case (Bool, Int(n)) => Some(EncodeVarint(if n != 0 then 1 else 0))
    case (VarInt, Int(n)) =>
      if ValidSize(f.dataSize) && FitsSigned(n, f.dataSize) then Some(EncodeVarint(n % TWO_64)) else None
    case (UVarInt, Int(n)) =>
      if ValidSize(f.dataSize) && 0 <= n < Modulus(f.dataSize) then Some(EncodeVarint(n)) else None
    case (SVarInt, Int(n)) =>
      if ValidSize(f.dataSize) && FitsSigned(n, f.dataSize) then Some(EncodeVarint(Zigzag(n))) else None
    case (Fixed32, Int(n)) => if 0 <= n < TWO_32 then Some(EncodeFixed32(n)) else None
    case (Fixed64, Int(n)) => if 0 <= n < TWO_64 then Some(EncodeFixed64(n)) else None
    case (Bytes, Blob(b)) => if |b| + BYTES_OFFSET > f.dataSize then None else Some(PutString(b))
    case (Text, Blob(b)) => if TextOk(b, f.dataSize) then Some(PutString(CString(b))) else None
    case (FixedLength, Blob(b)) => if |b| == f.dataSize then Some(PutString(b)) else None
    case _ => None
  }

  function Delimited(e: Option<seq<Byte>>): Option<seq<Byte>> {
    if e.Some? then Some(PutString(e.value)) else None
  }

  function EncodeValue(f: Field, v: Value): Option<seq<Byte>>
    decreases f, 0
  {
    if f.ltype.Submessage? then
      if v.Struct? && |v.cells| == |f.ltype.sub| then
        Delimited(EncodeFields(f.ltype.sub, v.cells, 0))
      else None
    else EncodeScalar(f, v)
  }

  /** One after the other, nothing between them. */
  function EncodePacked(f: Field, items: seq<Value>): Option<seq<Byte>> {
    if items == [] then Some([]) else Join(EncodeScalar(f, items[0]), EncodePacked(f, items[1..]))
  }

  function Join(a: Option<seq<Byte>>, b: Option<seq<Byte>>): Option<seq<Byte>> {
    if a.Some? && b.Some? then Some(a.value + b.value) else None
  }

  function EncodeTagged(f: Field, v: Value): Option<seq<Byte>>
    decreases f, 1
  {
    Join(Some(EncodeTag(f.tag, WireType(f.ltype))), EncodeValue(f, v))
  }

  function EncodeUnpacked(f: Field, items: seq<Value>): Option<seq<Byte>>
    decreases f, 2, |items|
  {
    if items == [] then Some([]) else Join(EncodeTagged(f, items[0]), EncodeUnpacked(f, items[1..]))
  }

  function PackedField(f: Field, items: seq<Value>): Option<seq<Byte>> {
    Join(Some(EncodeTag(f.tag, WT_STRING)), Delimited(EncodePacked(f, items)))
  }

  function EncodeArray(f: Field, items: seq<Value>): Option<seq<Byte>>
    decreases f, 3
  {
    if items == [] then Some([])
    else if |items| > f.arraySize then None
    else if Packable(f.ltype) then PackedField(f, items)
    else EncodeUnpacked(f, items)
  }

  /** Whether a field that is not repeated is written. */
  predicate Present(f: Field, c: Cell) {
    match f.htype
    case Required => true
    case Optional(flagged) => if flagged then c.Opt? && c.has else !IsDefault(f, c)
    case Repeated(_) => false
    case OneOf(_) => c.Union? && c.which == f.tag
  }

  /** The cell is of the kind its field calls for; a full array is full. */
  predicate KindOk(f: Field, c: Cell) {
    match f.htype
    case Required => c.One?
    case Optional(flagged) => if flagged then c.Opt? else c.One?
    case Repeated(counted) => c.Many? && (counted || |c.items| == f.arraySize)
    case OneOf(_) => c.Union?
  }

  function EncodeCell(f: Field, c: Cell): Option<seq<Byte>>
    decreases f, 4
  {
    if !KindOk(f, c) then None
    else if f.htype.Repeated? then EncodeArray(f, c.items)
    else if Present(f, c) then EncodeTagged(f, c.value)
    else Some([])
  }

  /** The fields from the `i`th on, in the order of the table. */
  function EncodeFields(fields: seq<Field>, cells: seq<Cell>, i: nat): Option<seq<Byte>>
    requires |cells| == |fields| && i <= |fields|
    decreases fields, |fields| - i
  {
    if i == |fields| then Some([])
    else Join(EncodeCell(fields[i], cells[Home(fields, i)]), EncodeFields(fields, cells, i + 1))
  }

  // ---- Structures of the right type ----

  /** The memory holds a value of the type its field describes. */
  ghost predicate Typed(f: Field, v: Value)
    decreases f, 0
  {
    match f.ltype
    case Bool => v.Int?
    case VarInt => v.Int? && (ValidSize(f.dataSize) ==> FitsSigned(v.n, f.dataSize))
    case UVarInt => v.Int? && (ValidSize(f.dataSize) ==> 0 <= v.n < Modulus(f.dataSize))
    case SVarInt => v.Int? && (ValidSize(f.dataSize) ==> FitsSigned(v.n, f.dataSize))
    case Fixed32 => v.Int? && 0 <= v.n < TWO_32
    case Fixed64 => v.Int? && 0 <= v.n < TWO_64
    case Bytes => v.Blob?
    case Text => v.Blob? && TextOk(v.bytes, f.dataSize)
    case FixedLength => v.Blob? && |v.bytes| == f.dataSize
    case Submessage(sub) => v.Struct? && |v.cells| == |sub| && TypedFields(sub, v.cells)
  }

  ghost predicate TypedCell(f: Field, c: Cell)
    decreases f, 1
  {
    && KindOk(f, c)
    && match c
       case Many(items) => forall v <- items :: Typed(f, v)
       case Union(which, v) => which == f.tag ==> Typed(f, v)
       case _ => Typed(f, c.value)
  }

  ghost predicate TypedFields(fields: seq<Field>, cells: seq<Cell>)
    requires |cells| == |fields|
    decreases fields
  {
    forall k :: 0 <= k < |fields| ==> TypedCell(fields[k], cells[Home(fields, k)])
  }

  /** Numbers of fixed width need not be counted. */
  lemma {:induction false} FixedSize(f: Field, items: seq<Value>, width: nat)
    requires if width == 4 then f.ltype.Fixed32? else width == 8 && f.ltype.Fixed64?
    requires forall v <- items :: Typed(f, v)
    ensures EncodePacked(f, items).Some? && |EncodePacked(f, items).value| == width * |items|
  {
    if items != [] {
      assert Typed(f, items[0]);
      FixedSize(f, items[1..], width);
    }
  }

  // ---- Streams ----

  /** How much has been counted, and what has been stored through the stream's pointer. */
  datatype Out = Out(written: nat, bytes: seq<Byte>)

  /** From `a` to `b`, `e` was sent: it is refused only if it cannot be encoded or, when it is stored, does not
      fit; a refused encoding may have stored a part, within the limit. */
  ghost predicate Sent(sizing: bool, limit: nat, a: Out, b: Out, e: Option<seq<Byte>>, ok: bool) {
    && ok == (e.Some? && (sizing || a.written + |e.value| <= limit))
    && (ok ==> b == Out(a.written + |e.value|, if sizing then a.bytes else a.bytes + e.value))
    && (if sizing then b.bytes == a.bytes
        else a.bytes <= b.bytes && |b.bytes| - |a.bytes| == b.written - a.written && b.written <= limit)
  }

  lemma SentThen(sizing: bool, limit: nat, a: Out, b: Out, c: Out, p: seq<Byte>, e: Option<seq<Byte>>, ok: bool)
    requires Sent(sizing, limit, a, b, Some(p), true) && Sent(sizing, limit, b, c, e, ok)
    ensures Sent(sizing, limit, a, c, Join(Some(p), e), ok)
  {
    if ok && !sizing {
      assert a.bytes + p + e.value == a.bytes + (p + e.value);
    }
  }

  lemma SentNot(sizing: bool, limit: nat, a: Out, b: Out, e: Option<seq<Byte>>, rest: Option<seq<Byte>>)
    requires Sent(sizing, limit, a, b, e, false)
    ensures Sent(sizing, limit, a, b, Join(e, rest), false)
  {
  }

  lemma FieldsFrom(fields: seq<Field>, cells: seq<Cell>, i: nat, p: seq<Byte>)
    requires |cells| == |fields| && i < |fields|
    ensures Join(Some(p), EncodeFields(fields, cells, i)) ==
            Join(Join(Some(p), EncodeCell(fields[i], cells[Home(fields, i)])), EncodeFields(fields, cells, i + 1))
  {
    JoinTwice(Some(p), EncodeCell(fields[i], cells[Home(fields, i)]), EncodeFields(fields, cells, i + 1));
  }

  lemma JoinEmpty(e: Option<seq<Byte>>)
    ensures Join(Some([]), e) == e
  {
    if e.Some? { assert [] + e.value == e.value; }
  }

  lemma JoinTwice(a: Option<seq<Byte>>, b: Option<seq<Byte>>, c: Option<seq<Byte>>)
    ensures Join(a, Join(b, c)) == Join(Join(a, b), c)
  {
    if a.Some? && b.Some? && c.Some? {
      assert a.value + (b.value + c.value) == a.value + b.value + c.value;
    }
  }

  lemma CStringStep(b: seq<Byte>, i: nat)
    requires i < |b| && b[i] != 0 && CString(b) == b[..i] + CString(b[i..])
    ensures CString(b) == b[..i + 1] + CString(b[i + 1..])
  {
    var rest := CString(b[i + 1..]);
    assert b[i..][1..] == b[i + 1..];
    assert CString(b[i..]) == [b[i]] + rest;
    assert b[..i + 1] == b[..i] + [b[i]];
    Regroup(b[..i], [b[i]], rest);
  }

  lemma Regroup(a: seq<Byte>, b: seq<Byte>, c: seq<Byte>)
    ensures a + (b + c) == a + b + c
  {
  }

  /** One more byte of a varint; the last one has its top bit to lose. */
  lemma VarintPush(value: nat, buffer: seq<Byte>, v: nat)
    requires v != 0 && buffer + EncodeVarint(v) == EncodeVarint(value)
    ensures v >= 128 ==> buffer + [v % 128 + 128] + EncodeVarint(v / 128) == EncodeVarint(value)
    ensures v < 128 ==> v / 128 == 0 && (buffer + [v])[..|buffer|] == buffer && buffer + [v] == EncodeVarint(value)
  {
    if v >= 128 {
      Regroup(buffer, [v % 128 + 128], EncodeVarint(v / 128));
    }
  }

  /** The bytes of a varint, each with its top bit set until the last one is put right. */
  method VarintBuffer(value: nat) returns (buffer: seq<Byte>)
    requires value != 0
    ensures buffer == EncodeVarint(value)
  {
    var v: nat := value;
    buffer := [];
    ghost var before: seq<Byte>, digit: Byte := [], 0;
    while v != 0
      invariant v != 0 ==> buffer + EncodeVarint(v) == EncodeVarint(value)
      invariant v == 0 ==> digit < 128 && buffer == before + [digit + 128] && before + [digit] == EncodeVarint(value)
    {
      VarintPush(value, buffer, v);
      before, digit := buffer, v % 128;
      buffer := buffer + [v % 128 + 128];
      v := v / 128;
    }
    var last := |buffer| - 1;
    buffer := buffer[last := buffer[last] - 128];
    assert buffer == before + [digit];
  }

  /** `pb_ostream_t`. A stream without a callback only counts. */
  class OStream {
    const sizing: bool
    const maxSize: nat
    var state: seq<Byte>
    var bytesWritten: nat

    ghost predicate Valid()
      reads this
    {
      sizing || bytesWritten <= maxSize
    }

    ghost function Now(): Out
      reads this
    {
      Out(bytesWritten, state)
    }

    constructor Sizing()
      ensures sizing && Valid() && Now() == Out(0, [])
    {
      sizing, maxSize, state, bytesWritten := true, 0, [], 0;
    }

    constructor Storing(state: seq<Byte>, maxSize: nat)
      ensures !sizing && this.maxSize == maxSize && Valid() && Now() == Out(0, state)
    {
      sizing := false;
      this.maxSize, this.state, bytesWritten := maxSize, state, 0;
    }

    /** `pb_write`; a stream that only counts does not look at the bytes. */
    method Write(buf: seq<Byte>, count: nat) returns (ok: bool)
      requires Valid() && (sizing || |buf| == count)
      modifies this
      ensures Valid()
      ensures sizing ==> ok && Now() == Out(old(bytesWritten) + count, old(state))
      ensures !sizing ==> Sent(sizing, maxSize, old(Now()), Now(), Some(buf), ok)
    {
      if count > 0 && !sizing {
        if bytesWritten + count > maxSize {
          return false;
        }
        state := state + buf;
      }
      bytesWritten := bytesWritten + count;
      ok := true;
    }

    method WriteAll(buf: seq<Byte>) returns (ok: bool)
      requires Valid()
      modifies this
      ensures Valid() && Sent(sizing, maxSize, old(Now()), Now(), Some(buf), ok)
    {
      ok := Write(buf, |buf|);
    }

    method WriteVarint(value: nat) returns (ok: bool)
      requires Valid()
      modifies this
      ensures Valid() && Sent(sizing, maxSize, old(Now()), Now(), Some(EncodeVarint(value)), ok)
    {
      if value <= 0x7F {
        ok := WriteAll([value]);
        return;
      }
      var buffer := VarintBuffer(value);
      ok := WriteAll(buffer);
    }

    method WriteTag(wireType: nat, tag: nat) returns (ok: bool)
      requires Valid()
      modifies this
      ensures Valid() && Sent(sizing, maxSize, old(Now()), Now(), Some(EncodeTag(tag, wireType)), ok)
    {
      ok := WriteVarint(8 * tag + wireType);
    }

    method WriteTagForField(f: Field) returns (ok: bool)
      requires Valid()
      modifies this
      ensures Valid() && Sent(sizing, maxSize, old(Now()), Now(), Some(EncodeTag(f.tag, WireType(f.ltype))), ok)
    {
      ok := WriteTag(WireType(f.ltype), f.tag);
    }

    method WriteString(b: seq<Byte>) returns (ok: bool)
      requires Valid()
      modifies this
      ensures Valid() && Sent(sizing, maxSize, old(Now()), Now(), Some(PutString(b)), ok)
    {
      ok := WriteVarint(|b|);
      if !ok {
        SentNot(sizing, maxSize, old(Now()), Now(), Some(EncodeVarint(|b|)), Some(b));
        return;
      }
      ghost var mid := Now();
      ok := WriteAll(b);
      SentThen(sizing, maxSize, old(Now()), mid, Now(), EncodeVarint(|b|), Some(b), ok);
    }

    // ---- Field encoders ----

    method WriteInteger(f: Field, v: Value) returns (ok: bool)
      requires Valid() && Typed(f, v)
      requires f.ltype.Bool? || f.ltype.VarInt? || f.ltype.UVarInt? || f.ltype.SVarInt?
      modifies this
      ensures Valid() && Sent(sizing, maxSize, old(Now()), Now(), EncodeScalar(f, v), ok) == true
    {
      if f.ltype.Bool? {
        ok := WriteVarint(if v.n != 0 then 1 else 0);
      } else if !ValidSize(f.dataSize) {
        ok := false;
      } else if f.ltype.VarInt? {
        ok := WriteVarint(v.n % TWO_64);
      } else if f.ltype.UVarInt? {
        ok := WriteVarint(v.n);
      } else {
        ok := WriteVarint(Zigzag(v.n));
      }
    }

    /** How many characters come before the NUL or the end of the buffer. */
    static method TextLength(b: seq<Byte>) returns (size: nat)
      ensures size <= |b| && CString(b) == b[..size]
    {
      size := 0;
      while size < |b| && b[size] != 0
        invariant size <= |b| && CString(b) == b[..size] + CString(b[size..])
      {
        CStringStep(b, size);
        size := size + 1;
      }
    }

    method WriteBlob(f: Field, v: Value) returns (ok: bool)
      requires Valid() && Typed(f, v) && (f.ltype.Bytes? || f.ltype.Text? || f.ltype.FixedLength?)
      modifies this
      ensures Valid() && Sent(sizing, maxSize, old(Now()), Now(), EncodeScalar(f, v), ok) == true
    {
      if f.ltype.Bytes? {
        if |v.bytes| + BYTES_OFFSET > f.dataSize {
          return false;
        }
        ok := WriteString(v.bytes);
      } else if f.ltype.Text? {
        var size := TextLength(v.bytes);
        ok := WriteString(v.bytes[..size]);
      } else {
        ok := WriteString(v.bytes);
      }
    }

    method WriteScalar(f: Field, v: Value) returns (ok: bool)
      requires Valid() && !f.ltype.Submessage? && Typed(f, v) == true
      modifies this
      ensures Valid() && Sent(sizing, maxSize, old(Now()), Now(), EncodeScalar(f, v), ok) == true
    {
      if f.ltype.Fixed32? {
        ok := WriteAll(EncodeFixed32(v.n));
      } else if f.ltype.Fixed64? {
        ok := WriteAll(EncodeFixed64(v.n));
      } else if f.ltype.Bytes? || f.ltype.Text? || f.ltype.FixedLength? {
        ok := WriteBlob(f, v);
      } else {
        ok := WriteInteger(f, v);
      }
    }

    /** The message is counted first; then it is stored in a stream with room for exactly that much. That the
        size changed in between is excluded: it fails only if it cannot be encoded or the whole does not fit. */
    method WriteSubmessage(fields: seq<Field>, cells: seq<Cell>) returns (ok: bool)
      requires Valid() && |cells| == |fields| && TypedFields(fields, cells)
      modifies this
      ensures Valid()
      ensures Sent(sizing, maxSize, old(Now()), Now(), Delimited(EncodeFields(fields, cells, 0)), ok)
      decreases fields, 2
    {
      ghost var e := EncodeFields(fields, cells, 0);
      var counter := new OStream.Sizing();
      var status := counter.WriteMessage(fields, cells);
      if !status {
        return false;
      }
      var size := counter.bytesWritten;
      status := WriteVarint(size);
      if !status {
        SentNot(sizing, maxSize, old(Now()), Now(), Some(EncodeVarint(size)), e);
        return false;
      }
      ghost var mid := Now();
      if sizing {
        ok := Write([], size);
        return;
      }
      if bytesWritten + size > maxSize {
        return false;
      }
      var substream := new OStream.Storing(state, size);
      status := substream.WriteMessage(fields, cells);
      bytesWritten := bytesWritten + substream.bytesWritten;
      state := substream.state;
      if substream.bytesWritten != size {
        return false;
      }
      SentThen(sizing, maxSize, old(Now()), mid, Now(), EncodeVarint(size), e, status);
      ok := status;
    }

    method WriteValue(f: Field, v: Value) returns (ok: bool)
      requires Valid() && Typed(f, v)
      modifies this
      ensures Valid() && Sent(sizing, maxSize, old(Now()), Now(), EncodeValue(f, v), ok)
      decreases f, 0
    {
      if f.ltype.Submessage? {
        ok := WriteSubmessage(f.ltype.sub, v.cells);
      } else {
        ok := WriteScalar(f, v);
      }
    }

    method WriteTagged(f: Field, v: Value) returns (ok: bool)
      requires Valid() && Typed(f, v)
      modifies this
      ensures Valid() && Sent(sizing, maxSize, old(Now()), Now(), EncodeTagged(f, v), ok)
      decreases f, 1
    {
      ghost var tag := EncodeTag(f.tag, WireType(f.ltype));
      ok := WriteTagForField(f);
      if !ok {
        SentNot(sizing, maxSize, old(Now()), Now(), Some(tag), EncodeValue(f, v));
        return;
      }
      ghost var mid := Now();
      ok := WriteValue(f, v);
      SentThen(sizing, maxSize, old(Now()), mid, Now(), tag, EncodeValue(f, v), ok);
    }

    /** Entries one after the other. */
    method WriteItems(f: Field, items: seq<Value>) returns (ok: bool)
      requires Valid() && Packable(f.ltype) && forall v <- items :: Typed(f, v)
      modifies this
      ensures Valid() && Sent(sizing, maxSize, old(Now()), Now(), EncodePacked(f, items), ok)
    {
      var i := 0;
      ghost var p: seq<Byte> := [];
      JoinEmpty(EncodePacked(f, items));
      assert items[0..] == items;
      while i < |items|
        invariant i <= |items| && Valid()
        invariant Sent(sizing, maxSize, old(Now()), Now(), Some(p), true) == true
        invariant EncodePacked(f, items) == Join(Some(p), EncodePacked(f, items[i..]))
      {
        ghost var mid := Now();
        ghost var e, rest := EncodeScalar(f, items[i]), EncodePacked(f, items[i + 1..]);
        assert items[i..][1..] == items[i + 1..];
        JoinTwice(Some(p), e, rest);
        ok := WriteScalar(f, items[i]);
        SentThen(sizing, maxSize, old(Now()), mid, Now(), p, e, ok);
        if !ok {
          SentNot(sizing, maxSize, old(Now()), Now(), Join(Some(p), e), rest);
          return;
        }
        p := p + e.value;
        i := i + 1;
      }
      ok := true;
    }

    /** `encode_array`, when the entries are packed. */
    method WritePacked(f: Field, items: seq<Value>) returns (ok: bool)
      requires Valid() && Packable(f.ltype) && forall v <- items :: Typed(f, v)
      modifies this
      ensures Valid() && Sent(sizing, maxSize, old(Now()), Now(), PackedField(f, items), ok)
    {
      ghost var tag, e := EncodeTag(f.tag, WT_STRING), EncodePacked(f, items);
      ok := WriteTag(WT_STRING, f.tag);
      if !ok {
        SentNot(sizing, maxSize, old(Now()), Now(), Some(tag), Delimited(e));
        return;
      }
      ghost var mid := Now();
      var size: nat;
      if f.ltype.Fixed32? {
        size := 4 * |items|;
        FixedSize(f, items, 4);
      } else if f.ltype.Fixed64? {
        size := 8 * |items|;
        FixedSize(f, items, 8);
      } else {
        var counter := new OStream.Sizing();
        ok := counter.WriteItems(f, items);
        if !ok {
          return;
        }
        size := counter.bytesWritten;
      }
      ok := WriteVarint(size);
      if !ok {
        SentNot(sizing, maxSize, mid, Now(), Some(EncodeVarint(size)), e);
        SentThen(sizing, maxSize, old(Now()), mid, Now(), tag, Delimited(e), ok);
        return;
      }
      ghost var mid1 := Now();
      if sizing {
        ok := Write([], size);
      } else {
        ok := WriteItems(f, items);
        SentThen(sizing, maxSize, mid, mid1, Now(), EncodeVarint(size), e, ok);
        SentThen(sizing, maxSize, old(Now()), mid, Now(), tag, Delimited(e), ok);
      }
    }

    method WriteArray(f: Field, items: seq<Value>) returns (ok: bool)
      requires Valid() && forall v <- items :: Typed(f, v)
      modifies this
      ensures Valid() && Sent(sizing, maxSize, old(Now()), Now(), EncodeArray(f, items), ok)
      decreases f, 3
    {
      if |items| == 0 {
        return true;
      }
      if |items| > f.arraySize {
        return false;
      }
      if Packable(f.ltype) {
        ok := WritePacked(f, items);
        return;
      }
      var i := 0;
      ghost var p: seq<Byte> := [];
      JoinEmpty(EncodeUnpacked(f, items));
      assert items[0..] == items;
      while i < |items|
        invariant i <= |items| && Valid()
        invariant Sent(sizing, maxSize, old(Now()), Now(), Some(p), true) == true
        invariant EncodeUnpacked(f, items) == Join(Some(p), EncodeUnpacked(f, items[i..]))
      {
        ghost var mid := Now();
        ghost var e, rest := EncodeTagged(f, items[i]), EncodeUnpacked(f, items[i + 1..]);
        assert items[i..][1..] == items[i + 1..];
        JoinTwice(Some(p), e, rest);
        ok := WriteTagged(f, items[i]);
        SentThen(sizing, maxSize, old(Now()), mid, Now(), p, e, ok);
        if !ok {
          SentNot(sizing, maxSize, old(Now()), Now(), Join(Some(p), e), rest);
          return;
        }
        p := p + e.value;
        i := i + 1;
      }
      ok := true;
    }

    /** `encode_basic_field`. */
    method WriteCell(f: Field, c: Cell) returns (ok: bool)
      requires Valid() && TypedCell(f, c)
      modifies this
      ensures Valid() && Sent(sizing, maxSize, old(Now()), Now(), EncodeCell(f, c), ok)
      decreases f, 4
    {
      match f.htype
      case Required =>
        ok := WriteTagged(f, c.value);
      case Optional(flagged) =>
        var has := if flagged then c.has else !IsDefault(f, c);
        if has {
          ok := WriteTagged(f, c.value);
        } else {
          ok := true;
        }
      case Repeated(_) =>
        ok := WriteArray(f, c.items);
      case OneOf(_) =>
        if c.which == f.tag {
          ok := WriteTagged(f, c.value);
        } else {
          ok := true;
        }
    }

    /** `pb_encode`: the same bytes whether they are counted or stored. */
    method WriteMessage(fields: seq<Field>, cells: seq<Cell>) returns (ok: bool)
      requires Valid() && |cells| == |fields| && TypedFields(fields, cells)
      modifies this
      ensures Valid() && Sent(sizing, maxSize, old(Now()), Now(), EncodeFields(fields, cells, 0), ok)
      decreases fields, 1
    {
      if fields == [] {
        return true;
      }
      var iter := new FieldIter(fields);
      ghost var p: seq<Byte> := [];
      var more := true;
      JoinEmpty(EncodeFields(fields, cells, 0));
      while more
        invariant iter.Valid() && iter.fields == fields && fresh(iter) && Valid()
        invariant Sent(sizing, maxSize, old(Now()), Now(), Some(p), true) == true
        invariant EncodeFields(fields, cells, 0) ==
          Join(Some(p), EncodeFields(fields, cells, if more then iter.pos else |fields|))
        decreases more, |fields| - iter.pos
      {
        ghost var mid, i := Now(), iter.pos;
        ghost var e, rest := EncodeCell(fields[i], cells[iter.home]), EncodeFields(fields, cells, i + 1);
        FieldsFrom(fields, cells, i, p);
        ok := WriteCell(fields[iter.pos], cells[iter.home]);
        SentThen(sizing, maxSize, old(Now()), mid, Now(), p, e, ok);
        if !ok {
          SentNot(sizing, maxSize, old(Now()), Now(), Join(Some(p), e), rest);
          return;
        }
        p := p + e.value;
        more := iter.Next();
      }
      ok := true;
    }
  }

  /** `pb_get_encoded_size`. */
  method GetEncodedSize(fields: seq<Field>, cells: seq<Cell>) returns (ok: bool, size: nat)
    requires |cells| == |fields| && TypedFields(fields, cells)
    ensures ok <==> EncodeFields(fields, cells, 0).Some?
    ensures ok ==> size == |EncodeFields(fields, cells, 0).value|
  {
    var stream := new OStream.Sizing();
    ok := stream.WriteMessage(fields, cells);
    size := stream.bytesWritten;
  }
}
