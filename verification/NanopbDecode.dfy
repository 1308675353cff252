/** Decoding a message by its descriptor table (nanopb pb_decode.c). */
module NanopbDecode {
  import opened Options
  import opened Coding
  import opened NanopbFields
  import opened NanopbWire

  // ---- What a stream of bytes decodes to ----

  /** A value other than a submessage. */
  function DecodeScalar(f: Field, s: seq<Byte>): (r: Got<Value>)
    ensures r.Got? ==> |r.rest| < |s|
  {
    match f.ltype
    case Bool =>
      (match ReadVarint32(s)
       case Missing => Missing
       case Got(n, rest) => Got(Int(if n != 0 then 1 else 0), rest))
    case VarInt =>
      (match GetVarint64(s)
       case Missing => Missing
       case Got(n, rest) => Narrowed(CastSigned(n, if f.dataSize == 8 then 8 else 4), f.dataSize, rest))
    case UVarInt =>
      (match GetVarint64(s)
       case Missing => Missing
       case Got(n, rest) => if ValidSize(f.dataSize) && n < Modulus(f.dataSize) then Got(Int(n), rest) else Missing)
    case SVarInt =>
      (match GetVarint64(s)
       case Missing => Missing
       case Got(n, rest) => Narrowed(Unzigzag(n), f.dataSize, rest))
    case Fixed32 => if |s| < 4 then Missing else Got(Int(DecodeFixed32(s)), s[4..])
    case Fixed64 => if |s| < 8 then Missing else Got(Int(DecodeFixed64(s)), s[8..])
    case Bytes =>
      (match TakeString(s)
       case Missing => Missing
       case Got(b, rest) => if |b| + BYTES_OFFSET > f.dataSize then Missing else Got(Blob(b), rest))
    case Text =>
      (match TakeString(s)
       case Missing => Missing
       case Got(b, rest) => if |b| + 1 > f.dataSize then Missing else Got(Blob(b + [0]), rest))
    case FixedLength =>
      (match TakeString(s)
       case Missing => Missing
       case Got(b, rest) =>
         if b == [] then Got(Blob(Zeros(f.dataSize)), rest)
         else if |b| != f.dataSize then Missing
         else Got(Blob(b), rest))
    case Submessage(_) => Missing
  }

  /** Stored in `size` bytes, provided that does not change it. */
  function Narrowed(n: int, size: nat, rest: seq<Byte>): (r: Got<Value>)
    ensures r.Got? ==> r.rest == rest
  {
    if ValidSize(size) && CastSigned(n, size) == n then Got(Int(n), rest) else Missing
  }

  /** The cells of the submessage that is decoded into. */
  function SubCells(sub: seq<Field>, prior: Value): (r: seq<Cell>)
    ensures |r| == |sub|
  {
    if prior.Struct? && |prior.cells| == |sub| then prior.cells else Defaults(sub)
  }

  /** A value is decoded over the old one: submessages are merged. */
  function DecodeValue(f: Field, prior: Value, s: seq<Byte>): (r: Got<Value>)
    ensures r.Got? ==> |r.rest| < |s|
    decreases |s|, 0
  {
    match f.ltype
    case Submessage(sub) =>
      (match TakeString(s)
       case Missing => Missing
       case Got(payload, rest) =>
         match DecodeMessage(sub, SubCells(sub, prior), payload)
         case Missing => Missing
         case Got(cells, _) => Got(Struct(cells), rest))
    case _ => DecodeScalar(f, s)
  }

  /** Entries of an array, and how many of them have been decoded. */
  datatype Array = Array(items: seq<Value>, count: nat)

  /** Entry `count` is written; the entries after it hold nothing that was decoded. */
  function Put(a: Array, v: Value): Array {
    Array((if a.count <= |a.items| then a.items[..a.count] else a.items) + [v], a.count + 1)
  }

  /** As many values as there are, while there is room. */
  function DecodePacked(f: Field, a: Array, s: seq<Byte>): (r: Option<Array>)
    decreases |s|
  {
    if s == [] then Some(a)
    else if a.count >= f.arraySize then None
    else
      match DecodeScalar(f, s)
      case Missing => None
      case Got(v, rest) => DecodePacked(f, Put(a, v), rest)
  }

  function DecodeArray(f: Field, wireType: nat, a: Array, s: seq<Byte>): (r: Got<Array>)
    ensures r.Got? ==> |r.rest| < |s|
    decreases |s|, 1
  {
    if wireType == WT_STRING && Packable(f.ltype) then
      match TakeString(s)
      case Missing => Missing
      case Got(payload, rest) =>
        match DecodePacked(f, a, payload)
        case None => Missing
        case Some(a') => Got(a', rest)
    else if a.count >= f.arraySize then Missing
    else
      match DecodeValue(f, Int(0), s)
      case Missing => Missing
      case Got(v, rest) => Got(Put(a, v), rest)
  }

  function ValueOf(c: Cell): Value {
    if c.Many? then Int(0) else c.value
  }

  /** A cell, and for an array how many of its entries have been decoded. */
  datatype Decoded = Decoded(cell: Cell, count: nat)

  function DecodeCell(f: Field, wireType: nat, c: Cell, count: nat, s: seq<Byte>): (r: Got<Decoded>)
    ensures r.Got? ==> |r.rest| < |s|
    decreases |s|, 2
  {
    match f.htype
    case Repeated(counted) =>
      (var items := if c.Many? then c.items else [];
       match DecodeArray(f, wireType, Array(items, if counted then |items| else count), s)
       case Missing => Missing
       case Got(a, rest) => Got(Decoded(Many(a.items), a.count), rest))
    case OneOf(_) =>
      (var prior := if c.Union? && c.which == f.tag then c.value else DefaultValue(f);
       match DecodeValue(f, prior, s)
       case Missing => Missing
       case Got(v, rest) => Got(Decoded(Union(f.tag, v), count), rest))
    case _ =>
      match DecodeValue(f, ValueOf(c), s)
      case Missing => Missing
      case Got(v, rest) => Got(Decoded(if f.htype == Optional(true) then Opt(true, v) else One(v), count), rest)
  }

  /** The decoder's variables: the iterator's position, the structure, the required fields seen, and the full
      array being read with how many of its entries have come. */
  datatype DState = DState(pos: nat, cells: seq<Cell>, seen: set<nat>, fixed: Option<nat>, fixedCount: nat)

  predicate Fits(fields: seq<Field>, st: DState) {
    && |st.cells| == |fields|
    && (if fields == [] then st.pos == 0 else st.pos < |fields|)
    && (st.fixed.Some? ==> st.fixed.value < |fields|)
  }

  predicate FixedDone(fields: seq<Field>, st: DState)
    requires Fits(fields, st)
  {
    st.fixed.Some? ==> st.fixedCount == fields[st.fixed.value].arraySize
  }

  predicate IsFixedArray(f: Field) {
    f.htype == Repeated(false)
  }

  /** Turning to field `i`: another full array must be complete. */
  function Enter(fields: seq<Field>, st: DState, i: nat): (r: Option<DState>)
    requires Fits(fields, st) && i < |fields|
    ensures r.Some? ==> Fits(fields, r.value) && r.value.pos == i && r.value.cells == st.cells
  {
    var seen := if fields[i].htype.Required? && RequiredBefore(fields, i) < MAX_REQUIRED_FIELDS
                then st.seen + {RequiredBefore(fields, i)} else st.seen;
    if IsFixedArray(fields[i]) && st.fixed != Some(i) then
      if FixedDone(fields, st) then Some(st.(pos := i, seen := seen, fixed := Some(i), fixedCount := 0)) else None
    else Some(st.(pos := i, seen := seen))
  }

  /** What follows a tag. */
  function DecodeNext(fields: seq<Field>, st: DState, tag: nat, wireType: nat, s: seq<Byte>): (r: Got<DState>)
    requires Fits(fields, st)
    ensures r.Got? ==> |r.rest| <= |s| && Fits(fields, r.value)
    decreases |s|, 4
  {
    match Find(fields, st.pos, tag)
    case None =>
      if fields == [] && tag == 0 then
        // The entry that ends an empty table is found; it reads as a required bool.
        match ReadVarint32(s)
        case Missing => Missing
        case Got(_, rest) => Got(st, rest)
      else
        (match SkipField(s, wireType)
         case None => Missing
         case Some(rest) => Got(st, rest))
    case Some(i) =>
      match Enter(fields, st, i)
      case None => Missing
      case Some(st1) => DecodeAt(fields, st1, i, wireType, s)
  }

  function DecodeAt(fields: seq<Field>, st: DState, i: nat, wireType: nat, s: seq<Byte>): (r: Got<DState>)
    requires Fits(fields, st) && i < |fields|
    ensures r.Got? ==> |r.rest| < |s| && Fits(fields, r.value)
    decreases |s|, 3
  {
    var h := Home(fields, i);
    match DecodeCell(fields[i], wireType, st.cells[h], st.fixedCount, s)
    case Missing => Missing
    case Got(d, rest) =>
      Got(st.(cells := st.cells[h := d.cell],
              fixedCount := if IsFixedArray(fields[i]) then d.count else st.fixedCount), rest)
  }

  /** Fields until the bytes end or a zero tag comes. */
  function DecodeLoop(fields: seq<Field>, st: DState, s: seq<Byte>): (r: Got<DState>)
    requires Fits(fields, st)
    ensures r.Got? ==> |r.rest| <= |s| && Fits(fields, r.value)
    decreases |s|, 0
  {
    if s == [] then Got(st, [])
    else
      match ReadVarint32(s)
      case Missing => Missing
      case Got(t, rest) =>
        if t == 0 then Got(st, rest)
        else
          match DecodeNext(fields, st, t / 8, t % 8, rest)
          case Missing => Missing
          case Got(st', rest') => DecodeLoop(fields, st', rest')
  }

  function Start(cells: seq<Cell>): DState {
    DState(0, cells, {}, None, 0)
  }

  /** Only the first 64 required fields are looked for. */
  predicate RequiredSeen(fields: seq<Field>, seen: set<nat>) {
    forall k :: 0 <= k < RequiredBefore(fields, |fields|) && k < MAX_REQUIRED_FIELDS ==> k in seen
  }

  /** `pb_decode_noinit`; the rest is what follows a zero tag. */
  function DecodeMessage(fields: seq<Field>, cells: seq<Cell>, s: seq<Byte>): (r: Got<seq<Cell>>)
    requires |cells| == |fields|
    ensures r.Got? ==> |r.rest| <= |s| && |r.value| == |fields|
    decreases |s|, 1
  {
    match DecodeLoop(fields, Start(cells), s)
    case Missing => Missing
    case Got(st, rest) =>
      if FixedDone(fields, st) && RequiredSeen(fields, st.seen) then Got(st.cells, rest) else Missing
  }

  /** `pb_decode`. */
  function Decode(fields: seq<Field>, s: seq<Byte>): (r: Got<seq<Cell>>) {
    DecodeMessage(fields, Defaults(fields), s)
  }

  /** `result | digit << bitpos`, where `result` has no bits from there on. */
  function AddDigit(result: nat, b: Byte, i: nat): nat {
    result + b % 128 * Weight(i)
  }

  /** After `i` bytes of ten. */
  ghost predicate Resuming(whole: Got<nat>, result: nat, i: nat, s: seq<Byte>)
    requires i < 10
  {
    result < Weight(i) && Resumes(whole, result, Weight(i), GetVarint(s, 10 - i))
  }

  lemma ResumeDigit(whole: Got<nat>, result: nat, i: nat, s: seq<Byte>)
    requires i < 10 && Resuming(whole, result, i, s)
    ensures s == [] ==> whole.Missing?
    ensures s != [] && s[0] < 128 ==> whole == Got(AddDigit(result, s[0], i), s[1..])
    ensures s != [] && s[0] >= 128 && i < 9 ==> Resuming(whole, AddDigit(result, s[0], i), i + 1, s[1..])
    ensures s != [] && s[0] >= 128 && i == 9 ==> whole.Missing?
  {
    if s != [] {
      var w := Weight(i);
      ResumeByte(whole, result, w, s, 10 - i);
      if s[0] < 128 {
        assert s[0] % 128 == s[0];
      } else if i < 9 {
        var digit := s[0] - 128;
        assert s[0] % 128 == digit;
        DigitBelow(result, w, digit);
        assert Weight(i + 1) == 128 * w;
      } else {
        assert GetVarint(s[1..], 0) == Missing;
      }
    }
  }

  // ---- Streams ----

  /** `pb_istream_t` over a buffer. */
  class IStream {
    const memory: seq<Byte>
    var pos: nat
    var bytesLeft: nat

    ghost predicate Valid()
      reads this
    {
      pos + bytesLeft <= |memory|
    }

    ghost function Rest(): seq<Byte>
      reads this
      requires Valid()
    {
      memory[pos..pos + bytesLeft]
    }

    /** Where the stream ends; reading does not move it. */
    ghost function End(): nat
      reads this
    {
      pos + bytesLeft
    }

    constructor (memory: seq<Byte>, pos: nat, bytesLeft: nat)
      requires pos + bytesLeft <= |memory|
      ensures Valid() && this.memory == memory && this.pos == pos && this.bytesLeft == bytesLeft
    {
      this.memory, this.pos, this.bytesLeft := memory, pos, bytesLeft;
    }

    method ReadByte() returns (ok: bool, b: Byte)
      requires Valid()
      modifies this
      ensures Valid() && End() == old(End())
      ensures ok <==> old(Rest()) != []
      ensures ok ==> b == old(Rest())[0] && Rest() == old(Rest())[1..] && bytesLeft == old(bytesLeft) - 1
      ensures !ok ==> bytesLeft == 0
    {
      b := 0;
      if bytesLeft == 0 {
        return false, 0;
      }
      b := memory[pos];
      pos, bytesLeft := pos + 1, bytesLeft - 1;
      ok := true;
    }

    /** `pb_read`; `buf` is what is copied, if anyone wants it. */
    method Read(count: nat) returns (ok: bool, buf: seq<Byte>)
      requires Valid()
      modifies this
      ensures Valid() && End() == old(End())
      ensures ok <==> count <= |old(Rest())|
      ensures ok ==> buf == old(Rest())[..count] && Rest() == old(Rest())[count..]
    {
      if count == 0 {
        return true, [];
      }
      if bytesLeft < count {
        return false, [];
      }
      buf := memory[pos..pos + count];
      pos, bytesLeft := pos + count, bytesLeft - count;
      ok := true;
    }

    method ReadVarint32Loop() returns (ok: bool, v: Word)
      requires Valid()
      modifies this
      ensures Valid() && End() == old(End())
      ensures ok == ReadVarint32(old(Rest())).Got?
      ensures ok ==> ReadVarint32(old(Rest())) == Got(v, Rest())
    {
      var b: Byte;
      v := 0;
      ok, b := ReadByte();
      if !ok {
        return;
      }
      if b < 128 {
        v := b;
        return;
      }
      var bitpos: nat, result: Word := 7, b - 128;
      while true
        invariant Valid() && End() == old(End())
        invariant ReadVarint32(old(Rest())) == Varint32More(Rest(), result, bitpos)
        decreases bytesLeft
      {
        ok, b := ReadByte();
        if !ok {
          return;
        }
        if bitpos >= 32 {
          if BadExtension(b, result, bitpos) {
            return false, 0;
          }
        } else {
          result := OrBits(result, b % 128, bitpos);
        }
        bitpos := bitpos + 7;
        if b < 128 {
          break;
        }
      }
      if bitpos == 35 && b / 16 != 0 {
        return false, 0;
      }
      ok, v := true, result;
    }

    /** Ten bytes at most; a bit that does not fit in 64 is dropped. */
    method ReadVarint64Loop() returns (ok: bool, v: Word64)
      requires Valid()
      modifies this
      ensures Valid() && End() == old(End())
      ensures ok == GetVarint64(old(Rest())).Got?
      ensures ok ==> GetVarint64(old(Rest())) == Got(v, Rest())
    {
      ghost var whole := GetVarint(Rest(), 10);
      var i: nat, result: nat := 0, 0;
      v := 0;
      while i < 10
        invariant i <= 10 && Valid() && End() == old(End())
        invariant i < 10 ==> Resuming(whole, result, i, Rest()) == true
        invariant i == 10 ==> whole.Missing?
      {
        ghost var before := Rest();
        var b: Byte;
        ok, b := ReadByte();
        if !ok {
          return;
        }
        ResumeDigit(whole, result, i, before);
        result := AddDigit(result, b, i);
        if b < 128 {
          return true, result % TWO_64;
        }
        i := i + 1;
      }
      ok := false;
    }

    method SkipVarintLoop() returns (ok: bool)
      requires Valid()
      modifies this
      ensures Valid() && End() == old(End())
      ensures ok == SkipVarint(old(Rest())).Some?
      ensures ok ==> SkipVarint(old(Rest())) == Some(Rest())
    {
      while true
        invariant Valid() && End() == old(End())
        invariant SkipVarint(old(Rest())) == SkipVarint(Rest())
        decreases bytesLeft
      {
        var b: Byte;
        ok, b := ReadByte();
        if !ok || b < 128 {
          return;
        }
      }
    }

    method SkipFieldOf(wireType: nat) returns (ok: bool)
      requires Valid()
      modifies this
      ensures Valid() && End() == old(End())
      ensures ok == SkipField(old(Rest()), wireType).Some?
      ensures ok ==> SkipField(old(Rest()), wireType) == Some(Rest())
    {
      ghost var s := Rest();
      var buf: seq<Byte>;
      if wireType == WT_VARINT {
        ok := SkipVarintLoop();
      } else if wireType == WT_64BIT {
        ok, buf := Read(8);
      } else if wireType == WT_STRING {
        var length: Word;
        ok, length := ReadVarint32Loop();
        if ok {
          ok, buf := Read(length);
        }
      } else if wireType == WT_32BIT {
        ok, buf := Read(4);
      } else {
        ok := false;
      }
    }

    /** A stream over the string that follows; this one is left to continue after it. */
    method MakeSubstream() returns (ok: bool, substream: IStream)
      requires Valid()
      modifies this
      ensures Valid() && fresh(substream) && substream.Valid() && substream.memory == memory
      ensures ok == TakeString(old(Rest())).Got?
      ensures ok ==> substream.Rest() == TakeString(old(Rest())).value && substream.End() + bytesLeft == old(End())
      ensures ok ==> bytesLeft + substream.bytesLeft < old(bytesLeft)
      ensures ok ==> memory[substream.End()..substream.End() + bytesLeft] == TakeString(old(Rest())).rest
      ensures End() <= old(End())
    {
      var size: Word;
      ok, size := ReadVarint32Loop();
      substream := new IStream(memory, pos, bytesLeft);
      if !ok {
        return;
      }
      if substream.bytesLeft < size {
        return false, substream;
      }
      ghost var rest := Rest();
      substream.bytesLeft := size;
      bytesLeft := bytesLeft - size;
      assert substream.Rest() == rest[..size];
      assert memory[substream.End()..substream.End() + bytesLeft] == rest[size..];
    }

    /** What was not read of the substream is skipped. */
    method CloseSubstream(substream: IStream) returns (ok: bool)
      requires Valid() && substream.Valid() && substream != this && substream.memory == memory
      requires substream.End() + bytesLeft <= |memory|
      modifies this, substream
      ensures ok && Valid() && pos == old(substream.End()) && bytesLeft == old(bytesLeft)
    {
      if substream.bytesLeft > 0 {
        var buf: seq<Byte>;
        ok, buf := substream.Read(substream.bytesLeft);
        if !ok {
          return;
        }
      }
      pos := substream.pos;
      ok := true;
    }

    // ---- Field decoders ----

    /** A length and the string. */
    method ReadString() returns (ok: bool, b: seq<Byte>)
      requires Valid()
      modifies this
      ensures Valid() && End() == old(End())
      ensures ok == TakeString(old(Rest())).Got?
      ensures ok ==> TakeString(old(Rest())) == Got(b, Rest())
    {
      var size: Word;
      b := [];
      ok, size := ReadVarint32Loop();
      if ok {
        ok, b := Read(size);
      }
    }

    method ReadInteger(f: Field) returns (ok: bool, v: Value)
      requires Valid() && (f.ltype.Bool? || f.ltype.VarInt? || f.ltype.UVarInt? || f.ltype.SVarInt?)
      modifies this
      ensures Valid() && End() == old(End())
      ensures ok == DecodeScalar(f, old(Rest())).Got?
      ensures ok ==> DecodeScalar(f, old(Rest())) == Got(v, Rest())
    {
      v := Int(0);
      if f.ltype.Bool? {
        var w: Word;
        ok, w := ReadVarint32Loop();
        v := Int(if w != 0 then 1 else 0);
        return;
      }
      var n: Word64;
      ok, n := ReadVarint64Loop();
      if !ok {
        return;
      }
      if !ValidSize(f.dataSize) {
        return false, v;
      }
      if f.ltype.UVarInt? {
        ok, v := n < Modulus(f.dataSize), Int(n);
      } else {
        var svalue := if f.ltype.VarInt? then CastSigned(n, if f.dataSize == 8 then 8 else 4) else Unzigzag(n);
        var clamped := CastSigned(svalue, f.dataSize);
        ok, v := clamped == svalue, Int(clamped);
      }
    }

    method ReadScalar(f: Field) returns (ok: bool, v: Value)
      requires Valid() && !f.ltype.Submessage?
      modifies this
      ensures Valid() && End() == old(End())
      ensures ok == DecodeScalar(f, old(Rest())).Got?
      ensures ok ==> DecodeScalar(f, old(Rest())) == Got(v, Rest())
    {
      v := Int(0);
      var b: seq<Byte>;
      if f.ltype.Fixed32? {
        ok, b := Read(4);
        if ok {
          Fixed32Prefix(old(Rest()));
          v := Int(DecodeFixed32(b));
        }
      } else if f.ltype.Fixed64? {
        ok, b := Read(8);
        if ok {
          Fixed64Prefix(old(Rest()));
          v := Int(DecodeFixed64(b));
        }
      } else if f.ltype.Bytes? {
        ok, b := ReadString();
        ok, v := ok && |b| + BYTES_OFFSET <= f.dataSize, Blob(b);
      } else if f.ltype.Text? {
        ok, b := ReadString();
        ok, v := ok && |b| + 1 <= f.dataSize, Blob(b + [0]);
      } else if f.ltype.FixedLength? {
        ok, b := ReadString();
        if ok && b == [] {
          v := Blob(Zeros(f.dataSize));
        } else {
          ok, v := ok && |b| == f.dataSize, Blob(b);
        }
      } else {
        ok, v := ReadInteger(f);
      }
    }

    /** `pb_dec_submessage`, into the cells given. */
    method ReadSubmessage(fields: seq<Field>, cells: seq<Cell>) returns (ok: bool, cells': seq<Cell>)
      requires Valid() && |cells| == |fields|
      modifies this
      ensures Valid() && End() <= old(End()) && (ok ==> End() == old(End()))
      ensures var r := TakeString(old(Rest()));
        && ok == (r.Got? && DecodeMessage(fields, cells, r.value).Got?)
        && (ok ==> cells' == DecodeMessage(fields, cells, r.value).value && Rest() == r.rest)
      decreases bytesLeft, 1
    {
      var substream: IStream;
      cells' := cells;
      ok, substream := MakeSubstream();
      if !ok {
        return;
      }
      var status: bool;
      status, cells' := substream.ReadMessage(fields, cells);
      ok := CloseSubstream(substream);
      ok := ok && status;
    }

    method ReadValue(f: Field, prior: Value) returns (ok: bool, v: Value)
      requires Valid()
      modifies this
      ensures Valid() && End() <= old(End()) && (ok ==> End() == old(End()))
      ensures ok == DecodeValue(f, prior, old(Rest())).Got?
      ensures ok ==> DecodeValue(f, prior, old(Rest())) == Got(v, Rest())
      decreases bytesLeft, 2
    {
      if f.ltype.Submessage? {
        var cells: seq<Cell>;
        ok, cells := ReadSubmessage(f.ltype.sub, SubCells(f.ltype.sub, prior));
        v := Struct(cells);
      } else {
        ok, v := ReadScalar(f);
      }
    }

    /** The packed branch of `decode_static_field`. */
    method ReadPacked(f: Field, a: Array) returns (ok: bool, a': Array)
      requires Valid() && Packable(f.ltype)
      modifies this
      ensures Valid() && End() <= old(End()) && (ok ==> End() == old(End()))
      ensures var r := TakeString(old(Rest()));
        && ok == (r.Got? && DecodePacked(f, a, r.value).Some?)
        && (ok ==> a' == DecodePacked(f, a, r.value).value && Rest() == r.rest)
    {
      var substream: IStream;
      a' := a;
      ok, substream := MakeSubstream();
      if !ok {
        return;
      }
      ghost var s, end := substream.Rest(), substream.End();
      var status := true;
      while substream.bytesLeft > 0 && a'.count < f.arraySize
        invariant substream.Valid() && substream.End() == end
        invariant DecodePacked(f, a, s) == DecodePacked(f, a', substream.Rest())
        invariant status
        modifies substream
        decreases substream.bytesLeft
      {
        ghost var before := substream.Rest();
        var v: Value;
        status, v := substream.ReadScalar(f);
        if !status {
          assert before != [] && DecodePacked(f, a', before) == None;
          break;
        }
        a' := Put(a', v);
      }
      if substream.bytesLeft > 0 {
        return false, a';
      }
      ok := CloseSubstream(substream);
      ok := ok && status;
    }

    /** `pb_decode_tag`; `eof` says that the message ends here. */
    method ReadTag() returns (ok: bool, eof: bool, tag: nat, wireType: nat)
      requires Valid() && bytesLeft > 0
      modifies this
      ensures Valid() && End() == old(End())
      ensures var r := ReadVarint32(old(Rest()));
        && (ok || eof) == r.Got?
        && (eof ==> !ok && r == Got(0, Rest()))
        && (ok ==> r == Got(8 * tag + wireType, Rest()) && r.value != 0 && wireType < 8 && bytesLeft < old(bytesLeft))
    {
      var t: Word;
      ok, t := ReadVarint32Loop();
      eof, tag, wireType := false, t / 8, t % 8;
      if ok && t == 0 {
        ok, eof := false, true;
      }
    }

    /** `decode_static_field`: `count` is how many entries of the full array being read have come. */
    method ReadCell(f: Field, wireType: nat, c: Cell, count: nat) returns (ok: bool, d: Cell, count': nat)
      requires Valid()
      modifies this
      ensures Valid() && End() <= old(End()) && (ok ==> End() == old(End()))
      ensures ok == DecodeCell(f, wireType, c, count, old(Rest())).Got?
      ensures ok ==> DecodeCell(f, wireType, c, count, old(Rest())) == Got(Decoded(d, count'), Rest())
      decreases bytesLeft, 3
    {
      var v: Value;
      d, count' := c, count;
      match f.htype
      case Repeated(counted) =>
        var items := if c.Many? then c.items else [];
        var a := Array(items, if counted then |items| else count);
        if wireType == WT_STRING && Packable(f.ltype) {
          ok, a := ReadPacked(f, a);
        } else if a.count >= f.arraySize {
          return false, c, count;
        } else {
          ok, v := ReadValue(f, Int(0));
          a := Put(a, v);
        }
        d, count' := Many(a.items), a.count;
      case OneOf(_) =>
        ok, v := ReadValue(f, if c.Union? && c.which == f.tag then c.value else DefaultValue(f));
        d := Union(f.tag, v);
      case _ =>
        ok, v := ReadValue(f, ValueOf(c));
        d := if f.htype == Optional(true) then Opt(true, v) else One(v);
    }

    /** A field of the table, after its tag: the part of the loop of `pb_decode_noinit` that finds it, keeps
        track of full arrays and required fields, and decodes it. `st` is the state all this stands for. */
    method ReadField(iter: FieldIter, seen: array<bool>, cells: seq<Cell>, fixedField: Option<nat>, fixedCount: nat,
                     wireType: nat, ghost st: DState)
      returns (ok: bool, cells': seq<Cell>, fixedField': Option<nat>, fixedCount': nat, ghost st': DState)
      requires Valid() && iter.Valid() && iter.fields != [] && seen.Length == MAX_REQUIRED_FIELDS
      requires Fits(iter.fields, st) && Mirrors(st, cells, fixedField, fixedCount) && SeenIs(seen[..], st.seen)
      modifies this, seen
      ensures Valid() && End() <= old(End()) && (ok ==> End() == old(End()))
      ensures ok == Entered(iter.fields, st, iter.pos, wireType, old(Rest())).Got?
      ensures ok ==> Entered(iter.fields, st, iter.pos, wireType, old(Rest())) == Got(st', Rest())
      ensures ok ==> st'.pos == iter.pos && Mirrors(st', cells', fixedField', fixedCount') && SeenIs(seen[..], st'.seen)
      decreases bytesLeft, 4
    {
      var f := iter.fields[iter.pos];
      cells', fixedField', fixedCount', st' := cells, fixedField, fixedCount, st;
      if IsFixedArray(f) && fixedField != Some(iter.pos) {
        if fixedField.Some? && fixedCount != iter.fields[fixedField.value].arraySize {
          return false, cells, fixedField, fixedCount, st;
        }
        fixedField', fixedCount' := Some(iter.pos), 0;
      }
      if f.htype.Required? && iter.requiredIndex < MAX_REQUIRED_FIELDS {
        seen[iter.requiredIndex] := true;
      }
      ghost var st1 := Enter(iter.fields, st, iter.pos).value;
      assert SeenIs(seen[..], st1.seen);
      var d: Cell, count: nat;
      ok, d, count := ReadCell(f, wireType, cells[iter.home], fixedCount');
      if ok {
        cells' := cells[iter.home := d];
        if IsFixedArray(f) {
          fixedCount' := count;
        }
        st' := st1.(cells := cells', fixedCount := fixedCount');
      }
    }

    /** What follows a tag: a field of the table, or one to skip. */
    method ReadNext(iter: FieldIter, seen: array<bool>, cells: seq<Cell>, fixedField: Option<nat>, fixedCount: nat,
                    tag: nat, wireType: nat, ghost st: DState)
      returns (ok: bool, cells': seq<Cell>, fixedField': Option<nat>, fixedCount': nat, ghost st': DState)
      requires Valid() && iter.Valid() && seen.Length == MAX_REQUIRED_FIELDS
      requires Fits(iter.fields, st) && st.pos == iter.pos && Mirrors(st, cells, fixedField, fixedCount)
      requires SeenIs(seen[..], st.seen)
      modifies this, iter, seen
      ensures Valid() && End() <= old(End()) && (ok ==> End() == old(End())) && iter.Valid()
      ensures ok == DecodeNext(iter.fields, st, tag, wireType, old(Rest())).Got?
      ensures ok ==> DecodeNext(iter.fields, st, tag, wireType, old(Rest())) == Got(st', Rest())
      ensures ok ==> st'.pos == iter.pos && Mirrors(st', cells', fixedField', fixedCount') && SeenIs(seen[..], st'.seen)
      decreases bytesLeft, 5
    {
      cells', fixedField', fixedCount', st' := cells, fixedField, fixedCount, st;
      var found := iter.Seek(tag);
      if !found {
        ok := SkipFieldOf(wireType);
      } else if iter.fields == [] {
        var filler: Word;
        ok, filler := ReadVarint32Loop();
      } else {
        EnterAnywhere(iter.fields, st, iter.pos);
        ok, cells', fixedField', fixedCount', st' :=
          ReadField(iter, seen, cells, fixedField, fixedCount, wireType, st.(pos := iter.pos));
      }
    }

    /** Every required field among the first 64 has been seen. */
    static method CheckRequired(fields: seq<Field>, seen: array<bool>) returns (ok: bool)
      requires seen.Length == MAX_REQUIRED_FIELDS
      ensures ok <==> AllRequired(fields, seen[..])
    {
      if fields == [] {
        return true;
      }
      var iter := new FieldIter(fields);
      var count := 0;
      var more := true;
      while more
        invariant iter.Valid() && iter.fields == fields && fresh(iter)
        invariant !more ==> count == RequiredBefore(fields, |fields|)
        decreases more, |fields| - iter.pos
      {
        count := iter.requiredIndex + (if fields[iter.pos].htype.Required? then 1 else 0);
        more := iter.Next();
      }
      if count > MAX_REQUIRED_FIELDS {
        count := MAX_REQUIRED_FIELDS;
      }
      for i := 0 to count
        invariant forall k :: 0 <= k < i ==> seen[k]
      {
        if !seen[i] {
          return false;
        }
      }
      ok := true;
    }

    /** `pb_decode_noinit`. */
    method ReadMessage(fields: seq<Field>, cells: seq<Cell>) returns (ok: bool, cells': seq<Cell>)
      requires Valid() && |cells| == |fields|
      modifies this
      ensures Valid() && End() <= old(End()) && (ok ==> End() == old(End()))
      ensures ok == DecodeMessage(fields, cells, old(Rest())).Got?
      ensures ok ==> DecodeMessage(fields, cells, old(Rest())) == Got(cells', Rest())
      decreases bytesLeft, 6
    {
      cells' := cells;
      var seen := new bool[MAX_REQUIRED_FIELDS](_ => false);
      var fixedField: Option<nat>, fixedCount: nat := None, 0;
      var iter := new FieldIter(fields);
      ghost var s, st := Rest(), Start(cells);
      while bytesLeft > 0
        invariant Valid() && End() == old(End()) && bytesLeft <= old(bytesLeft)
        invariant iter.Valid() && iter.fields == fields && fresh(iter) && fresh(seen) && seen.Length == MAX_REQUIRED_FIELDS
        invariant Fits(fields, st) && st.pos == iter.pos && Mirrors(st, cells', fixedField, fixedCount) == true
        invariant SeenIs(seen[..], st.seen) == true
        invariant DecodeLoop(fields, Start(cells), s) == DecodeLoop(fields, st, Rest())
        decreases bytesLeft
      {
        ghost var before := Rest();
        var eof: bool, tag: nat, wireType: nat;
        ok, eof, tag, wireType := ReadTag();
        if !ok {
          if eof {
            break;
          }
          return;
        }
        LoopTurn(fields, st, before, tag, wireType, Rest());
        ok, cells', fixedField, fixedCount, st :=
          ReadNext(iter, seen, cells', fixedField, fixedCount, tag, wireType, st);
        if !ok {
          return;
        }
      }
      if fixedField.Some? && fixedCount != fields[fixedField.value].arraySize {
        return false, cells';
      }
      ok := CheckRequired(fields, seen);
      RequiredBits(fields, seen[..], st.seen);
    }

    /** `pb_decode`. */
    method ReadFresh(fields: seq<Field>) returns (ok: bool, cells: seq<Cell>)
      requires Valid()
      modifies this
      ensures Valid() && ok == Decode(fields, old(Rest())).Got?
      ensures ok ==> Decode(fields, old(Rest())) == Got(cells, Rest())
    {
      ok, cells := ReadMessage(fields, Defaults(fields));
    }
  }

  /** The decoder's variables stand for `st`. */
  ghost predicate Mirrors(st: DState, cells: seq<Cell>, fixedField: Option<nat>, fixedCount: nat) {
    st.cells == cells && st.fixed == fixedField && st.fixedCount == fixedCount
  }

  /** Field `i` is turned to and decoded. */
  function Entered(fields: seq<Field>, st: DState, i: nat, wireType: nat, s: seq<Byte>): Got<DState>
    requires Fits(fields, st) && i < |fields|
  {
    match Enter(fields, st, i)
    case None => Missing
    case Some(st1) => DecodeAt(fields, st1, i, wireType, s)
  }

  lemma EnterAnywhere(fields: seq<Field>, st: DState, i: nat)
    requires Fits(fields, st) && i < |fields|
    ensures Enter(fields, st.(pos := i), i) == Enter(fields, st, i)
  {
  }

  lemma LoopTurn(fields: seq<Field>, st: DState, s: seq<Byte>, tag: nat, wireType: nat, body: seq<Byte>)
    requires Fits(fields, st) && s != [] && wireType < 8 && 8 * tag + wireType != 0 && |body| < |s|
    requires 8 * tag + wireType < TWO_32 && ReadVarint32(s) == Got(8 * tag + wireType, body)
    ensures DecodeNext(fields, st, tag, wireType, body).Missing? ==> DecodeLoop(fields, st, s) == Missing
    ensures DecodeNext(fields, st, tag, wireType, body).Got? ==>
      DecodeLoop(fields, st, s) == DecodeLoop(fields, DecodeNext(fields, st, tag, wireType, body).value,
                                              DecodeNext(fields, st, tag, wireType, body).rest)
  {
    var t := 8 * tag + wireType;
    assert t / 8 == tag && t % 8 == wireType;
  }

  ghost predicate AllRequired(fields: seq<Field>, bits: seq<bool>)
    requires |bits| == MAX_REQUIRED_FIELDS
  {
    forall k :: 0 <= k < RequiredBefore(fields, |fields|) && k < MAX_REQUIRED_FIELDS ==> bits[k]
  }

  lemma RequiredBits(fields: seq<Field>, bits: seq<bool>, seen: set<nat>)
    requires |bits| == MAX_REQUIRED_FIELDS && SeenIs(bits, seen)
    ensures AllRequired(fields, bits) == RequiredSeen(fields, seen)
  {
  }

  /** The bits of `fields_seen`. */
  ghost predicate SeenIs(bits: seq<bool>, seen: set<nat>) {
    forall k :: 0 <= k < |bits| ==> (bits[k] <==> k in seen)
  }

  lemma Fixed32Prefix(s: seq<Byte>)
    requires |s| >= 4
    ensures DecodeFixed32(s[..4]) == DecodeFixed32(s)
  {
  }

  lemma Fixed64Prefix(s: seq<Byte>)
    requires |s| >= 8
    ensures DecodeFixed64(s[..8]) == DecodeFixed64(s)
  {
    assert s[..8][4..] == s[4..8];
    assert DecodeFixed32(s[4..8]) == DecodeFixed32(s[4..]);
  }
}
