/** Field descriptors, the memory of a message, and the field iterator (nanopb pb.h, pb_common.c).
    Sizes and tags are stored in 32 bits (PB_FIELD_32BIT); only statically allocated fields are described. */
module NanopbFields {
  import opened Options
  import opened Coding

  /** `PB_LTYPE_*`; the first six can be packed. */
  datatype LType =
    | Bool | VarInt | UVarInt | SVarInt | Fixed32 | Fixed64
    | Bytes | Text | FixedLength
    | Submessage(sub: seq<Field>)

  /** `PB_HTYPE_*`. A `flagged` optional field has a `has_` member, the others are present when not zero
      (proto3); a `counted` repeated field has a `_count` member, the others are full arrays; a oneof field that
      `joins` is laid over the field before it. */
  datatype HType = Required | Optional(flagged: bool) | Repeated(counted: bool) | OneOf(joins: bool)

  /** `init` is the default value, zero if there is none. */
  datatype Field = Field(tag: Word, ltype: LType, htype: HType, dataSize: Word, arraySize: Word, init: Option<Value>)

  datatype Value = Int(n: int) | Blob(bytes: seq<Byte>) | Struct(cells: seq<Cell>)

  /** What the structure holds for a field: a value, a value with its `has_` flag, the counted part of an array,
      or a union with its `which_` member. */
  datatype Cell =
    | One(value: Value)
    | Opt(has: bool, value: Value)
    | Many(items: seq<Value>)
    | Union(which: nat, value: Value)

  const MAX_REQUIRED_FIELDS := 64
  /** Where the bytes of a `pb_bytes_array_t` start. */
  const BYTES_OFFSET := 4

  predicate Packable(t: LType) {
    t.Bool? || t.VarInt? || t.UVarInt? || t.SVarInt? || t.Fixed32? || t.Fixed64?
  }

  // ---- The iterator ----

  predicate SharesUnion(fields: seq<Field>, i: nat)
    requires i < |fields|
  {
    i > 0 && fields[i - 1].htype.OneOf? && fields[i].htype.OneOf? && fields[i].htype.joins
  }

  /** The cell that field `i` lives in. */
  function Home(fields: seq<Field>, i: nat): (h: nat)
    requires i < |fields|
    ensures h <= i
  {
    if SharesUnion(fields, i) then Home(fields, i - 1) else i
  }

  function RequiredBefore(fields: seq<Field>, i: nat): (n: nat)
    requires i <= |fields|
    ensures n <= i
  {
    if i == 0 then 0 else RequiredBefore(fields, i - 1) + (if fields[i - 1].htype.Required? then 1 else 0)
  }

  /** The first field at or after `j` with this tag. */
  function FindFrom(fields: seq<Field>, j: nat, tag: nat): (r: Option<nat>)
    requires j <= |fields|
    ensures r.Some? ==> j <= r.value < |fields| && fields[r.value].tag == tag
    ensures r.None? ==> forall k :: j <= k < |fields| ==> fields[k].tag != tag
    decreases |fields| - j
  {
    if j == |fields| then None else if fields[j].tag == tag then Some(j) else FindFrom(fields, j + 1, tag)
  }

  /** The first field with this tag, from `pos` round to `pos` again. */
  function Find(fields: seq<Field>, pos: nat, tag: nat): (r: Option<nat>)
    requires pos <= |fields|
    ensures r.Some? ==> r.value < |fields| && fields[r.value].tag == tag
    ensures r.None? <==> forall k :: 0 <= k < |fields| ==> fields[k].tag != tag
  {
    var r := FindFrom(fields, pos, tag);
    if r.Some? then r else FindFrom(fields, 0, tag)
  }

  predicate DistinctTags(fields: seq<Field>) {
    forall i, j :: 0 <= i < j < |fields| ==> fields[i].tag != fields[j].tag
  }

  /** The structure's cells are laid out once, so where a search starts does not matter if tags are distinct. */
  lemma FindIsUnique(fields: seq<Field>, pos: nat, i: nat)
    requires pos <= |fields| && i < |fields| && DistinctTags(fields)
    ensures Find(fields, pos, fields[i].tag) == Some(i)
  {
    assert Find(fields, pos, fields[i].tag).Some?;
  }

  /** `pb_field_iter_t`: `home` stands for `pData`. */
  class FieldIter {
    const fields: seq<Field>
    var pos: nat
    var home: nat
    var requiredIndex: nat

    ghost predicate Valid()
      reads this
    {
      && (if fields == [] then pos == 0 && home == 0 && requiredIndex == 0
          else pos < |fields| && home == Home(fields, pos) && requiredIndex == RequiredBefore(fields, pos))
    }

    constructor (fields: seq<Field>)
      ensures this.fields == fields && Valid() && pos == 0
    {
      this.fields := fields;
      pos, home, requiredIndex := 0, 0, 0;
    }

    /** False when the walk has come back to the start. */
    method Next() returns (more: bool)
      requires Valid()
      modifies this
      ensures Valid()
      ensures more <==> old(pos) + 1 < |fields|
      ensures pos == if more then old(pos) + 1 else 0
    {
      if fields == [] {
        return false;
      }
      var prev := fields[pos];
      pos := pos + 1;
      if pos == |fields| {
        pos, home, requiredIndex := 0, 0, 0;
        return false;
      }
      var joined := prev.htype.OneOf? && fields[pos].htype.OneOf? && fields[pos].htype.joins;
      if prev.htype.Required? {
        requiredIndex := requiredIndex + 1;
      }
      if !joined {
        home := pos;
      }
      more := true;
    }

    /** Stops on the field found, or where it started; the entry that ends an empty table has tag zero. */
    method Seek(tag: nat) returns (found: bool)
      requires Valid()
      modifies this
      ensures Valid()
      ensures fields == [] ==> found == (tag == 0)
      ensures fields != [] ==> found == Find(fields, old(pos), tag).Some?
      ensures fields != [] ==> pos == if found then Find(fields, old(pos), tag).value else old(pos)
    {
      if fields == [] {
        return tag == 0;
      }
      var start := pos;
      ghost var turned := false;
      while true
        invariant Valid() && start == old(pos) < |fields|
        invariant !turned ==> start <= pos
        invariant !turned ==> FindFrom(fields, start, tag) == FindFrom(fields, pos, tag)
        invariant turned ==> pos < start && FindFrom(fields, start, tag) == None
        invariant turned ==> FindFrom(fields, 0, tag) == FindFrom(fields, pos, tag)
        decreases !turned, |fields| - pos
      {
        if fields[pos].tag == tag {
          return true;
        }
        var more := Next();
        if pos == start {
          break;
        }
        if !more {
          turned := true;
        }
      }
      found := false;
    }
  }

  // ---- Memory ----

  function Zeros(n: nat): (r: seq<Byte>)
    ensures |r| == n
  {
    seq(n, _ => 0)
  }

  /** What `pb_field_set_to_default` leaves in a single value. */
  function DefaultValue(f: Field): Value
    decreases f, 0
  {
    match f.ltype
    case Submessage(sub) => Struct(Defaults(sub))
    case _ =>
      if f.init.Some? then f.init.value else ZeroValue(f)
  }

  function ZeroValue(f: Field): Value {
    match f.ltype
    case Bytes => Blob([])
    case Text => Blob([0])
    case FixedLength => Blob(Zeros(f.dataSize))
    case _ => Int(0)
  }

  function DefaultCell(f: Field): Cell
    decreases f, 1
  {
    match f.htype
    case Required => One(DefaultValue(f))
    case Optional(flagged) => if flagged then Opt(false, DefaultValue(f)) else One(DefaultValue(f))
    case Repeated(_) => Many([])
    case OneOf(_) => Union(0, Int(0))
  }

  /** `pb_message_set_to_defaults`. */
  function Defaults(fields: seq<Field>): (r: seq<Cell>)
    ensures |r| == |fields|
    ensures forall i :: 0 <= i < |fields| ==> r[i] == DefaultCell(fields[i])
    decreases fields
  {
    seq(|fields|, i requires 0 <= i < |fields| => DefaultCell(fields[i]))
  }

  /** The text of a string buffer: what comes before the first NUL. */
  function CString(b: seq<Byte>): (r: seq<Byte>)
    ensures |r| <= |b| && r == b[..|r|]
    ensures |r| < |b| ==> b[|r|] == 0
    ensures 0 !in r
  {
    if b == [] || b[0] == 0 then [] else [b[0]] + CString(b[1..])
  }

  /** `pb_check_proto3_default_value`: the field would not be written in proto3. */
  predicate IsDefault(f: Field, c: Cell)
    decreases f, 1
  {
    match f.htype
    case Required => false
    case Repeated(counted) => counted && c.Many? && c.items == []
    case OneOf(_) => c.Union? && c.which == 0
    case Optional(flagged) =>
      if flagged then c.Opt? && !c.has
      else c.One? && IsZero(f, c.value)
  }

  predicate IsZero(f: Field, v: Value)
    decreases f, 0
  {
    match f.ltype
    case Bytes => v.Blob? && v.bytes == []
    case Text => v.Blob? && CString(v.bytes) == []
    case FixedLength => f.dataSize == 0
    case Submessage(sub) => v.Struct? && |v.cells| == |sub| && AllDefault(sub, v.cells, 0)
    case _ => v == Int(0)
  }

  predicate AllDefault(fields: seq<Field>, cells: seq<Cell>, i: nat)
    requires |cells| == |fields| && i <= |fields|
    decreases fields, |fields| - i
  {
    i < |fields| ==> IsDefault(fields[i], cells[Home(fields, i)]) && AllDefault(fields, cells, i + 1)
  }

  // ---- Well-formed descriptors ----

  /** Tags are distinct field numbers, and proto3 fields have no default but zero, at every depth. */
  ghost predicate WellFormed(fields: seq<Field>)
    decreases fields
  {
    && DistinctTags(fields)
    && forall f <- fields :: FieldOk(f)
  }

  ghost predicate FieldOk(f: Field)
    decreases f
  {
    && 0 < f.tag < 0x2000_0000
    && (f.htype == Optional(false) ==> f.init == None)
    && (f.ltype.Submessage? ==> WellFormed(f.ltype.sub))
  }

  /** A proto3 field that holds a zero would hold one by default. */
  lemma {:induction false} DefaultsAreDefault(fields: seq<Field>, cells: seq<Cell>, i: nat)
    requires WellFormed(fields) && |cells| == |fields| && i <= |fields| && AllDefault(fields, cells, i)
    ensures AllDefault(fields, Defaults(fields), i)
    decreases fields, |fields| - i
  {
    if i < |fields| {
      var f, h := fields[i], Home(fields, i);
      assert f in fields;
      if f.htype == Optional(false) {
        ZeroByDefault(f, cells[h].value);
      }
      HomeOfUnion(fields, i);
      DefaultsAreDefault(fields, cells, i + 1);
    }
  }

  lemma {:induction false} ZeroByDefault(f: Field, v: Value)
    requires FieldOk(f) && f.htype == Optional(false) && IsZero(f, v)
    ensures IsZero(f, DefaultValue(f))
    decreases f, 0
  {
    match f.ltype
    case Submessage(sub) => DefaultsAreDefault(sub, v.cells, 0);
    case _ =>
  }

  /** Only a oneof field lives in another field's cell, and that field is a oneof too. */
  lemma {:induction false} HomeOfUnion(fields: seq<Field>, i: nat)
    requires i < |fields|
    ensures Home(fields, i) != i ==> fields[i].htype.OneOf?
    ensures fields[i].htype.OneOf? ==> fields[Home(fields, i)].htype.OneOf?
  {
    if SharesUnion(fields, i) {
      HomeOfUnion(fields, i - 1);
    }
  }
}
