/** Handshake fragments and their reassembly (ssl/d1_both.cc; section 4.2.2 and 4.2.3 of RFC 6347). */
module DtlsFragments {
  import opened Options
  import opened Coding

  const HEADER_LENGTH: nat := 12

  // ---- The fragment header ----

  type Word16 = x: int | 0 <= x < 0x1_0000
  type Word24 = x: int | 0 <= x < 0x100_0000

  datatype Header = Header(kind: Byte, msgLen: Word24, seqNo: Word16, fragOff: Word24, fragLen: Word24)

  function Put16(v: Word16): seq<Byte> {
    [v / 0x100, v % 0x100]
  }

  function Put24(v: Word24): seq<Byte> {
    [v / 0x1_0000, v / 0x100 % 0x100, v % 0x100]
  }

  function Get16(s: seq<Byte>): Word16
    requires |s| >= 2
  {
    var a: int, b: int := s[0], s[1];
    a * 0x100 + b
  }

  function Get24(s: seq<Byte>): Word24
    requires |s| >= 3
  {
    var a: int, b: int, c: int := s[0], s[1], s[2];
    a * 0x1_0000 + b * 0x100 + c
  }

  lemma Read16(v: Word16, tail: seq<Byte>)
    ensures Get16(Put16(v) + tail) == v
  {}

  lemma Read24(v: Word24, tail: seq<Byte>)
    ensures Get24(Put24(v) + tail) == v
  {
    var q := v / 0x100;
    assert v == q * 0x100 + v % 0x100 && q == q / 0x100 * 0x100 + q % 0x100 && v / 0x1_0000 == q / 0x100;
  }

  function EncodeHeader(h: Header): (r: seq<Byte>)
    ensures |r| == HEADER_LENGTH
  {
    [h.kind] + Put24(h.msgLen) + Put16(h.seqNo) + Put24(h.fragOff) + Put24(h.fragLen)
  }

  datatype Parsed = Malformed | Fragment(header: Header, body: seq<Byte>, rest: seq<Byte>)

  /** d1_both.cc:458-472 */
  function ParseFragment(s: seq<Byte>): (r: Parsed)
    ensures r.Fragment? ==> |r.rest| < |s| && |r.body| == r.header.fragLen
  {
    if |s| < HEADER_LENGTH then Malformed
    else
      var h := Header(s[0], Get24(s[1..]), Get16(s[4..]), Get24(s[6..]), Get24(s[9..]));
      var rest := s[HEADER_LENGTH..];
      if |rest| < h.fragLen then Malformed else Fragment(h, rest[..h.fragLen], rest[h.fragLen..])
  }

  lemma FragmentRoundTrip(h: Header, body: seq<Byte>, tail: seq<Byte>)
    requires |body| == h.fragLen
    ensures ParseFragment(EncodeHeader(h) + body + tail) == Fragment(h, body, tail)
  {
    var s := EncodeHeader(h) + body + tail;
    var t := Put24(h.fragLen) + (body + tail);
    var u := Put24(h.fragOff) + t;
    var v := Put16(h.seqNo) + u;
    assert s[1..] == Put24(h.msgLen) + v && s[4..] == v && s[6..] == u && s[9..] == t;
    Read24(h.msgLen, v);
    Read16(h.seqNo, u);
    Read24(h.fragOff, t);
    Read24(h.fragLen, body + tail);
    assert s[HEADER_LENGTH..] == body + tail;
  }

  // ---- The bitmap ----

  /** A byte of the bitmap is its eight bits, lowest first. */
  type Bits = b: seq<bool> | |b| == 8 witness [false, false, false, false, false, false, false, false]

  /** Bits `start` up to `end` set. */
  function BitRange(start: nat, end: nat): (b: Bits)
    ensures forall i :: 0 <= i < 8 ==> b[i] == (start <= i < end)
  {
    seq(8, i => start <= i < end)
  }

  function Or(a: Bits, b: Bits): (c: Bits)
    ensures forall i :: 0 <= i < 8 ==> c[i] == (a[i] || b[i])
  {
    seq(8, i requires 0 <= i < 8 => a[i] || b[i])
  }

  function ByteCount(n: nat): nat {
    (n + 7) / 8
  }

  predicate Bit(bits: seq<Bits>, j: nat) {
    j / 8 < |bits| && bits[j / 8][j % 8]
  }

  /** No bit beyond the message is ever set. */
  ghost predicate Proper(bits: seq<Bits>, n: nat) {
    |bits| == ByteCount(n) && forall j: nat :: Bit(bits, j) ==> j < n
  }

  /** Exactly the bits from `start` to `end` have been added. */
  ghost predicate Marked(before: seq<Bits>, after: seq<Bits>, start: nat, end: nat) {
    |after| == |before| && forall j: nat :: Bit(after, j) <==> Bit(before, j) || (start <= j < end && j / 8 < |before|)
  }

  /** Set the bits of a range (d1_both.cc:221-235). */
  method MarkBits(bits: seq<Bits>, start: nat, end: nat) returns (after: seq<Bits>)
    requires start <= end <= 8 * |bits|
    ensures Marked(bits, after, start, end)
  {
    after := bits;
    if start == end {
      return;
    }
    var first, last := start / 8, end / 8;
    if first == last {
      after := after[first := Or(after[first], BitRange(start % 8, end % 8))];
      SameByte(bits, after, start, end);
    } else {
      after := after[first := Or(after[first], BitRange(start % 8, 8))];
      for i := first + 1 to last
        invariant |after| == |bits|
        invariant forall k :: 0 <= k < |bits| ==>
                    after[k] == if k == first then Or(bits[k], BitRange(start % 8, 8))
                                else if first < k < i then BitRange(0, 8) else bits[k]
      {
        after := after[i := BitRange(0, 8)];
      }
      if end % 8 != 0 {
        after := after[last := Or(after[last], BitRange(0, end % 8))];
      }
      ManyBytes(bits, after, start, end);
    }
  }

  lemma SameByte(bits: seq<Bits>, after: seq<Bits>, start: nat, end: nat)
    requires start <= end && start / 8 == end / 8 < |bits|
    requires after == bits[start / 8 := Or(bits[start / 8], BitRange(start % 8, end % 8))]
    ensures Marked(bits, after, start, end)
  {
    forall j: nat ensures Bit(after, j) <==> Bit(bits, j) || (start <= j < end && j / 8 < |bits|) {
      Within(j, start, end);
    }
  }

  /** A position against the ends of a range, byte by byte and bit by bit. */
  lemma Within(j: nat, start: nat, end: nat)
    ensures start <= j <==> start / 8 < j / 8 || (start / 8 == j / 8 && start % 8 <= j % 8)
    ensures j < end <==> j / 8 < end / 8 || (j / 8 == end / 8 && j % 8 < end % 8)
  {}

  lemma ManyBytes(bits: seq<Bits>, after: seq<Bits>, start: nat, end: nat)
    requires start / 8 < end / 8 && end <= 8 * |bits| && |after| == |bits|
    requires forall k :: 0 <= k < |bits| ==>
               after[k] == if k == start / 8 then Or(bits[k], BitRange(start % 8, 8))
                           else if start / 8 < k < end / 8 then BitRange(0, 8)
                           else if k == end / 8 && end % 8 != 0 then Or(bits[k], BitRange(0, end % 8)) else bits[k]
    ensures Marked(bits, after, start, end)
  {
    forall j: nat ensures Bit(after, j) <==> Bit(bits, j) || (start <= j < end && j / 8 < |bits|) {
      Within(j, start, end);
    }
  }

  /** Are all bits of the message set?  (d1_both.cc:237-246) */
  method AllSet(bits: seq<Bits>, n: nat) returns (all: bool)
    requires Proper(bits, n)
    ensures all <==> forall j: nat :: j < n ==> Bit(bits, j)
  {
    for i := 0 to n / 8
      invariant forall k :: 0 <= k < i ==> bits[k] == BitRange(0, 8)
    {
      if bits[i] != BitRange(0, 8) {
        NotFull(bits[i], 8);
        ghost var k :| 0 <= k < 8 && !bits[i][k];
        assert !Bit(bits, 8 * i + k) && 8 * i + k < n;
        return false;
      }
    }
    if n % 8 != 0 && bits[n / 8] != BitRange(0, n % 8) {
      forall k | n % 8 <= k < 8 ensures !bits[n / 8][k] {
        var j := n / 8 * 8 + k;
        assert j >= n && j / 8 == n / 8 && j % 8 == k;
        assert !Bit(bits, j);
      }
      NotFull(bits[n / 8], n % 8);
      ghost var k :| 0 <= k < n % 8 && !bits[n / 8][k];
      assert !Bit(bits, n / 8 * 8 + k) && n / 8 * 8 + k < n;
      return false;
    }
    all := true;
    forall j: nat | j < n ensures Bit(bits, j) {
      if j / 8 < n / 8 { assert bits[j / 8] == BitRange(0, 8); }
    }
  }

  lemma FullByte(b: Bits, n: nat)
    requires n <= 8 && (forall i :: 0 <= i < n ==> b[i]) && forall i :: n <= i < 8 ==> !b[i]
    ensures b == BitRange(0, n)
  {}

  lemma NotFull(b: Bits, n: nat)
    requires n <= 8 && b != BitRange(0, n) && forall i :: n <= i < 8 ==> !b[i]
    ensures exists k :: 0 <= k < n && !b[k]
  {
    if forall k :: 0 <= k < n ==> b[k] {
      FullByte(b, n);
    }
  }

  // ---- One message being assembled ----

  /** A message some of whose bytes have come in; the bitmap is dropped when all have. */
  datatype Message = Message(kind: Byte, seqNo: Word16, len: Word24, data: seq<Byte>, bitmap: Option<seq<Bits>>)

  ghost predicate MessageOk(m: Message) {
    && |m.data| == m.len
    && (m.bitmap.Some? ==> Proper(m.bitmap.value, m.len) && exists j: nat :: j < m.len && !Bit(m.bitmap.value, j))
  }

  /** Has byte `j` of the message come in? */
  predicate Received(m: Message, j: nat) {
    j < m.len && (m.bitmap.None? || Bit(m.bitmap.value, j))
  }

  predicate Complete(m: Message) {
    m.bitmap.None?
  }

  function Fresh(h: Header): Message {
    Message(h.kind, h.seqNo, h.msgLen, seq(h.msgLen, _ => 0),
            if h.msgLen > 0 then Some(seq(ByteCount(h.msgLen), _ => BitRange(0, 0))) else None)
  }

  lemma FreshOk(h: Header)
    ensures MessageOk(Fresh(h)) && forall j: nat :: !Received(Fresh(h), j)
  {
    if h.msgLen > 0 { assert !Bit(Fresh(h).bitmap.value, 0); }
  }

  /** What taking a fragment in does to a message: its bytes are copied, and marked. */
  ghost predicate Absorbs(m: Message, off: nat, body: seq<Byte>, t: Message) {
    && MessageOk(t) && t.kind == m.kind && t.seqNo == m.seqNo && t.len == m.len
    && (Complete(m) ==> t == m)
    && (!Complete(m) ==> off + |body| <= m.len == |m.data| && t.data == m.data[..off] + body + m.data[off + |body|..])
    && (forall j: nat :: Received(t, j) <==> Received(m, j) || (!Complete(m) && off <= j < off + |body|))
  }

  function MarkedBits(bits: seq<Bits>, start: nat, end: nat): seq<Bits> {
    seq(|bits|, b requires 0 <= b < |bits| => seq(8, i requires 0 <= i < 8 => bits[b][i] || start <= 8 * b + i < end))
  }

  lemma MarkedOnce(bits: seq<Bits>, after: seq<Bits>, start: nat, end: nat)
    requires Marked(bits, after, start, end)
    ensures after == MarkedBits(bits, start, end)
  {
    forall b | 0 <= b < |bits| ensures after[b] == MarkedBits(bits, start, end)[b] {
      forall i | 0 <= i < 8 ensures after[b][i] == MarkedBits(bits, start, end)[b][i] {
        assert Bit(after, 8 * b + i) == after[b][i] && Bit(bits, 8 * b + i) == bits[b][i];
      }
    }
  }

  /** The message after a fragment. */
  ghost function Absorbed(m: Message, off: nat, body: seq<Byte>): Message
    requires MessageOk(m) && off + |body| <= m.len
  {
    if Complete(m) then m
    else
      var bits := MarkedBits(m.bitmap.value, off, off + |body|);
      m.(data := m.data[..off] + body + m.data[off + |body|..],
         bitmap := if forall j: nat :: j < m.len ==> Bit(bits, j) then None else Some(bits))
  }

  lemma AbsorbedAbsorbs(m: Message, off: nat, body: seq<Byte>)
    requires MessageOk(m) && off + |body| <= m.len
    ensures Absorbs(m, off, body, Absorbed(m, off, body))
  {
    if !Complete(m) {
      var bits, end := m.bitmap.value, off + |body|;
      var after := MarkedBits(bits, off, end);
      forall j: nat ensures Bit(after, j) <==> Bit(bits, j) || (off <= j < end && j / 8 < |bits|) {
        if j / 8 < |bits| { assert j == 8 * (j / 8) + j % 8; }
      }
      assert forall j: nat :: j < m.len ==> j / 8 < |bits|;
    }
  }

  /** d1_both.cc:392-401 with 210-250 */
  method Absorb(m: Message, off: nat, body: seq<Byte>) returns (t: Message)
    requires MessageOk(m) && off + |body| <= m.len
    ensures t == Absorbed(m, off, body) && MessageOk(t)
  {
    AbsorbedAbsorbs(m, off, body);
    if m.bitmap.None? {
      return m;
    }
    var end := off + |body|;
    var data := m.data[..off] + body + m.data[end..];
    var bits := m.bitmap.value;
    if off == end {
      MarkedOnce(bits, bits, off, end);
      return m.(data := data);
    }
    bits := MarkBits(bits, off, end);
    MarkedOnce(m.bitmap.value, bits, off, end);
    var all := AllSet(bits, m.len);
    t := m.(data := data, bitmap := if all then None else Some(bits));
  }

  /** A message is complete exactly when every byte of it has come in. */
  lemma CompleteIffAll(m: Message)
    requires MessageOk(m)
    ensures Complete(m) <==> forall j: nat :: j < m.len ==> Received(m, j)
  {
    if m.bitmap.Some? {
      var j: nat :| j < m.len && !Bit(m.bitmap.value, j);
      assert !Received(m, j);
    }
  }

  // ---- Fragments of one message, in any order ----

  /** A piece of a message: where it starts, and its bytes. */
  datatype Piece = Piece(off: nat, body: seq<Byte>)

  ghost predicate PieceOf(p: Piece, body: seq<Byte>) {
    p.off + |p.body| <= |body| && body[p.off..p.off + |p.body|] == p.body
  }

  /** The message after a run of pieces, one after the other. */
  ghost function TakeIn(m: Message, ps: seq<Piece>): (t: Message)
    requires MessageOk(m) && forall p :: p in ps ==> p.off + |p.body| <= m.len
    ensures MessageOk(t) && t.len == m.len
  {
    if ps == [] then m
    else
      var p := ps[|ps| - 1];
      AbsorbedAbsorbs(TakeIn(m, ps[..|ps| - 1]), p.off, p.body);
      Absorbed(TakeIn(m, ps[..|ps| - 1]), p.off, p.body)
  }

  ghost predicate Covers(ps: seq<Piece>, j: nat) {
    exists i :: 0 <= i < |ps| && ps[i].off <= j < ps[i].off + |ps[i].body|
  }

  /** What has come in is what was sent. */
  ghost predicate Agrees(m: Message, body: seq<Byte>) {
    |m.data| == |body| == m.len && forall j: nat :: Received(m, j) ==> m.data[j] == body[j]
  }

  lemma AbsorbAgrees(m: Message, p: Piece, t: Message, body: seq<Byte>)
    requires MessageOk(m) && Agrees(m, body) && PieceOf(p, body) && Absorbs(m, p.off, p.body, t)
    ensures Agrees(t, body)
  {
    if !Complete(m) {
      forall j: nat | Received(t, j) ensures t.data[j] == body[j] {
        if p.off <= j < p.off + |p.body| { assert p.body[j - p.off] == body[p.off..p.off + |p.body|][j - p.off]; }
      }
    }
  }

  /** For pieces of one message delivered in any order, with loss, overlap and duplication: a byte has come in
      exactly if a piece covers it, the bytes that have are right, and the message is complete exactly if the
      pieces cover it. */
  lemma {:induction false} Reassembly(m: Message, body: seq<Byte>, ps: seq<Piece>)
    requires MessageOk(m) && |m.data| == |body| == m.len && |body| > 0 && forall j: nat :: !Received(m, j)
    requires forall p :: p in ps ==> PieceOf(p, body) && p.off + |p.body| <= m.len
    ensures var t := TakeIn(m, ps);
            && Agrees(t, body)
            && (forall j: nat :: Received(t, j) <==> j < |body| && Covers(ps, j))
            && (Complete(t) <==> forall j: nat :: j < |body| ==> Covers(ps, j))
            && (Complete(t) ==> t.data == body)
    decreases |ps|
  {
    var t := TakeIn(m, ps);
    if ps != [] {
      var qs, p := ps[..|ps| - 1], ps[|ps| - 1];
      var u := TakeIn(m, qs);
      Reassembly(m, body, qs);
      assert p in ps;
      AbsorbedAbsorbs(u, p.off, p.body);
      AbsorbAgrees(u, p, t, body);
      forall j: nat ensures Received(t, j) <==> j < |body| && Covers(ps, j) {
        CoversMore(ps, j);
        CompleteIffAll(u);
      }
    }
    CompleteIffAll(t);
    if Complete(t) {
      assert forall j: nat :: j < |body| ==> Received(t, j);
    }
  }

  lemma CoversMore(ps: seq<Piece>, j: nat)
    requires ps != []
    ensures var p := ps[|ps| - 1];
            Covers(ps, j) <==> Covers(ps[..|ps| - 1], j) || p.off <= j < p.off + |p.body|
  {
    var qs := ps[..|ps| - 1];
    if Covers(ps, j) {
      var i :| 0 <= i < |ps| && ps[i].off <= j < ps[i].off + |ps[i].body|;
      if i < |qs| { assert qs[i] == ps[i]; }
    }
    if Covers(qs, j) {
      var i :| 0 <= i < |qs| && qs[i].off <= j < qs[i].off + |qs[i].body|;
      assert ps[i] == qs[i];
    }
  }
}
