/** The record format of the write-ahead log and the manifest (db/log_format, log_writer, log_reader). */
module LogFormat {

  import opened Coding

  /** The checksum is left open: any function of the bytes. */
  type Checksum = seq<Byte> -> Word

  const BLOCK_SIZE := 32768
  const HEADER_SIZE := 7

  const ZERO_TYPE: Byte := 0
  const FULL: Byte := 1
  const FIRST: Byte := 2
  const MIDDLE: Byte := 3
  const LAST: Byte := 4

  // ---- Masked checksums ----

  const MASK_DELTA: Word := 0xa282ead8

  function Mask(c: Word): Word {
    (c / 0x8000 + (c % 0x8000) * 0x2_0000 + MASK_DELTA) % 0x1_0000_0000
  }

  function Unmask(m: Word): Word {
    var rot := (m - MASK_DELTA + 0x1_0000_0000) % 0x1_0000_0000;
    rot / 0x2_0000 + (rot % 0x2_0000) * 0x8000
  }

  /** Unmasking inverts masking (crc32c.h). */
  lemma UnmaskMask(c: Word)
    ensures Unmask(Mask(c)) == c
  {
    var high, low := c / 0x8000, c % 0x8000;
    var rot := high + low * 0x2_0000;
    assert high < 0x2_0000 && c == high * 0x8000 + low;
    AddDelta(rot);
    assert rot / 0x2_0000 == low && rot % 0x2_0000 == high;
  }

  /** A constant added in 32 bits is taken off again. */
  lemma AddDelta(rot: Word)
    ensures ((rot + MASK_DELTA) % 0x1_0000_0000 - MASK_DELTA + 0x1_0000_0000) % 0x1_0000_0000 == rot
  {
    if rot + MASK_DELTA < 0x1_0000_0000 {
      assert (rot + MASK_DELTA) % 0x1_0000_0000 == rot + MASK_DELTA;
    } else {
      assert (rot + MASK_DELTA) % 0x1_0000_0000 == rot + MASK_DELTA - 0x1_0000_0000;
    }
  }

  // ---- Physical records ----

  /** Checksum, length and type in front of a fragment. */
  function Piece(crc: Checksum, kind: Byte, frag: seq<Byte>): (r: seq<Byte>)
    requires |frag| < 0x1_0000
    ensures |r| == HEADER_SIZE + |frag|
  {
    EncodeFixed32(Mask(crc([kind] + frag))) + [|frag| % 0x100, |frag| / 0x100, kind] + frag
  }

  function Zeros(n: nat): (r: seq<Byte>)
    ensures |r| == n
  {
    seq(n, _ => 0)
  }

  /** Bytes skipped at the end of a block too short for a header. */
  function Padding(off: nat): nat
    requires off <= BLOCK_SIZE
  {
    if BLOCK_SIZE - off < HEADER_SIZE then BLOCK_SIZE - off else 0
  }

  /** Where in its block the next header goes. */
  function HeaderAt(off: nat): (o: nat)
    requires off <= BLOCK_SIZE
    ensures o + HEADER_SIZE <= BLOCK_SIZE
  {
    if BLOCK_SIZE - off < HEADER_SIZE then 0 else off
  }

  function FragmentLength(left: nat, off: nat): (n: nat)
    requires off <= BLOCK_SIZE
    ensures n <= left && HeaderAt(off) + HEADER_SIZE + n <= BLOCK_SIZE
  {
    var avail := BLOCK_SIZE - HeaderAt(off) - HEADER_SIZE;
    if left < avail then left else avail
  }

  function Kind(begin: bool, end: bool): Byte {
    if begin && end then FULL else if begin then FIRST else if end then LAST else MIDDLE
  }

  /** The bytes one record becomes when its writer stands at `off` in a block. */
  function Emit(crc: Checksum, payload: seq<Byte>, off: nat, begin: bool): seq<Byte>
    requires off <= BLOCK_SIZE
    decreases |payload|, if FragmentLength(|payload|, off) == 0 then 1 else 0
  {
    var n := FragmentLength(|payload|, off);
    var end := n == |payload|;
    Zeros(Padding(off)) + Piece(crc, Kind(begin, end), payload[..n])
    + if end then [] else Emit(crc, payload[n..], HeaderAt(off) + HEADER_SIZE + n, false)
  }

  lemma SamePlace(left: nat)
    ensures HeaderAt(BLOCK_SIZE) == HeaderAt(0) && Padding(BLOCK_SIZE) == Padding(0)
    ensures FragmentLength(left, BLOCK_SIZE) == FragmentLength(left, 0)
  {
  }

  /** Standing at the end of a block is standing at the start of the next, so a writer reopened at the
      length of the file writes what the original writer would have written. */
  lemma ReopenedWriterAgrees(crc: Checksum, payload: seq<Byte>, off: nat, begin: bool)
    requires off <= BLOCK_SIZE
    ensures Emit(crc, payload, off, begin) == Emit(crc, payload, off % BLOCK_SIZE, begin)
  {
    if off == BLOCK_SIZE {
      EmitTurn(crc, payload, off, begin);
      EmitTurn(crc, payload, 0, begin);
      SamePlace(|payload|);
    } else {
      assert off % BLOCK_SIZE == off;
    }
  }

  /** The bytes of one record written at position `p` of the file. */
  function RecordBytes(crc: Checksum, record: seq<Byte>, p: nat): seq<Byte> {
    Emit(crc, record, p % BLOCK_SIZE, true)
  }

  /** The bytes a list of records becomes from position `p` of the file on. */
  function LogFrom(crc: Checksum, records: seq<seq<Byte>>, p: nat): seq<Byte> {
    if records == [] then []
    else
      var e := RecordBytes(crc, records[0], p);
      e + LogFrom(crc, records[1..], p + |e|)
  }

  /** A record appended to a log goes where the log ends. */
  lemma {:induction false} LogAppend(crc: Checksum, records: seq<seq<Byte>>, r: seq<Byte>, p: nat, q: nat)
    requires q == p + |LogFrom(crc, records, p)|
    ensures LogFrom(crc, records + [r], p) == LogFrom(crc, records, p) + RecordBytes(crc, r, q)
  {
    var all := records + [r];
    if records == [] {
      assert all == [r];
      SingleRecord(crc, r, p);
    } else {
      var e := RecordBytes(crc, records[0], p);
      LogCons(crc, all, p);
      LogCons(crc, records, p);
      assert all[0] == records[0] && all[1..] == records[1..] + [r];
      LogAppend(crc, records[1..], r, p + |e|, q);
      Associate(e, LogFrom(crc, records[1..], p + |e|), RecordBytes(crc, r, q));
    }
  }

  lemma LogCons(crc: Checksum, records: seq<seq<Byte>>, p: nat)
    requires records != []
    ensures var e := RecordBytes(crc, records[0], p);
            LogFrom(crc, records, p) == e + LogFrom(crc, records[1..], p + |e|)
  {}

  lemma Associate(a: seq<Byte>, b: seq<Byte>, c: seq<Byte>)
    ensures (a + b) + c == a + (b + c)
  {}

  lemma SingleRecord(crc: Checksum, r: seq<Byte>, p: nat)
    ensures LogFrom(crc, [r], p) == RecordBytes(crc, r, p)
  {
    var e := RecordBytes(crc, r, p);
    assert [r][1..] == [];
    assert LogFrom(crc, [r][1..], p + |e|) == [];
    assert e + [] == e;
  }

  /** How many of the records lie wholly within the first `n` bytes of the file. */
  function WholeRecords(crc: Checksum, records: seq<seq<Byte>>, p: nat, n: nat): (k: nat)
    ensures k <= |records|
  {
    if records == [] then 0
    else
      var e := RecordBytes(crc, records[0], p);
      if p + |e| > n then 0 else 1 + WholeRecords(crc, records[1..], p + |e|, n)
  }

  /** What is still to be written after a fragment of `n` bytes that ends at `off`. */
  function Remainder(crc: Checksum, payload: seq<Byte>, n: nat, off: nat): seq<Byte>
    requires n <= |payload| && off <= BLOCK_SIZE
  {
    if n == |payload| then [] else Emit(crc, payload[n..], off, false)
  }

  /** One turn of Emit. */
  lemma EmitTurn(crc: Checksum, payload: seq<Byte>, off: nat, begin: bool)
    requires off <= BLOCK_SIZE
    ensures var n := FragmentLength(|payload|, off);
            Emit(crc, payload, off, begin)
            == (Zeros(Padding(off)) + Piece(crc, Kind(begin, n == |payload|), payload[..n]))
               + Remainder(crc, payload, n, HeaderAt(off) + HEADER_SIZE + n)
  {}

  // ---- Appends that fail ----

  /** What becomes of a fragment: how many bytes of the trailer in front of it reach the file, which the writer does
      not ask; and whether the fragment is written, or fails with its first `piece` bytes in the file. */
  datatype Fate = Written(trailer: nat) | Broken(trailer: nat, piece: nat)

  const SOUND := Written(HEADER_SIZE)

  /** Fragments without a fate of their own are written whole. */
  function First(fates: seq<Fate>): Fate {
    if fates == [] then SOUND else fates[0]
  }

  function Others(fates: seq<Fate>): seq<Fate> {
    if fates == [] then [] else fates[1..]
  }

  /** Every fragment is written whole, and so is every trailer. */
  predicate AllSound(fates: seq<Fate>) {
    forall f :: f in fates ==> f.Written? && f.trailer >= HEADER_SIZE
  }

  function Upto(s: seq<Byte>, n: nat): seq<Byte> {
    if n < |s| then s[..n] else s
  }

  /** What an append comes to: the bytes that reach the file, where the writer then thinks it stands in its block, and
      what it reports. */
  datatype Attempted = Attempted(bytes: seq<Byte>, off: nat, ok: bool)

  /** The bytes of one fragment that reach the file. */
  function Reaching(crc: Checksum, payload: seq<Byte>, off: nat, begin: bool, fate: Fate): seq<Byte>
    requires off <= BLOCK_SIZE
  {
    var n := FragmentLength(|payload|, off);
    var piece := Piece(crc, Kind(begin, n == |payload|), payload[..n]);
    Upto(Zeros(Padding(off)), fate.trailer) + if fate.Broken? then Upto(piece, fate.piece) else piece
  }

  /** Append a record: after a fragment that fails nothing more of it is written, but the writer has moved on as if
      the fragment were there (log_writer.cc:34-80, 105). */
  function Attempt(crc: Checksum, payload: seq<Byte>, off: nat, begin: bool, fates: seq<Fate>): (r: Attempted)
    requires off <= BLOCK_SIZE
    ensures r.off <= BLOCK_SIZE
    decreases |payload|, if FragmentLength(|payload|, off) == 0 then 1 else 0
  {
    var n := FragmentLength(|payload|, off);
    var next := HeaderAt(off) + HEADER_SIZE + n;
    var bytes := Reaching(crc, payload, off, begin, First(fates));
    if First(fates).Broken? then Attempted(bytes, next, false)
    else if n == |payload| then Attempted(bytes, next, true)
    else Joined(bytes, Attempt(crc, payload[n..], next, false, Others(fates)))
  }

  function Joined(bytes: seq<Byte>, r: Attempted): Attempted {
    r.(bytes := bytes + r.bytes)
  }

  ghost predicate Faultless(r: Attempted, bytes: seq<Byte>, off: nat) {
    r.ok && r.bytes == bytes && r.off % BLOCK_SIZE == (off + |r.bytes|) % BLOCK_SIZE
  }

  /** Without failures it is what Emit says, and the writer is where the file is. */
  lemma {:induction false} SoundAttempt(crc: Checksum, payload: seq<Byte>, off: nat, begin: bool, fates: seq<Fate>)
    requires off <= BLOCK_SIZE && AllSound(fates)
    ensures Faultless(Attempt(crc, payload, off, begin, fates), Emit(crc, payload, off, begin), off) == true
    decreases |payload|, if FragmentLength(|payload|, off) == 0 then 1 else 0
  {
    var n := FragmentLength(|payload|, off);
    var next := HeaderAt(off) + HEADER_SIZE + n;
    if n < |payload| {
      SoundAttempt(crc, payload[n..], next, false, Others(fates));
      SoundTurn(crc, payload, off, begin, fates, n, next, Attempt(crc, payload[n..], next, false, Others(fates)));
    } else {
      EmitTurn(crc, payload, off, begin);
      SoundReaching(crc, payload, off, begin, First(fates));
      InStepAfter(off, next, n, 0, next);
      assert Remainder(crc, payload, n, next) == [];
    }
  }

  lemma SoundTurn(crc: Checksum, payload: seq<Byte>, off: nat, begin: bool, fates: seq<Fate>, n: nat, next: nat, r: Attempted)
    requires off <= BLOCK_SIZE && AllSound(fates) && n == FragmentLength(|payload|, off) < |payload|
    requires next == HeaderAt(off) + HEADER_SIZE + n && r == Attempt(crc, payload[n..], next, false, Others(fates))
    requires Faultless(r, Emit(crc, payload[n..], next, false), next)
    ensures Faultless(Attempt(crc, payload, off, begin, fates), Emit(crc, payload, off, begin), off) == true
  {
    SoundReaching(crc, payload, off, begin, First(fates));
    EmitTurn(crc, payload, off, begin);
    InStepAfter(off, next, n, |r.bytes|, r.off);
    assert Attempt(crc, payload, off, begin, fates) == Joined(Reaching(crc, payload, off, begin, First(fates)), r);
  }

  /** Hence a writer that is in its block where the file ends goes on from there. */
  lemma SoundRecord(crc: Checksum, record: seq<Byte>, off: nat, p: nat, fates: seq<Fate>)
    requires off <= BLOCK_SIZE && p % BLOCK_SIZE == off % BLOCK_SIZE && AllSound(fates)
    ensures var r := Attempt(crc, record, off, true, fates);
      r.ok && r.bytes == RecordBytes(crc, record, p) && (p + |r.bytes|) % BLOCK_SIZE == r.off % BLOCK_SIZE
  {
    SoundAttempt(crc, record, off, true, fates);
    ReopenedWriterAgrees(crc, record, off, true);
    var r := Attempt(crc, record, off, true, fates);
    SameRemainder(p, off, |r.bytes|, r.off);
  }

  lemma SameRemainder(p: nat, off: nat, n: nat, next: nat)
    requires off <= BLOCK_SIZE && p % BLOCK_SIZE == off % BLOCK_SIZE && next % BLOCK_SIZE == (off + n) % BLOCK_SIZE
    ensures p % BLOCK_SIZE == if off == BLOCK_SIZE then 0 else off
    ensures (p + n) % BLOCK_SIZE == next % BLOCK_SIZE
  {}

  lemma SoundReaching(crc: Checksum, payload: seq<Byte>, off: nat, begin: bool, fate: Fate)
    requires off <= BLOCK_SIZE && fate.Written? && fate.trailer >= HEADER_SIZE
    ensures var n := FragmentLength(|payload|, off);
      && Reaching(crc, payload, off, begin, fate)
         == Zeros(Padding(off)) + Piece(crc, Kind(begin, n == |payload|), payload[..n])
      && |Reaching(crc, payload, off, begin, fate)| == Padding(off) + HEADER_SIZE + n
  {}

  /** A fragment takes the writer from `off` to `next` in its block, and the file as far. */
  lemma InStepAfter(off: nat, next: nat, n: nat, rest: nat, end: nat)
    requires off <= BLOCK_SIZE && next == HeaderAt(off) + HEADER_SIZE + n && end % BLOCK_SIZE == (next + rest) % BLOCK_SIZE
    ensures end % BLOCK_SIZE == (off + (Padding(off) + HEADER_SIZE + n + rest)) % BLOCK_SIZE
  {
    if Padding(off) != 0 {
      assert off + (Padding(off) + HEADER_SIZE + n + rest) == BLOCK_SIZE + (next + rest);
    }
  }

  // ---- The writer ----

  class Writer {
    const crc: Checksum
    var dest: seq<Byte>
    var blockOffset: nat

    /** A writer on a file of any length; `[]` for a new one (log_writer.cc:23-30). */
    constructor (crc: Checksum, dest: seq<Byte>)
      ensures this.crc == crc && this.dest == dest && Valid() && InStep()
      ensures blockOffset == |dest| % BLOCK_SIZE
    {
      this.crc, this.dest := crc, dest;
      blockOffset := |dest| % BLOCK_SIZE;
    }

    ghost predicate Valid()
      reads this
    {
      blockOffset <= BLOCK_SIZE
    }

    /** The writer is in its block where the file ends: true until an append fails. */
    ghost predicate InStep()
      reads this
    {
      |dest| % BLOCK_SIZE == blockOffset % BLOCK_SIZE
    }

    /** Fragment a record over blocks (log_writer.cc:34-80). */
    method AddRecord(slice: seq<Byte>, fates: seq<Fate>) returns (ok: bool)
      requires Valid()
      modifies this`dest, this`blockOffset
      ensures Valid()
      ensures var r := Attempt(crc, slice, old(blockOffset), true, fates);
        dest == old(dest) + r.bytes && blockOffset == r.off && ok == r.ok
      ensures AllSound(fates) && old(InStep()) ==>
                ok && InStep() && dest == old(dest) + RecordBytes(crc, slice, |old(dest)|)
    {
      ghost var goal := Attempt(crc, slice, blockOffset, true, fates);
      var left, fs := slice, fates;
      var begin, end := true, false;
      ok := true;
      while ok && !end
        invariant Valid()
        invariant ToGo(goal, old(dest), dest, Ahead(crc, left, blockOffset, begin, fs, ok, end)) == true
        decreases ok && !end, |left|, if FragmentLength(|left|, blockOffset) == 0 then 1 else 0
      {
        ghost var was, off := dest, blockOffset;
        var n;
        ghost var bytes;
        n, end, ok, bytes := AddFragment(left, begin, First(fs));
        Nearer(crc, goal, old(dest), was, left, off, begin, fs, n, blockOffset);
        left, fs, begin := left[n..], Others(fs), false;
      }
      if AllSound(fates) && old(InStep()) {
        SoundRecord(crc, slice, old(blockOffset), |old(dest)|, fates);
      }
    }

    /** Fill the rest of a block no header fits in; whether that succeeds is not asked. */
    method SwitchBlock(trailer: nat)
      requires Valid()
      modifies this`dest, this`blockOffset
      ensures Valid() && blockOffset == HeaderAt(old(blockOffset))
      ensures dest == old(dest) + Upto(Zeros(Padding(old(blockOffset))), trailer)
    {
      var leftover := BLOCK_SIZE - blockOffset;
      if leftover < HEADER_SIZE {
        dest := dest + Upto(Zeros(leftover), trailer);
        blockOffset := 0;
      }
    }

    /** One turn of the fragmentation loop: pad out the block if no header fits, then one piece. */
    method AddFragment(left: seq<Byte>, begin: bool, fate: Fate) returns (n: nat, end: bool, ok: bool, ghost bytes: seq<Byte>)
      requires Valid()
      modifies this`dest, this`blockOffset
      ensures Valid()
      ensures n == FragmentLength(|left|, old(blockOffset)) && end == (n == |left|) && ok == fate.Written?
      ensures blockOffset == HeaderAt(old(blockOffset)) + HEADER_SIZE + n
      ensures bytes == Reaching(crc, left, old(blockOffset), begin, fate) && dest == old(dest) + bytes
    {
      bytes := Reaching(crc, left, blockOffset, begin, fate);
      ghost var was, pad := dest, Upto(Zeros(Padding(blockOffset)), fate.trailer);
      SwitchBlock(fate.trailer);
      var avail := BLOCK_SIZE - blockOffset - HEADER_SIZE;
      n := if |left| < avail then |left| else avail;
      end := |left| == n;
      var piece := Piece(crc, Kind(begin, end), left[..n]);
      ok := fate.Written?;
      var part := if ok then piece else Upto(piece, fate.piece);
      assert bytes == pad + part;
      dest := dest + part;
      assert (was + pad) + part == was + (pad + part);
      blockOffset := blockOffset + HEADER_SIZE + n;
    }
  }

  /** What is ahead of the loop: the rest of the append, or nothing. */
  ghost function Ahead(crc: Checksum, left: seq<Byte>, off: nat, begin: bool, fates: seq<Fate>, ok: bool, end: bool): Attempted
    requires off <= BLOCK_SIZE
  {
    if ok && !end then Attempt(crc, left, off, begin, fates) else Attempted([], off, ok)
  }

  /** The append is still to do what `now` says. */
  ghost predicate ToGo(goal: Attempted, was: seq<Byte>, dest: seq<Byte>, now: Attempted) {
    was + goal.bytes == dest + now.bytes && goal.off == now.off && goal.ok == now.ok
  }

  lemma Nearer(crc: Checksum, goal: Attempted, start: seq<Byte>, dest: seq<Byte>, left: seq<Byte>, off: nat, begin: bool,
               fates: seq<Fate>, n: nat, next: nat)
    requires off <= BLOCK_SIZE && n == FragmentLength(|left|, off) && next == HeaderAt(off) + HEADER_SIZE + n
    requires ToGo(goal, start, dest, Attempt(crc, left, off, begin, fates))
    ensures ToGo(goal, start, dest + Reaching(crc, left, off, begin, First(fates)),
                 Ahead(crc, left[n..], next, false, Others(fates), First(fates).Written?, n == |left|)) == true
  {
    var bytes := Reaching(crc, left, off, begin, First(fates));
    var now := Ahead(crc, left[n..], next, false, Others(fates), First(fates).Written?, n == |left|);
    assert bytes + [] == bytes;
    assert Attempt(crc, left, off, begin, fates) == Joined(bytes, now);
    assert (dest + bytes) + now.bytes == dest + (bytes + now.bytes);
  }

  lemma OffsetInBlock(n: nat, blocks: nat, off: nat)
    requires off <= BLOCK_SIZE && n == blocks * BLOCK_SIZE + off
    ensures n % BLOCK_SIZE == off % BLOCK_SIZE
  {}
}
