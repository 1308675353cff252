/** What a reader gets from a log cut off at any byte (db/log_writer against db/log_reader). */
module LogTruncation {
  import opened Coding
  import opened LogFormat
  import opened LogReader

  // ---- One piece ----

  ghost predicate Fits(p: nat, frag: seq<Byte>) {
    p % BLOCK_SIZE + HEADER_SIZE + |frag| <= BLOCK_SIZE
  }

  lemma PieceFields(crc: Checksum, kind: Byte, frag: seq<Byte>, buf: seq<Byte>)
    requires |frag| < 0x1_0000 && Piece(crc, kind, frag) <= buf
    ensures buf[4] == |frag| % 0x100 && buf[5] == |frag| / 0x100 && buf[6] == kind
    ensures Unmask(DecodeFixed32(buf)) == crc([kind] + frag)
    ensures buf[6..HEADER_SIZE + |frag|] == [kind] + frag
    ensures buf[HEADER_SIZE..HEADER_SIZE + |frag|] == frag
  {
    var c := crc([kind] + frag);
    var piece := Piece(crc, kind, frag);
    assert buf[..|piece|] == piece;
    assert buf == EncodeFixed32(Mask(c)) + buf[4..];
    Fixed32RoundTrip(Mask(c), buf[4..]);
    UnmaskMask(c);
    assert piece[6..] == [kind] + frag;
    assert buf[6..HEADER_SIZE + |frag|] == piece[6..];
    assert piece[HEADER_SIZE..] == frag;
  }

  /** A piece that is all there parses as itself, whatever follows it. */
  lemma PieceParses(crc: Checksum, kind: Byte, frag: seq<Byte>, buf: seq<Byte>, eof: bool)
    requires |frag| < 0x1_0000 && kind != ZERO_TYPE && Piece(crc, kind, frag) <= buf
    ensures Parse(crc, buf, eof) == Sound(kind, frag)
  {
    PieceFields(crc, kind, frag, buf);
    assert |frag| % 0x100 + 0x100 * (|frag| / 0x100) == |frag|;
  }

  lemma CutPieceParses(crc: Checksum, kind: Byte, frag: seq<Byte>, buf: seq<Byte>)
    requires |frag| < 0x1_0000 && buf <= Piece(crc, kind, frag)
    requires HEADER_SIZE <= |buf| < HEADER_SIZE + |frag|
    ensures Parse(crc, buf, true) == Cut
  {
    var piece := Piece(crc, kind, frag);
    assert buf[4] == piece[4] == |frag| % 0x100 && buf[5] == piece[5] == |frag| / 0x100;
    assert |frag| % 0x100 + 0x100 * (|frag| / 0x100) == |frag|;
  }

  lemma BlockEndOf(p: nat, frag: seq<Byte>)
    requires Fits(p, frag)
    ensures p + HEADER_SIZE + |frag| <= BlockEnd(p)
  {}

  lemma PieceRead(crc: Checksum, file: seq<Byte>, p: nat, kind: Byte, frag: seq<Byte>)
    requires Fits(p, frag) && kind != ZERO_TYPE
    requires p + HEADER_SIZE + |frag| <= |file|
    requires file[p..p + HEADER_SIZE + |frag|] == Piece(crc, kind, frag)
    ensures PhysicalAt(crc, file, p) == Rec(kind, frag, p + HEADER_SIZE + |frag|)
  {
    BlockEndOf(p, frag);
    var eof := |file| < BlockEnd(p);
    var e := if eof then |file| else BlockEnd(p);
    var buf := file[p..e];
    assert buf[..HEADER_SIZE + |frag|] == file[p..p + HEADER_SIZE + |frag|];
    PieceParses(crc, kind, frag, buf, eof);
    PhysicalIsParse(crc, file, p, e, eof);
  }

  lemma PieceCut(crc: Checksum, file: seq<Byte>, p: nat, kind: Byte, frag: seq<Byte>)
    requires Fits(p, frag)
    requires p <= |file| < p + HEADER_SIZE + |frag|
    requires file[p..] <= Piece(crc, kind, frag)
    ensures PhysicalAt(crc, file, p) == Eof
  {
    BlockEndOf(p, frag);
    if |file| - p >= HEADER_SIZE {
      assert file[p..|file|] == file[p..];
      CutPieceParses(crc, kind, frag, file[p..]);
      PhysicalIsParse(crc, file, p, |file|, true);
    }
  }

  /** Padding is skipped, whatever it holds. */
  lemma PaddingSkipped(crc: Checksum, file: seq<Byte>, p: nat)
    requires p <= |file|
    ensures var h := p + Padding(p % BLOCK_SIZE);
            PhysicalAt(crc, file, p) == if h <= |file| then PhysicalAt(crc, file, h) else Eof
  {
    if Padding(p % BLOCK_SIZE) != 0 {
      assert BlockEnd(p) == p + Padding(p % BLOCK_SIZE);
    }
  }

  // ---- One record ----

  /** Where the header of a fragment written at `p` goes, and where its next fragment starts. */
  lemma HeaderPosition(p: nat, left: nat)
    ensures var h := p + Padding(p % BLOCK_SIZE);
            var n := FragmentLength(left, p % BLOCK_SIZE);
            && h % BLOCK_SIZE == HeaderAt(p % BLOCK_SIZE)
            && (h + HEADER_SIZE + n) % BLOCK_SIZE == (HeaderAt(p % BLOCK_SIZE) + HEADER_SIZE + n) % BLOCK_SIZE
  {
    var r, q := p % BLOCK_SIZE, p / BLOCK_SIZE;
    assert p == q * BLOCK_SIZE + r;
    var n := FragmentLength(left, r);
    if Padding(r) != 0 {
      assert p + Padding(r) == (q + 1) * BLOCK_SIZE;
      OffsetInBlock((q + 1) * BLOCK_SIZE, q + 1, 0);
      OffsetInBlock((q + 1) * BLOCK_SIZE + (HEADER_SIZE + n), q + 1, HEADER_SIZE + n);
    } else {
      OffsetInBlock(q * BLOCK_SIZE + (r + HEADER_SIZE + n), q, r + HEADER_SIZE + n);
    }
  }

  /** The parts of one record written at `p`: padding, a piece that fits its block, and the rest. */
  lemma EmitParts(crc: Checksum, payload: seq<Byte>, p: nat, begin: bool)
    returns (h: nat, n: nat, piece: seq<Byte>, q: nat, rest: seq<Byte>)
    ensures n == FragmentLength(|payload|, p % BLOCK_SIZE)
    ensures h == p + Padding(p % BLOCK_SIZE) && q == h + HEADER_SIZE + n
    ensures Fits(h, payload[..n]) && piece == Piece(crc, Kind(begin, n == |payload|), payload[..n])
    ensures rest == if n == |payload| then [] else Emit(crc, payload[n..], q % BLOCK_SIZE, false)
    ensures Emit(crc, payload, p % BLOCK_SIZE, begin) == (Zeros(h - p) + piece) + rest
  {
    var off: nat;
    n, off, piece, rest := EmitSplit(crc, payload, p % BLOCK_SIZE, begin);
    h := p + Padding(p % BLOCK_SIZE);
    q := h + HEADER_SIZE + n;
    PieceFits(p, payload, n, h, q);
  }

  lemma PieceFits(p: nat, payload: seq<Byte>, n: nat, h: nat, q: nat)
    requires n == FragmentLength(|payload|, p % BLOCK_SIZE) && h == p + Padding(p % BLOCK_SIZE) && q == h + HEADER_SIZE + n
    ensures Fits(h, payload[..n]) && q % BLOCK_SIZE == (HeaderAt(p % BLOCK_SIZE) + HEADER_SIZE + n) % BLOCK_SIZE
  {
    HeaderPosition(p, |payload|);
  }

  lemma EmitSplit(crc: Checksum, payload: seq<Byte>, r: nat, begin: bool)
    returns (n: nat, off: nat, piece: seq<Byte>, rest: seq<Byte>)
    requires r <= BLOCK_SIZE
    ensures n == FragmentLength(|payload|, r) && off == HeaderAt(r) + HEADER_SIZE + n
    ensures piece == Piece(crc, Kind(begin, n == |payload|), payload[..n])
    ensures rest == if n == |payload| then [] else Emit(crc, payload[n..], off % BLOCK_SIZE, false)
    ensures Emit(crc, payload, r, begin) == (Zeros(Padding(r)) + piece) + rest
  {
    n := FragmentLength(|payload|, r);
    off := HeaderAt(r) + HEADER_SIZE + n;
    piece := Piece(crc, Kind(begin, n == |payload|), payload[..n]);
    rest := Remainder(crc, payload, n, off);
    RemainderWrapped(crc, payload, n, off);
    EmitTurn(crc, payload, r, begin);
  }

  lemma RemainderWrapped(crc: Checksum, payload: seq<Byte>, n: nat, off: nat)
    requires n <= |payload| && off <= BLOCK_SIZE
    ensures Remainder(crc, payload, n, off) == if n == |payload| then [] else Emit(crc, payload[n..], off % BLOCK_SIZE, false)
  {
    if n < |payload| {
      ReopenedWriterAgrees(crc, payload[n..], off, false);
    }
  }

  /** The parts of the file a record's parts occupy. */
  lemma SliceParts(file: seq<Byte>, p: nat, h: nat, q: nat, end: nat, pad: seq<Byte>, piece: seq<Byte>, rest: seq<Byte>)
    requires p <= h <= q && |pad| == h - p && |piece| == q - h
    requires end == q + |rest| <= |file| && file[p..end] == (pad + piece) + rest
    ensures file[h..q] == piece && file[q..end] == rest
  {
    var s := file[p..end];
    SliceOfSlice(file, p, end, h - p, q - p);
    SliceOfSlice(file, p, end, q - p, end - p);
    assert s[h - p..q - p] == piece;
    assert s[q - p..end - p] == rest;
  }

  lemma SliceOfSlice<T>(s: seq<T>, p: nat, end: nat, a: nat, b: nat)
    requires p <= end <= |s| && a <= b <= end - p
    ensures s[p..end][a..b] == s[p + a..p + b]
  {
    var x, y := s[p..end][a..b], s[p + a..p + b];
    assert |x| == |y| && forall i :: 0 <= i < |x| ==> x[i] == y[i];
  }

  lemma CutParts(file: seq<Byte>, p: nat, h: nat, q: nat, pad: seq<Byte>, piece: seq<Byte>, rest: seq<Byte>)
    requires p <= h <= q && |pad| == h - p && |piece| == q - h
    requires p <= |file| && file[p..] <= (pad + piece) + rest
    ensures h <= |file| < q ==> file[h..] <= piece
    ensures q <= |file| ==> file[h..q] == piece && file[q..] <= rest
  {
    var whole := (pad + piece) + rest;
    var s := file[p..];
    assert s == whole[..|s|];
    if h <= |file| < q {
      assert s[h - p..] == whole[h - p..|s|] == piece[..|file| - h];
      assert file[h..] == s[h - p..];
    }
    if q <= |file| {
      assert s[h - p..q - p] == whole[h - p..q - p] == piece;
      assert file[h..q] == s[h - p..q - p];
      assert s[q - p..] == whole[q - p..|s|] == rest[..|file| - q];
      assert file[q..] == s[q - p..];
    }
  }

  /** What a whole piece does to the reader: it ends the record, or its bytes join the scratch. */
  lemma PieceTaken(crc: Checksum, file: seq<Byte>, p: nat, begin: bool, end: bool, frag: seq<Byte>, q: nat,
                   scratch: seq<Byte>)
    requires p <= |file| && PhysicalAt(crc, file, p) == Rec(Kind(begin, end), frag, q)
    requires begin ==> scratch == []
    ensures Assemble(crc, file, p, !begin, scratch)
            == if end then Record(scratch + frag, q, 0) else Assemble(crc, file, q, true, scratch + frag)
  {
    assert [] + frag == frag;
    var a := React(Kind(begin, end), frag, !begin, scratch);
    assert a == if end then Yield(scratch + frag, 0) else Continue(true, scratch + frag, 0);
    assert Assemble(crc, file, p, !begin, scratch) == Resume(crc, file, p, q, a, 0);
  }

  lemma EofTaken(crc: Checksum, file: seq<Byte>, p: nat, inside: bool, scratch: seq<Byte>)
    requires p <= |file| && PhysicalAt(crc, file, p) == Eof
    ensures Assemble(crc, file, p, inside, scratch) == Done(0)
  {}

  /** The padding and the piece at `p`, read. */
  lemma PaddedPieceRead(crc: Checksum, file: seq<Byte>, p: nat, h: nat, q: nat, kind: Byte, frag: seq<Byte>)
    requires h == p + Padding(p % BLOCK_SIZE) && q == h + HEADER_SIZE + |frag| <= |file|
    requires Fits(h, frag) && FULL <= kind <= LAST && file[h..q] == Piece(crc, kind, frag)
    ensures PhysicalAt(crc, file, p) == Rec(kind, frag, q)
  {
    PaddingSkipped(crc, file, p);
    PieceRead(crc, file, h, kind, frag);
  }

  lemma PaddedPieceCut(crc: Checksum, file: seq<Byte>, p: nat, h: nat, q: nat, kind: Byte, frag: seq<Byte>)
    requires h == p + Padding(p % BLOCK_SIZE) && q == h + HEADER_SIZE + |frag|
    requires p <= |file| < q && Fits(h, frag)
    requires h <= |file| ==> file[h..] <= Piece(crc, kind, frag)
    ensures PhysicalAt(crc, file, p) == Eof
  {
    PaddingSkipped(crc, file, p);
    if h <= |file| {
      PieceCut(crc, file, h, kind, frag);
    }
  }

  /** A record that is all there is read back, with no report. */
  lemma {:induction false} RecordRead(crc: Checksum, file: seq<Byte>, payload: seq<Byte>, p: nat, begin: bool,
                                      scratch: seq<Byte>, e: seq<Byte>)
    requires begin ==> scratch == []
    requires e == Emit(crc, payload, p % BLOCK_SIZE, begin)
    requires p + |e| <= |file| && file[p..p + |e|] == e
    ensures Assemble(crc, file, p, !begin, scratch) == Record(scratch + payload, p + |e|, 0)
    decreases |payload|, if FragmentLength(|payload|, p % BLOCK_SIZE) == 0 then 1 else 0
  {
    var h, n, piece, q, rest := EmitParts(crc, payload, p, begin);
    var frag := payload[..n];
    SliceParts(file, p, h, q, p + |e|, Zeros(h - p), piece, rest);
    PaddedPieceRead(crc, file, p, h, q, Kind(begin, n == |payload|), frag);
    PieceTaken(crc, file, p, begin, n == |payload|, frag, q, scratch);
    if n == |payload| {
      assert frag == payload;
    } else {
      NextTurn(|payload|, p, n, q);
      assert file[q..q + |rest|] == rest;
      RecordRead(crc, file, payload[n..], q, false, scratch + frag, rest);
      Rejoin(scratch, payload, n);
    }
  }

  lemma Rejoin(scratch: seq<Byte>, payload: seq<Byte>, n: nat)
    requires n <= |payload|
    ensures (scratch + payload[..n]) + payload[n..] == scratch + payload
  {}

  /** Each turn of the fragmentation loop brings a record nearer its end. */
  lemma NextTurn(left: nat, p: nat, n: nat, q: nat)
    requires n == FragmentLength(left, p % BLOCK_SIZE) < left
    requires q == p + Padding(p % BLOCK_SIZE) + HEADER_SIZE + n
    ensures n == 0 ==> FragmentLength(left, q % BLOCK_SIZE) > 0
  {
    HeaderPosition(p, left);
  }

  /** A record cut anywhere is ignored, with no report. */
  lemma {:induction false} RecordCut(crc: Checksum, file: seq<Byte>, payload: seq<Byte>, p: nat, begin: bool,
                                     scratch: seq<Byte>, e: seq<Byte>)
    requires begin ==> scratch == []
    requires e == Emit(crc, payload, p % BLOCK_SIZE, begin)
    requires p <= |file| < p + |e| && file[p..] <= e
    ensures Assemble(crc, file, p, !begin, scratch) == Done(0)
    decreases |payload|, if FragmentLength(|payload|, p % BLOCK_SIZE) == 0 then 1 else 0
  {
    var h, n, piece, q, rest := EmitParts(crc, payload, p, begin);
    var frag := payload[..n];
    CutParts(file, p, h, q, Zeros(h - p), piece, rest);
    if |file| < q {
      PaddedPieceCut(crc, file, p, h, q, Kind(begin, n == |payload|), frag);
      EofTaken(crc, file, p, !begin, scratch);
    } else {
      PaddedPieceRead(crc, file, p, h, q, Kind(begin, n == |payload|), frag);
      PieceTaken(crc, file, p, begin, n == |payload|, frag, q, scratch);
      NextTurn(|payload|, p, n, q);
      RecordCut(crc, file, payload[n..], q, false, scratch + frag, rest);
    }
  }

  // ---- The whole log ----

  /** A record read at `p` comes before what is read after it. */
  lemma ReadThenRest(crc: Checksum, file: seq<Byte>, p: nat, record: seq<Byte>, q: nat, rest: seq<seq<Byte>>)
    requires p <= |file| && q <= |file|
    requires Assemble(crc, file, p, false, []) == Record(record, q, 0)
    requires ReadAll(crc, file, q) == (rest, 0)
    ensures ReadAll(crc, file, p) == ([record] + rest, 0)
  {
    ReadAllStep(crc, file, p);
  }

  lemma ReadNothing(crc: Checksum, file: seq<Byte>, p: nat)
    requires p <= |file| && Assemble(crc, file, p, false, []) == Done(0)
    ensures ReadAll(crc, file, p) == ([], 0)
  {
    ReadAllStep(crc, file, p);
  }

  lemma EndOfFile(crc: Checksum, file: seq<Byte>)
    ensures Assemble(crc, file, |file|, false, []) == Done(0)
  {}

  lemma WholeRecordsCons(crc: Checksum, records: seq<seq<Byte>>, p: nat, q: nat, n: nat)
    requires records != [] && q == p + |RecordBytes(crc, records[0], p)|
    ensures WholeRecords(crc, records, p, n) == if q > n then 0 else 1 + WholeRecords(crc, records[1..], q, n)
  {}

  lemma FirstOf<T>(s: seq<T>, k: nat)
    requires k < |s|
    ensures [s[0]] + s[1..][..k] == s[..k + 1]
  {}

  lemma {:induction false} PrefixRead(crc: Checksum, records: seq<seq<Byte>>, p: nat, file: seq<Byte>)
    requires p <= |file| && file[p..] <= LogFrom(crc, records, p)
    ensures ReadAll(crc, file, p) == (records[..WholeRecords(crc, records, p, |file|)], 0)
  {
    if records == [] {
      assert |file| == p;
      EndOfFile(crc, file);
      ReadNothing(crc, file, p);
    } else {
      var e := RecordBytes(crc, records[0], p);
      var q := p + |e|;
      LogCons(crc, records, p);
      WholeRecordsCons(crc, records, p, q, |file|);
      HeadAndTail(file, p, e, LogFrom(crc, records[1..], q));
      if |file| < q {
        RecordCut(crc, file, records[0], p, true, [], e);
        ReadNothing(crc, file, p);
      } else {
        RecordRead(crc, file, records[0], p, true, [], e);
        assert [] + records[0] == records[0];
        PrefixRead(crc, records[1..], q, file);
        var k := WholeRecords(crc, records[1..], q, |file|);
        ReadThenRest(crc, file, p, records[0], q, records[1..][..k]);
        FirstOf(records, k);
      }
    }
  }

  lemma HeadAndTail(file: seq<Byte>, p: nat, e: seq<Byte>, rest: seq<Byte>)
    requires p <= |file| && file[p..] <= e + rest
    ensures |file| < p + |e| ==> file[p..] <= e
    ensures p + |e| <= |file| ==> file[p..p + |e|] == e && file[p + |e|..] <= rest
  {
    var s := file[p..];
    assert s == (e + rest)[..|s|];
    if |file| < p + |e| {
      assert s == e[..|s|];
    } else {
      assert file[p..p + |e|] == s[..|e|] == (e + rest)[..|e|];
      assert file[p + |e|..] == s[|e|..] == (e + rest)[|e|..|s|] == rest[..|s| - |e|];
    }
  }

  /** For every list of records and every length `n`, reading the first `n` bytes of the log returns exactly
      the records lying wholly within them, in order, and reports no corruption. */
  lemma TruncationSafe(crc: Checksum, records: seq<seq<Byte>>, n: nat)
    requires n <= |LogFrom(crc, records, 0)|
    ensures ReadAll(crc, LogFrom(crc, records, 0)[..n], 0) == (records[..WholeRecords(crc, records, 0, n)], 0)
  {
    var file := LogFrom(crc, records, 0)[..n];
    assert file[0..] == file;
    PrefixRead(crc, records, 0, file);
  }

  /** Uncut, everything comes back. */
  lemma {:induction false} AllWhole(crc: Checksum, records: seq<seq<Byte>>, p: nat, n: nat)
    requires p + |LogFrom(crc, records, p)| <= n
    ensures WholeRecords(crc, records, p, n) == |records|
  {
    if records != [] {
      LogCons(crc, records, p);
      AllWhole(crc, records[1..], p + |RecordBytes(crc, records[0], p)|, n);
    }
  }

  /** Write records with a writer that is reopened after each one, cut the file, read it. */
  method WriteCutRead(crc: Checksum, records: seq<seq<Byte>>, cut: nat) returns (back: seq<seq<Byte>>, reports: nat)
    ensures reports == 0
    ensures back == records[..WholeRecords(crc, records, 0, cut)]
  {
    var file: seq<Byte> := [];
    for i := 0 to |records|
      invariant file == LogFrom(crc, records[..i], 0)
    {
      var writer := new Writer(crc, file);
      var ok := writer.AddRecord(records[i], []);
      LogAppend(crc, records[..i], records[i], 0, |file|);
      assert records[..i + 1] == records[..i] + [records[i]];
      file := writer.dest;
    }
    assert records[..|records|] == records;
    var n := if cut < |file| then cut else |file|;
    back, reports := ReadLog(crc, file[..n]);
    TruncationSafe(crc, records, n);
    CutBeyondEnd(crc, records, 0, cut, n);
  }

  lemma CutBeyondEnd(crc: Checksum, records: seq<seq<Byte>>, p: nat, cut: nat, n: nat)
    requires n == if cut < p + |LogFrom(crc, records, p)| then cut else p + |LogFrom(crc, records, p)|
    ensures WholeRecords(crc, records, p, cut) == WholeRecords(crc, records, p, n)
  {
    if n != cut {
      AllWhole(crc, records, p, cut);
      AllWhole(crc, records, p, n);
    }
  }
}
