/** What a reader gets back from a log some of whose appends failed (db/log_writer against db/log_reader).

    A failed append does not stop the writer, and the writer goes on as if the fragment were there: from then on it may
    be elsewhere in its block than the file is.  Later appends are acknowledged all the same.
 */
module LogFailures {
  import opened Coding
  import opened LogFormat
  import opened LogReader
  import opened LogTruncation
  import opened LogKinds

  datatype Append = Append(record: seq<Byte>, fates: seq<Fate>)

  /** The bytes a list of appends leaves, where the writer then thinks it stands, and what each reported. */
  datatype Outcome = Outcome(bytes: seq<Byte>, off: nat, acks: seq<bool>)

  function Logged(crc: Checksum, appends: seq<Append>, off: nat): (r: Outcome)
    requires off <= BLOCK_SIZE
    ensures r.off <= BLOCK_SIZE && |r.acks| == |appends|
  {
    if appends == [] then Outcome([], off, [])
    else
      var a := Attempt(crc, appends[0].record, off, true, appends[0].fates);
      var rest := Logged(crc, appends[1..], a.off);
      Outcome(a.bytes + rest.bytes, rest.off, [a.ok] + rest.acks)
  }

  /** Append them one after the other with one writer. */
  method WriteAll(crc: Checksum, appends: seq<Append>) returns (file: seq<Byte>, acks: seq<bool>)
    ensures file == Logged(crc, appends, 0).bytes && acks == Logged(crc, appends, 0).acks
  {
    var writer := new Writer(crc, []);
    ghost var goal := Logged(crc, appends, 0);
    acks := [];
    assert appends[0..] == appends;
    for i := 0 to |appends|
      invariant writer.Valid() && fresh(writer) && writer.crc == crc
      invariant Remains(goal, writer.dest, acks, Logged(crc, appends[i..], writer.blockOffset)) == true
    {
      ghost var was, off := writer.dest, writer.blockOffset;
      assert appends[i..][0] == appends[i] && appends[i..][1..] == appends[i + 1..];
      var ok := writer.AddRecord(appends[i].record, appends[i].fates);
      OneAppended(crc, appends[i..], off, goal, was, acks);
      acks := acks + [ok];
    }
    file := writer.dest;
  }

  /** `now` is still to come. */
  ghost predicate Remains(goal: Outcome, dest: seq<Byte>, acks: seq<bool>, now: Outcome) {
    goal.bytes == dest + now.bytes && goal.acks == acks + now.acks
  }

  lemma OneAppended(crc: Checksum, appends: seq<Append>, off: nat, goal: Outcome, dest: seq<Byte>, acks: seq<bool>)
    requires appends != [] && off <= BLOCK_SIZE && Remains(goal, dest, acks, Logged(crc, appends, off))
    ensures var a := Attempt(crc, appends[0].record, off, true, appends[0].fates);
      Remains(goal, dest + a.bytes, acks + [a.ok], Logged(crc, appends[1..], a.off)) == true
  {
    var a := Attempt(crc, appends[0].record, off, true, appends[0].fates);
    var rest := Logged(crc, appends[1..], a.off);
    OneDone(dest, a.bytes, rest.bytes);
    assert acks + ([a.ok] + rest.acks) == (acks + [a.ok]) + rest.acks;
  }

  lemma OneDone(was: seq<Byte>, bytes: seq<Byte>, rest: seq<Byte>)
    ensures was + (bytes + rest) == (was + bytes) + rest
  {}

  function Records(appends: seq<Append>): (r: seq<seq<Byte>>)
    ensures |r| == |appends| && forall i :: 0 <= i < |r| ==> r[i] == appends[i].record
  {
    seq(|appends|, i requires 0 <= i < |appends| => appends[i].record)
  }

  // ---- What comes before the first failure ----

  /** Records that stand whole at the start of a file are read first, whatever follows them. */
  lemma {:induction false} StartIsRead(crc: Checksum, records: seq<seq<Byte>>, p: nat, file: seq<Byte>, rest: seq<Byte>, end: nat)
    requires p <= |file| && file[p..] == LogFrom(crc, records, p) + rest && end == p + |LogFrom(crc, records, p)|
    ensures ReadAll(crc, file, p) == (records + ReadAll(crc, file, end).0, ReadAll(crc, file, end).1)
  {
    if records == [] {
      assert records + ReadAll(crc, file, p).0 == ReadAll(crc, file, p).0;
    } else {
      var e := RecordBytes(crc, records[0], p);
      var q, more := p + |e|, LogFrom(crc, records[1..], p + |e|);
      LogCons(crc, records, p);
      HeadOf(file, p, e, more, rest);
      FirstIsRead(crc, file, records[0], p, e);
      assert file[q..] == more + rest && end == q + |more|;
      StartIsRead(crc, records[1..], q, file, rest, end);
      OneMoreRead(crc, file, p, q, records, ReadAll(crc, file, end));
    }
  }

  lemma FirstIsRead(crc: Checksum, file: seq<Byte>, record: seq<Byte>, p: nat, e: seq<Byte>)
    requires e == RecordBytes(crc, record, p) && p + |e| <= |file| && file[p..p + |e|] == e
    ensures Assemble(crc, file, p, false, []) == Record(record, p + |e|, 0)
  {
    RecordRead(crc, file, record, p, true, [], e);
    assert [] + record == record;
  }

  lemma OneMoreRead(crc: Checksum, file: seq<Byte>, p: nat, q: nat, records: seq<seq<Byte>>, rest: (seq<seq<Byte>>, nat))
    requires p <= |file| && q <= |file| && records != []
    requires Assemble(crc, file, p, false, []) == Record(records[0], q, 0)
    requires ReadAll(crc, file, q) == (records[1..] + rest.0, rest.1)
    ensures ReadAll(crc, file, p) == (records + rest.0, rest.1)
  {
    ReadAllStep(crc, file, p);
    assert [records[0]] + (records[1..] + rest.0) == records + rest.0;
  }

  lemma HeadOf(file: seq<Byte>, p: nat, e: seq<Byte>, more: seq<Byte>, rest: seq<Byte>)
    requires p <= |file| && file[p..] == (e + more) + rest
    ensures p + |e| <= |file| && file[p..p + |e|] == e && file[p + |e|..] == more + rest
  {
    var s := file[p..];
    assert s == e + (more + rest);
    assert file[p..p + |e|] == s[..|e|] && file[p + |e|..] == s[|e|..];
  }

  predicate AllSoundUpTo(appends: seq<Append>, n: nat)
    requires n <= |appends|
  {
    forall i :: 0 <= i < n ==> AllSound(appends[i].fates)
  }

  /** As long as nothing fails the bytes are those of the records. */
  lemma {:induction false} SoundStart(crc: Checksum, appends: seq<Append>, n: nat, off: nat, p: nat) returns (rest: seq<Byte>)
    requires off <= BLOCK_SIZE && p % BLOCK_SIZE == off % BLOCK_SIZE && n <= |appends| && AllSoundUpTo(appends, n)
    ensures Logged(crc, appends, off).bytes == LogFrom(crc, Records(appends)[..n], p) + rest
  {
    if n == 0 {
      rest := Logged(crc, appends, off).bytes;
      assert [] + rest == rest;
    } else {
      var a := Attempt(crc, appends[0].record, off, true, appends[0].fates);
      var e := RecordBytes(crc, appends[0].record, p);
      SoundRecord(crc, appends[0].record, off, p, appends[0].fates);
      rest := SoundStart(crc, appends[1..], n - 1, a.off, p + |e|);
      OneLogged(crc, appends, off, a);
      SoundStep(crc, appends, n, p, e, Logged(crc, appends[1..], a.off).bytes, rest);
    }
  }

  lemma SoundStep(crc: Checksum, appends: seq<Append>, n: nat, p: nat, e: seq<Byte>, more: seq<Byte>, rest: seq<Byte>)
    requires 0 < n <= |appends| && e == RecordBytes(crc, appends[0].record, p)
    requires more == LogFrom(crc, Records(appends[1..])[..n - 1], p + |e|) + rest
    ensures e + more == LogFrom(crc, Records(appends)[..n], p) + rest
  {
    RecordsMore(appends, n);
    var rs := Records(appends)[..n];
    assert e == RecordBytes(crc, rs[0], p);
    SoundMore(crc, rs, rs[1..], p, e, more, rest);
  }

  lemma OneLogged(crc: Checksum, appends: seq<Append>, off: nat, a: Attempted)
    requires appends != [] && off <= BLOCK_SIZE && a == Attempt(crc, appends[0].record, off, true, appends[0].fates)
    ensures Logged(crc, appends, off).bytes == a.bytes + Logged(crc, appends[1..], a.off).bytes
  {}

  lemma {:induction false} SoundAcked(crc: Checksum, appends: seq<Append>, n: nat, off: nat)
    requires off <= BLOCK_SIZE && n <= |appends| && AllSoundUpTo(appends, n)
    ensures forall i :: 0 <= i < n ==> Logged(crc, appends, off).acks[i]
  {
    if n > 0 {
      var a := Attempt(crc, appends[0].record, off, true, appends[0].fates);
      SoundAttempt(crc, appends[0].record, off, true, appends[0].fates);
      SoundAcked(crc, appends[1..], n - 1, a.off);
      SoundAcks(crc, appends, n, off);
    }
  }

  lemma RecordsMore(appends: seq<Append>, n: nat)
    requires 0 < n <= |appends|
    ensures var rs := Records(appends)[..n];
      rs != [] && rs[0] == appends[0].record && rs[1..] == Records(appends[1..])[..n - 1]
  {}

  lemma SoundMore(crc: Checksum, records: seq<seq<Byte>>, others: seq<seq<Byte>>, p: nat, e: seq<Byte>, more: seq<Byte>, rest: seq<Byte>)
    requires records != [] && records[1..] == others && e == RecordBytes(crc, records[0], p)
    requires more == LogFrom(crc, others, p + |e|) + rest
    ensures e + more == LogFrom(crc, records, p) + rest
  {
    LogCons(crc, records, p);
    OneDone(e, LogFrom(crc, others, p + |e|), rest);
  }

  lemma SoundAcks(crc: Checksum, appends: seq<Append>, n: nat, off: nat)
    requires off <= BLOCK_SIZE && 0 < n <= |appends| && Attempt(crc, appends[0].record, off, true, appends[0].fates).ok
    requires var a := Attempt(crc, appends[0].record, off, true, appends[0].fates);
      forall i :: 0 <= i < n - 1 ==> Logged(crc, appends[1..], a.off).acks[i]
    ensures forall i :: 0 <= i < n ==> Logged(crc, appends, off).acks[i]
  {
    var a := Attempt(crc, appends[0].record, off, true, appends[0].fates);
    var rest := Logged(crc, appends[1..], a.off).acks;
    forall i | 0 <= i < n ensures Logged(crc, appends, off).acks[i] {
      assert Logged(crc, appends, off).acks == [true] + rest;
      if i > 0 {
        assert rest[i - 1];
      }
    }
  }

  /** The records appended before anything failed come back first, whatever fails after them and however. */
  lemma BeforeFirstFailure(crc: Checksum, appends: seq<Append>, n: nat)
    requires n <= |appends| && AllSoundUpTo(appends, n)
    ensures Records(appends)[..n] <= ReadAll(crc, Logged(crc, appends, 0).bytes, 0).0
    ensures forall i :: 0 <= i < n ==> Logged(crc, appends, 0).acks[i]
  {
    var file := Logged(crc, appends, 0).bytes;
    var rest := SoundStart(crc, appends, n, 0, 0);
    SoundAcked(crc, appends, n, 0);
    assert file[0..] == file;
    StartIsRead(crc, Records(appends)[..n], 0, file, rest, |LogFrom(crc, Records(appends)[..n], 0)|);
  }

  // ---- Failures that leave everything ----

  /** The fragment reaches the file whole, whatever is reported. */
  predicate Arrives(f: Fate) {
    f.trailer >= HEADER_SIZE && (f.Broken? ==> f.piece >= BLOCK_SIZE)
  }

  predicate AllArrive(fates: seq<Fate>) {
    forall f :: f in fates ==> Arrives(f)
  }

  /** Is every fragment of the record attempted? */
  predicate Whole(payload: seq<Byte>, off: nat, fates: seq<Fate>)
    requires off <= BLOCK_SIZE
    decreases |payload|, if FragmentLength(|payload|, off) == 0 then 1 else 0
  {
    var n := FragmentLength(|payload|, off);
    n == |payload| || (!First(fates).Broken? && Whole(payload[n..], HeaderAt(off) + HEADER_SIZE + n, Others(fates)))
  }

  /** How many bytes of the record are in the fragments attempted. */
  function Reached(payload: seq<Byte>, off: nat, fates: seq<Fate>): (k: nat)
    requires off <= BLOCK_SIZE
    ensures k <= |payload|
    decreases |payload|, if FragmentLength(|payload|, off) == 0 then 1 else 0
  {
    var n := FragmentLength(|payload|, off);
    if n == |payload| || First(fates).Broken? then n
    else n + Reached(payload[n..], HeaderAt(off) + HEADER_SIZE + n, Others(fates))
  }

  /** A writer at the end of a block is one at the start of the next. */
  lemma Wrapped(crc: Checksum, payload: seq<Byte>, off: nat, begin: bool, fates: seq<Fate>)
    requires off <= BLOCK_SIZE
    ensures Attempt(crc, payload, off, begin, fates) == Attempt(crc, payload, off % BLOCK_SIZE, begin, fates)
    ensures Whole(payload, off, fates) == Whole(payload, off % BLOCK_SIZE, fates)
    ensures Reached(payload, off, fates) == Reached(payload, off % BLOCK_SIZE, fates)
  {
    if off == BLOCK_SIZE {
      SamePlace(|payload|);
      assert Reaching(crc, payload, BLOCK_SIZE, begin, First(fates)) == Reaching(crc, payload, 0, begin, First(fates));
    } else {
      assert off % BLOCK_SIZE == off;
    }
  }

  lemma AckedIsWhole(crc: Checksum, payload: seq<Byte>, off: nat, begin: bool, fates: seq<Fate>)
    requires off <= BLOCK_SIZE && Attempt(crc, payload, off, begin, fates).ok
    ensures Whole(payload, off, fates)
    decreases |payload|, if FragmentLength(|payload|, off) == 0 then 1 else 0
  {
    var n := FragmentLength(|payload|, off);
    if n < |payload| {
      AckedIsWhole(crc, payload[n..], HeaderAt(off) + HEADER_SIZE + n, false, Others(fates));
    }
  }

  /** One turn of an append whose fragments arrive. */
  lemma ArrivedTried(crc: Checksum, payload: seq<Byte>, off: nat, begin: bool, fates: seq<Fate>, n: nat, next: nat)
    requires off <= BLOCK_SIZE && AllArrive(fates) && n == FragmentLength(|payload|, off) && next == HeaderAt(off) + HEADER_SIZE + n
    ensures var part := Zeros(Padding(off)) + Piece(crc, Kind(begin, n == |payload|), payload[..n]);
      var r := Attempt(crc, payload, off, begin, fates);
      if n == |payload| || First(fates).Broken? then r.bytes == part && r.off == next
      else r == Joined(part, Attempt(crc, payload[n..], next, false, Others(fates)))
    ensures n < |payload| && !First(fates).Broken? ==>
              && Whole(payload, off, fates) == Whole(payload[n..], next, Others(fates))
              && Reached(payload, off, fates) == n + Reached(payload[n..], next, Others(fates))
  {
    ArrivedReaching(crc, payload, off, begin, First(fates));
  }

  /** The parts of one append at `p`: padding, a piece that fits its block, and the rest. */
  lemma AttemptParts(crc: Checksum, payload: seq<Byte>, p: nat, begin: bool, fates: seq<Fate>, r: Attempted)
    returns (h: nat, n: nat, piece: seq<Byte>, q: nat, rest: Attempted)
    requires AllArrive(fates) && r == Attempt(crc, payload, p % BLOCK_SIZE, begin, fates)
    ensures n == FragmentLength(|payload|, p % BLOCK_SIZE)
    ensures h == p + Padding(p % BLOCK_SIZE) && q == h + HEADER_SIZE + n == h + |piece|
    ensures Fits(h, payload[..n]) && piece == Piece(crc, Kind(begin, n == |payload|), payload[..n])
    ensures r.bytes == (Zeros(h - p) + piece) + rest.bytes && r.off == rest.off
    ensures if n == |payload| || First(fates).Broken? then rest.bytes == [] && rest.off % BLOCK_SIZE == q % BLOCK_SIZE
            else rest == Attempt(crc, payload[n..], q % BLOCK_SIZE, false, Others(fates))
    ensures n < |payload| && !First(fates).Broken? ==>
              && Whole(payload, p % BLOCK_SIZE, fates) == Whole(payload[n..], q % BLOCK_SIZE, Others(fates))
              && Reached(payload, p % BLOCK_SIZE, fates) == n + Reached(payload[n..], q % BLOCK_SIZE, Others(fates))
  {
    var off := p % BLOCK_SIZE;
    n := FragmentLength(|payload|, off);
    h := p + Padding(off);
    q := h + HEADER_SIZE + n;
    piece := Piece(crc, Kind(begin, n == |payload|), payload[..n]);
    PieceFits(p, payload, n, h, q);
    rest := AttemptRest(crc, payload, off, begin, fates, n, q % BLOCK_SIZE, r);
  }

  /** What is left after the first piece; `off'` is where that ends in its block. */
  lemma AttemptRest(crc: Checksum, payload: seq<Byte>, off: nat, begin: bool, fates: seq<Fate>, n: nat, off': nat, r: Attempted)
    returns (rest: Attempted)
    requires off <= BLOCK_SIZE && off' < BLOCK_SIZE && AllArrive(fates) && n == FragmentLength(|payload|, off)
    requires r == Attempt(crc, payload, off, begin, fates) && off' == (HeaderAt(off) + HEADER_SIZE + n) % BLOCK_SIZE
    ensures r.bytes == (Zeros(Padding(off)) + Piece(crc, Kind(begin, n == |payload|), payload[..n])) + rest.bytes && r.off == rest.off
    ensures if n == |payload| || First(fates).Broken? then rest.bytes == [] && rest.off % BLOCK_SIZE == off'
            else rest == Attempt(crc, payload[n..], off', false, Others(fates))
    ensures n < |payload| && !First(fates).Broken? ==>
              && Whole(payload, off, fates) == Whole(payload[n..], off', Others(fates))
              && Reached(payload, off, fates) == n + Reached(payload[n..], off', Others(fates))
  {
    var next := HeaderAt(off) + HEADER_SIZE + n;
    ArrivedTried(crc, payload, off, begin, fates, n, next);
    if n == |payload| || First(fates).Broken? {
      rest := Attempted([], next, true);
    } else {
      Wrapped(crc, payload[n..], next, false, Others(fates));
      rest := Attempt(crc, payload[n..], off', false, Others(fates));
    }
  }

  lemma ArrivedReaching(crc: Checksum, payload: seq<Byte>, off: nat, begin: bool, fate: Fate)
    requires off <= BLOCK_SIZE && Arrives(fate)
    ensures var n := FragmentLength(|payload|, off);
      Reaching(crc, payload, off, begin, fate) == Zeros(Padding(off)) + Piece(crc, Kind(begin, n == |payload|), payload[..n])
  {}

  /** From `p` on the reader reads the record, or what there is of it joins its scratch, and goes on at `q`. */
  ghost predicate ReadOrJoined(crc: Checksum, file: seq<Byte>, p: nat, q: nat, inside: bool, scratch: seq<Byte>,
                               payload: seq<Byte>, whole: bool, k: nat)
  {
    && p <= |file| && q <= |file| && k <= |payload|
    && Assemble(crc, file, p, inside, scratch)
       == if whole then Record(scratch + payload, q, 0) else Assemble(crc, file, q, true, scratch + payload[..k])
  }

  /** What an append whose fragments all arrived does to the reader: it is read, or its bytes join the scratch. */
  lemma {:induction false} ArrivedRead(crc: Checksum, file: seq<Byte>, payload: seq<Byte>, p: nat, off: nat, begin: bool,
                                       scratch: seq<Byte>, fates: seq<Fate>, r: Attempted, end: nat, whole: bool, k: nat)
    requires off == p % BLOCK_SIZE && (begin ==> scratch == []) && AllArrive(fates)
    requires r == Attempt(crc, payload, off, begin, fates) && end == p + |r.bytes| <= |file| && file[p..end] == r.bytes
    requires whole == Whole(payload, off, fates) && k == Reached(payload, off, fates)
    ensures ReadOrJoined(crc, file, p, end, !begin, scratch, payload, whole, k) == true
    decreases |payload|, if FragmentLength(|payload|, off) == 0 then 1 else 0
  {
    var h, n, piece, q, rest := AttemptParts(crc, payload, p, begin, fates, r);
    LaidOut(file, p, h, q, end, piece, r.bytes, rest.bytes);
    if n < |payload| && !First(fates).Broken? {
      NextTurn(|payload|, p, n, q);
      ArrivedRead(crc, file, payload[n..], q, q % BLOCK_SIZE, false, scratch + payload[..n], Others(fates), rest, end, whole, k - n);
      ArrivedJoin(crc, file, p, h, q, end, begin, scratch, payload, n, whole, k);
    } else {
      ArrivedLast(crc, file, p, off, h, q, begin, scratch, payload, fates, n, whole, k);
    }
  }

  lemma ArrivedLast(crc: Checksum, file: seq<Byte>, p: nat, off: nat, h: nat, q: nat, begin: bool, scratch: seq<Byte>,
                    payload: seq<Byte>, fates: seq<Fate>, n: nat, whole: bool, k: nat)
    requires off == p % BLOCK_SIZE && n == FragmentLength(|payload|, off) && (n == |payload| || First(fates).Broken?)
    requires h == p + Padding(off) && q == h + HEADER_SIZE + n <= |file| && (begin ==> scratch == [])
    requires Fits(h, payload[..n]) && file[h..q] == Piece(crc, Kind(begin, n == |payload|), payload[..n])
    requires whole == Whole(payload, off, fates) && k == Reached(payload, off, fates)
    ensures ReadOrJoined(crc, file, p, q, !begin, scratch, payload, whole, k) == true
  {
    LastTried(payload, off, fates, n);
    PieceJoined(crc, file, p, h, q, begin, scratch, payload, n);
  }

  lemma ArrivedJoin(crc: Checksum, file: seq<Byte>, p: nat, h: nat, q: nat, end: nat, begin: bool, scratch: seq<Byte>,
                    payload: seq<Byte>, n: nat, whole: bool, k: nat)
    requires n < |payload| && n <= k && h == p + Padding(p % BLOCK_SIZE) && q == h + HEADER_SIZE + n <= |file| && (begin ==> scratch == [])
    requires Fits(h, payload[..n]) && file[h..q] == Piece(crc, Kind(begin, false), payload[..n])
    requires ReadOrJoined(crc, file, q, end, true, scratch + payload[..n], payload[n..], whole, k - n) == true
    ensures ReadOrJoined(crc, file, p, end, !begin, scratch, payload, whole, k) == true
  {
    PieceJoined(crc, file, p, h, q, begin, scratch, payload, n);
    JoinedRead(crc, file, p, q, end, !begin, scratch, payload, n, whole, k - n);
  }

  lemma LaidOut(file: seq<Byte>, p: nat, h: nat, q: nat, end: nat, piece: seq<Byte>, e: seq<Byte>, rest: seq<Byte>)
    requires p <= h && q == h + |piece| && e == (Zeros(h - p) + piece) + rest && end == p + |e| <= |file| && file[p..end] == e
    ensures end == q + |rest| && file[h..q] == piece && file[q..end] == rest
  {
    SliceParts(file, p, h, q, end, Zeros(h - p), piece, rest);
  }

  /** After it the writer is in its block where the file is. */
  lemma {:induction false} ArrivedEnds(crc: Checksum, payload: seq<Byte>, p: nat, begin: bool, fates: seq<Fate>, r: Attempted, end: nat)
    requires AllArrive(fates) && r == Attempt(crc, payload, p % BLOCK_SIZE, begin, fates) && end == p + |r.bytes|
    ensures end % BLOCK_SIZE == r.off % BLOCK_SIZE
    decreases |payload|, if FragmentLength(|payload|, p % BLOCK_SIZE) == 0 then 1 else 0
  {
    var h, n, piece, q, rest := AttemptParts(crc, payload, p, begin, fates, r);
    assert end == q + |rest.bytes|;
    if n < |payload| && !First(fates).Broken? {
      NextTurn(|payload|, p, n, q);
      ArrivedEnds(crc, payload[n..], q, false, Others(fates), rest, end);
    }
  }

  lemma PieceJoined(crc: Checksum, file: seq<Byte>, p: nat, h: nat, q: nat, begin: bool, scratch: seq<Byte>, payload: seq<Byte>, n: nat)
    requires n <= |payload| && h == p + Padding(p % BLOCK_SIZE) && q == h + HEADER_SIZE + n <= |file| && (begin ==> scratch == [])
    requires Fits(h, payload[..n]) && file[h..q] == Piece(crc, Kind(begin, n == |payload|), payload[..n])
    ensures ReadOrJoined(crc, file, p, q, !begin, scratch, payload, n == |payload|, n) == true
  {
    PaddedPieceRead(crc, file, p, h, q, Kind(begin, n == |payload|), payload[..n]);
    PieceTaken(crc, file, p, begin, n == |payload|, payload[..n], q, scratch);
    assert n == |payload| ==> payload[..n] == payload;
  }

  lemma JoinedRead(crc: Checksum, file: seq<Byte>, p: nat, q: nat, end: nat, inside: bool, scratch: seq<Byte>,
                   payload: seq<Byte>, n: nat, whole: bool, k: nat)
    requires n <= |payload| && ReadOrJoined(crc, file, p, q, inside, scratch, payload, false, n)
    requires ReadOrJoined(crc, file, q, end, true, scratch + payload[..n], payload[n..], whole, k)
    ensures ReadOrJoined(crc, file, p, end, inside, scratch, payload, whole, n + k) == true
  {
    Rejoin(scratch, payload, n);
    JoinedUp(scratch, payload, n, k);
  }

  lemma LastTried(payload: seq<Byte>, off: nat, fates: seq<Fate>, n: nat)
    requires off <= BLOCK_SIZE && n == FragmentLength(|payload|, off) && (n == |payload| || First(fates).Broken?)
    ensures Whole(payload, off, fates) <==> n == |payload|
    ensures Reached(payload, off, fates) == n && (n == |payload| ==> payload[..n] == payload)
  {}

  lemma JoinedUp(scratch: seq<Byte>, payload: seq<Byte>, n: nat, k: nat)
    requires n + k <= |payload|
    ensures (scratch + payload[..n]) + payload[n..][..k] == scratch + payload[..n + k]
  {}

  lemma FirstPiece(crc: Checksum, file: seq<Byte>, payload: seq<Byte>, p: nat, fates: seq<Fate>, r: Attempted)
    returns (h: nat, n: nat, q: nat)
    requires AllArrive(fates) && r == Attempt(crc, payload, p % BLOCK_SIZE, true, fates)
    requires p + |r.bytes| <= |file| && file[p..p + |r.bytes|] == r.bytes
    ensures n <= |payload| && h == p + Padding(p % BLOCK_SIZE) && q == h + HEADER_SIZE + n <= |file|
    ensures Fits(h, payload[..n]) && file[h..q] == Piece(crc, Kind(true, n == |payload|), payload[..n])
  {
    var piece, rest;
    h, n, piece, q, rest := AttemptParts(crc, payload, p, true, fates, r);
    SliceParts(file, p, h, q, q + |rest.bytes|, Zeros(h - p), piece, rest.bytes);
  }

  /** The first piece of an append ends what was read of one before it, with a report if there was anything. */
  lemma StartsAfresh(crc: Checksum, file: seq<Byte>, payload: seq<Byte>, p: nat, fates: seq<Fate>, r: Attempted, inside: bool,
                     scratch: seq<Byte>)
    requires AllArrive(fates) && r == Attempt(crc, payload, p % BLOCK_SIZE, true, fates)
    requires p + |r.bytes| <= |file| && file[p..p + |r.bytes|] == r.bytes
    ensures Assemble(crc, file, p, inside, scratch)
            == Reported(if inside && scratch != [] then 1 else 0, Assemble(crc, file, p, false, []))
  {
    var h, n, q := FirstPiece(crc, file, payload, p, fates, r);
    PaddedPieceRead(crc, file, p, h, q, Kind(true, n == |payload|), payload[..n]);
  }

  /** Which of the appends are whole. */
  function Wholes(crc: Checksum, appends: seq<Append>, off: nat): (r: seq<bool>)
    requires off <= BLOCK_SIZE
    ensures |r| == |appends|
  {
    if appends == [] then []
    else
      var a := Attempt(crc, appends[0].record, off, true, appends[0].fates);
      [Whole(appends[0].record, off, appends[0].fates)] + Wholes(crc, appends[1..], a.off)
  }

  function Chosen<T>(s: seq<T>, flags: seq<bool>): seq<T>
    requires |flags| == |s|
  {
    if s == [] then [] else (if flags[0] then [s[0]] else []) + Chosen(s[1..], flags[1..])
  }

  /** How many reports there are: one for every append that was left unfinished, with something in it, and has another
      behind it. */
  function Interrupted(crc: Checksum, appends: seq<Append>, off: nat, stale: bool): nat
    requires off <= BLOCK_SIZE
  {
    if appends == [] then 0
    else
      var a := appends[0];
      var left := !Whole(a.record, off, a.fates) && Reached(a.record, off, a.fates) > 0;
      (if stale then 1 else 0) + Interrupted(crc, appends[1..], Attempt(crc, a.record, off, true, a.fates).off, left)
  }

  predicate EverythingArrives(appends: seq<Append>) {
    forall a :: a in appends ==> AllArrive(a.fates)
  }

  /** What the appends call for: the whole ones, and the reports. */
  function Expected(crc: Checksum, appends: seq<Append>, off: nat, stale: bool): (seq<seq<Byte>>, nat)
    requires off <= BLOCK_SIZE
  {
    (Chosen(Records(appends), Wholes(crc, appends, off)), Interrupted(crc, appends, off, stale))
  }

  lemma {:induction false} AllArrivedRead(crc: Checksum, file: seq<Byte>, appends: seq<Append>, p: nat, off: nat, inside: bool,
                                          scratch: seq<Byte>)
    requires EverythingArrives(appends) && off <= BLOCK_SIZE && p % BLOCK_SIZE == off % BLOCK_SIZE && p <= |file|
    requires file[p..] == Logged(crc, appends, off).bytes
    ensures Gives(crc, file, p, inside, scratch, Expected(crc, appends, off, inside && scratch != [])) == true
    decreases |appends|
  {
    if appends == [] {
      assert |file| == p;
      AssembleTurn(crc, file, p, p, K_EOF, [], 0, inside, scratch);
    } else {
      var a, more := appends[0], appends[1..];
      var r := Attempt(crc, a.record, off, true, a.fates);
      var q, k, whole := p + |r.bytes|, Reached(a.record, off, a.fates), Whole(a.record, off, a.fates);
      assert a in appends && forall b :: b in more ==> b in appends;
      Behind(file, p, r.bytes, Logged(crc, more, r.off).bytes);
      OneArrived(crc, file, a, p, off, r, q, inside, scratch, whole, k);
      AllArrivedRead(crc, file, more, q, r.off, !whole, if whole then [] else a.record[..k]);
      ArrivedAndRest(crc, file, appends, p, off, inside, scratch, r.off, q, whole, k);
    }
  }

  lemma ArrivedAndRest(crc: Checksum, file: seq<Byte>, appends: seq<Append>, p: nat, off: nat, inside: bool, scratch: seq<Byte>,
                       next: nat, q: nat, whole: bool, k: nat)
    requires appends != [] && off <= BLOCK_SIZE && next == Attempt(crc, appends[0].record, off, true, appends[0].fates).off
    requires whole == Whole(appends[0].record, off, appends[0].fates) && k == Reached(appends[0].record, off, appends[0].fates)
    requires ReadAfresh(crc, file, p, q, inside, scratch, appends[0].record, whole, k) == true
    requires Gives(crc, file, q, !whole, if whole then [] else appends[0].record[..k],
                   Expected(crc, appends[1..], next, !whole && k > 0)) == true
    ensures Gives(crc, file, p, inside, scratch, Expected(crc, appends, off, inside && scratch != [])) == true
  {
    ExpectedTurn(crc, appends, off, next, inside && scratch != []);
    ArrivedTurn(crc, file, p, q, inside, scratch, appends[0].record, whole, k, Expected(crc, appends[1..], next, !whole && k > 0),
                Expected(crc, appends, off, inside && scratch != []));
  }

  /** Reading on at `p` gives this. */
  ghost predicate Gives(crc: Checksum, file: seq<Byte>, p: nat, inside: bool, scratch: seq<Byte>, given: (seq<seq<Byte>>, nat)) {
    p <= |file| && ReadOn(crc, file, p, inside, scratch) == given
  }

  /** The reader drops what it had, with a report if there was anything, and goes on with a new record. */
  ghost predicate ReadAfresh(crc: Checksum, file: seq<Byte>, p: nat, q: nat, inside: bool, scratch: seq<Byte>,
                             record: seq<Byte>, whole: bool, k: nat)
  {
    && ReadOrJoined(crc, file, p, q, false, [], record, whole, k) == true
    && Assemble(crc, file, p, inside, scratch)
       == Reported(if inside && scratch != [] then 1 else 0, Assemble(crc, file, p, false, []))
  }

  lemma OneArrived(crc: Checksum, file: seq<Byte>, a: Append, p: nat, off: nat, r: Attempted, q: nat, inside: bool, scratch: seq<Byte>,
                   whole: bool, k: nat)
    requires off <= BLOCK_SIZE && whole == Whole(a.record, off, a.fates) && k == Reached(a.record, off, a.fates)
    requires AllArrive(a.fates) && p % BLOCK_SIZE == off % BLOCK_SIZE && q == p + |r.bytes| <= |file|
    requires r == Attempt(crc, a.record, off, true, a.fates) && file[p..q] == r.bytes
    ensures q % BLOCK_SIZE == r.off % BLOCK_SIZE
    ensures ReadAfresh(crc, file, p, q, inside, scratch, a.record, whole, k) == true
  {
    Wrapped(crc, a.record, off, true, a.fates);
    StartsAfresh(crc, file, a.record, p, a.fates, r, inside, scratch);
    ArrivedRead(crc, file, a.record, p, p % BLOCK_SIZE, true, [], a.fates, r, q, whole, k);
    ArrivedEnds(crc, a.record, p, true, a.fates, r, q);
  }

  lemma Behind(file: seq<Byte>, p: nat, e: seq<Byte>, rest: seq<Byte>)
    requires p <= |file| && file[p..] == e + rest
    ensures p + |e| <= |file| && file[p..p + |e|] == e && file[p + |e|..] == rest
  {
    var s := file[p..];
    assert file[p..p + |e|] == s[..|e|] && file[p + |e|..] == s[|e|..];
  }

  lemma ArrivedTurn(crc: Checksum, file: seq<Byte>, p: nat, q: nat, inside: bool, scratch: seq<Byte>, record: seq<Byte>,
                    whole: bool, k: nat, rest: (seq<seq<Byte>>, nat), all: (seq<seq<Byte>>, nat))
    requires ReadAfresh(crc, file, p, q, inside, scratch, record, whole, k)
    requires Gives(crc, file, q, !whole, if whole then [] else record[..k], rest)
    requires all.0 == (if whole then [record] else []) + rest.0 && all.1 == (if inside && scratch != [] then 1 else 0) + rest.1
    ensures Gives(crc, file, p, inside, scratch, all) == true
  {
    assert [] + record == record && [] + record[..k] == record[..k];
    assert [] + rest.0 == rest.0;
    ReadOnStart(crc, file, q);
  }

  lemma ExpectedTurn(crc: Checksum, appends: seq<Append>, off: nat, next: nat, stale: bool)
    requires appends != [] && off <= BLOCK_SIZE && next == Attempt(crc, appends[0].record, off, true, appends[0].fates).off
    ensures var whole, k := Whole(appends[0].record, off, appends[0].fates), Reached(appends[0].record, off, appends[0].fates);
      var rest := Expected(crc, appends[1..], next, !whole && k > 0);
      var all := Expected(crc, appends, off, stale);
      all.0 == (if whole then [appends[0].record] else []) + rest.0 && all.1 == (if stale then 1 else 0) + rest.1
  {
    FlaggedChosen(crc, appends, off, next);
  }

  lemma FlaggedChosen(crc: Checksum, appends: seq<Append>, off: nat, next: nat)
    requires appends != [] && off <= BLOCK_SIZE && next == Attempt(crc, appends[0].record, off, true, appends[0].fates).off
    ensures Chosen(Records(appends), Wholes(crc, appends, off))
            == (if Whole(appends[0].record, off, appends[0].fates) then [appends[0].record] else [])
               + Chosen(Records(appends[1..]), Wholes(crc, appends[1..], next))
  {
    assert Records(appends)[1..] == Records(appends[1..]);
    assert Wholes(crc, appends, off)[1..] == Wholes(crc, appends[1..], next);
  }

  /** If every failed append left all it had tried to write, exactly the records that were tried to their end come back,
      in order: every one that was acknowledged is among them. */
  lemma NothingMissing(crc: Checksum, appends: seq<Append>)
    requires EverythingArrives(appends)
    ensures var r := Logged(crc, appends, 0);
      && ReadAll(crc, r.bytes, 0) == Expected(crc, appends, 0, false)
      && forall i :: 0 <= i < |appends| && r.acks[i] ==> Wholes(crc, appends, 0)[i]
  {
    var file := Logged(crc, appends, 0).bytes;
    assert file[0..] == file;
    AllArrivedRead(crc, file, appends, 0, 0, false, []);
    ReadOnStart(crc, file, 0);
    AckedAreWhole(crc, appends, 0);
  }

  lemma {:induction false} AckedAreWhole(crc: Checksum, appends: seq<Append>, off: nat)
    requires off <= BLOCK_SIZE
    ensures forall i :: 0 <= i < |appends| && Logged(crc, appends, off).acks[i] ==> Wholes(crc, appends, off)[i]
  {
    if appends != [] {
      var a := Attempt(crc, appends[0].record, off, true, appends[0].fates);
      AckedAreWhole(crc, appends[1..], a.off);
      if a.ok {
        AckedIsWhole(crc, appends[0].record, off, true, appends[0].fates);
      }
      forall i | 0 <= i < |appends| && Logged(crc, appends, off).acks[i] ensures Wholes(crc, appends, off)[i] {
        if i > 0 {
          assert Logged(crc, appends[1..], a.off).acks[i - 1] && Wholes(crc, appends[1..], a.off)[i - 1];
        }
      }
    }
  }

  // ---- Failures that leave nothing ----

  predicate AllOrNothing(a: Append) {
    AllSound(a.fates) || (a.fates != [] && a.fates[0] == Broken(0, 0))
  }

  /** How far appends that fit one fragment each take the writer. */
  function Span(appends: seq<Append>): nat {
    if appends == [] then 0 else HEADER_SIZE + |appends[0].record| + Span(appends[1..])
  }

  /** A record that fits in the rest of the block is one piece. */
  lemma OnePiece(crc: Checksum, record: seq<Byte>, off: nat, fates: seq<Fate>)
    requires off + HEADER_SIZE + |record| <= BLOCK_SIZE
    ensures Emit(crc, record, off, true) == Piece(crc, FULL, record)
    ensures AllSound(fates) ==>
              Attempt(crc, record, off, true, fates) == Attempted(Piece(crc, FULL, record), off + HEADER_SIZE + |record|, true)
    ensures fates != [] && fates[0] == Broken(0, 0) ==>
              Attempt(crc, record, off, true, fates) == Attempted([], off + HEADER_SIZE + |record|, false)
  {
    assert FragmentLength(|record|, off) == |record| && record[..|record|] == record;
    assert Zeros(0) == [];
    assert Emit(crc, record, off, true) == Zeros(0) + Piece(crc, FULL, record) + [];
    assert [] + Piece(crc, FULL, record) == Piece(crc, FULL, record);
  }

  /** The bytes of these appends are the log of the acknowledged ones from position `p` on. */
  ghost predicate BackFrom(crc: Checksum, appends: seq<Append>, off: nat, p: nat)
    requires off <= BLOCK_SIZE
  {
    Logged(crc, appends, off).bytes == LogFrom(crc, Chosen(Records(appends), Logged(crc, appends, off).acks), p)
  }

  /** While the writer does not come to the end of its block, a failed append that left nothing might as well not have
      been made. */
  lemma {:induction false} WithinBlock(crc: Checksum, appends: seq<Append>, off: nat, p: nat)
    requires p % BLOCK_SIZE <= off && off + Span(appends) <= BLOCK_SIZE && forall a :: a in appends ==> AllOrNothing(a)
    ensures BackFrom(crc, appends, off, p) == true
  {
    if appends != [] {
      var a, more := appends[0], appends[1..];
      var r := Attempt(crc, a.record, off, true, a.fates);
      OnePiece(crc, a.record, off, a.fates);
      assert a in appends && forall b :: b in more ==> b in appends;
      StaysInBlock(p, off, HEADER_SIZE + |a.record|);
      WithinBlock(crc, more, r.off, p + |r.bytes|);
      WithinStep(crc, appends, off, p, r);
    }
  }

  lemma WithinStep(crc: Checksum, appends: seq<Append>, off: nat, p: nat, r: Attempted)
    requires appends != [] && off + HEADER_SIZE + |appends[0].record| <= BLOCK_SIZE && p % BLOCK_SIZE <= off
    requires AllOrNothing(appends[0]) && r == Attempt(crc, appends[0].record, off, true, appends[0].fates)
    requires BackFrom(crc, appends[1..], r.off, p + |r.bytes|) == true
    ensures BackFrom(crc, appends, off, p) == true
  {
    OneChosen(crc, appends, off, r);
    OneWithinBlock(crc, appends[0], off, p, Chosen(Records(appends[1..]), Logged(crc, appends[1..], r.off).acks), r);
  }

  lemma OneWithinBlock(crc: Checksum, a: Append, off: nat, p: nat, rest: seq<seq<Byte>>, r: Attempted)
    requires p % BLOCK_SIZE <= off && off + HEADER_SIZE + |a.record| <= BLOCK_SIZE && AllOrNothing(a)
    requires r == Attempt(crc, a.record, off, true, a.fates)
    ensures r.bytes + LogFrom(crc, rest, p + |r.bytes|) == LogFrom(crc, (if r.ok then [a.record] else []) + rest, p)
  {
    OnePiece(crc, a.record, off, a.fates);
    if r.ok {
      OnePiece(crc, a.record, p % BLOCK_SIZE, a.fates);
      LogCons(crc, [a.record] + rest, p);
      assert ([a.record] + rest)[1..] == rest;
    } else {
      assert [] + rest == rest && [] + LogFrom(crc, rest, p) == LogFrom(crc, rest, p);
    }
  }

  lemma OneChosen(crc: Checksum, appends: seq<Append>, off: nat, r: Attempted)
    requires appends != [] && off <= BLOCK_SIZE && r == Attempt(crc, appends[0].record, off, true, appends[0].fates)
    ensures Logged(crc, appends, off).bytes == r.bytes + Logged(crc, appends[1..], r.off).bytes
    ensures Chosen(Records(appends), Logged(crc, appends, off).acks)
            == (if r.ok then [appends[0].record] else []) + Chosen(Records(appends[1..]), Logged(crc, appends[1..], r.off).acks)
  {
    assert Records(appends)[1..] == Records(appends[1..]);
    assert Logged(crc, appends, off).acks[1..] == Logged(crc, appends[1..], r.off).acks;
  }

  lemma StaysInBlock(p: nat, off: nat, n: nat)
    requires p % BLOCK_SIZE <= off && off + n <= BLOCK_SIZE
    ensures (p + n) % BLOCK_SIZE <= off + n && p % BLOCK_SIZE <= off + n
  {}

  lemma {:induction false} LogConcat(crc: Checksum, a: seq<seq<Byte>>, b: seq<seq<Byte>>, p: nat, q: nat)
    requires q == p + |LogFrom(crc, a, p)|
    ensures LogFrom(crc, a + b, p) == LogFrom(crc, a, p) + LogFrom(crc, b, q)
  {
    if a == [] {
      assert a + b == b && [] + LogFrom(crc, b, p) == LogFrom(crc, b, p);
    } else {
      var e := RecordBytes(crc, a[0], p);
      LogCons(crc, a, p);
      LogConcat(crc, a[1..], b, p + |e|, q);
      ConcatStep(crc, a, b, p, q, e);
    }
  }

  lemma ConcatStep(crc: Checksum, a: seq<seq<Byte>>, b: seq<seq<Byte>>, p: nat, q: nat, e: seq<Byte>)
    requires a != [] && e == RecordBytes(crc, a[0], p) && LogFrom(crc, a, p) == e + LogFrom(crc, a[1..], p + |e|)
    requires LogFrom(crc, a[1..] + b, p + |e|) == LogFrom(crc, a[1..], p + |e|) + LogFrom(crc, b, q)
    ensures LogFrom(crc, a + b, p) == LogFrom(crc, a, p) + LogFrom(crc, b, q)
  {
    ConsSum(crc, a, b, p, e);
    OneDone(e, LogFrom(crc, a[1..], p + |e|), LogFrom(crc, b, q));
  }

  lemma ConsSum(crc: Checksum, a: seq<seq<Byte>>, b: seq<seq<Byte>>, p: nat, e: seq<Byte>)
    requires a != [] && e == RecordBytes(crc, a[0], p)
    ensures LogFrom(crc, a + b, p) == e + LogFrom(crc, a[1..] + b, p + |e|)
  {
    assert (a + b)[0] == a[0] && (a + b)[1..] == a[1..] + b;
  }

  /** Behind a sound log, failed appends that left nothing are harmless to the end of the block: everything acknowledged
      comes back, with no report. */
  lemma HarmlessWithinBlock(crc: Checksum, before: seq<seq<Byte>>, appends: seq<Append>)
    requires |LogFrom(crc, before, 0)| % BLOCK_SIZE + Span(appends) <= BLOCK_SIZE && forall a :: a in appends ==> AllOrNothing(a)
    ensures var start := LogFrom(crc, before, 0);
      var r := Logged(crc, appends, |start| % BLOCK_SIZE);
      ReadAll(crc, start + r.bytes, 0) == (before + Chosen(Records(appends), r.acks), 0)
  {
    var start := LogFrom(crc, before, 0);
    HarmlessFrom(crc, before, appends, start, |start|, |start| % BLOCK_SIZE);
  }

  lemma HarmlessFrom(crc: Checksum, before: seq<seq<Byte>>, appends: seq<Append>, start: seq<Byte>, p: nat, off: nat)
    requires start == LogFrom(crc, before, 0) && p == |start| && off == p % BLOCK_SIZE
    requires off + Span(appends) <= BLOCK_SIZE && forall a :: a in appends ==> AllOrNothing(a)
    ensures ReadAll(crc, start + Logged(crc, appends, off).bytes, 0)
            == (before + Chosen(Records(appends), Logged(crc, appends, off).acks), 0)
  {
    var chosen := Chosen(Records(appends), Logged(crc, appends, off).acks);
    WithinBlock(crc, appends, off, p);
    LogConcat(crc, before, chosen, 0, p);
    ReadWhole(crc, before + chosen);
  }

  lemma ReadWhole(crc: Checksum, records: seq<seq<Byte>>)
    ensures ReadAll(crc, LogFrom(crc, records, 0), 0) == (records, 0)
  {
    var file := LogFrom(crc, records, 0);
    TruncationSafe(crc, records, |file|);
    AllWhole(crc, records, 0, |file|);
    assert file[..|file|] == file && records[..|records|] == records;
  }

  // ---- Acknowledged and not read ----

  lemma TwoAppends(crc: Checksum, a: Append, b: Append)
    ensures var x := Attempt(crc, a.record, 0, true, a.fates);
      var y := Attempt(crc, b.record, x.off, true, b.fates);
      Logged(crc, [a, b], 0) == Outcome(x.bytes + y.bytes, y.off, [x.ok, y.ok])
  {
    var x := Attempt(crc, a.record, 0, true, a.fates);
    var y := Attempt(crc, b.record, x.off, true, b.fates);
    assert [a, b][1..] == [b] && [b][1..] == [];
    assert Logged(crc, [b], x.off) == Outcome(y.bytes + [], y.off, [y.ok] + []);
    assert y.bytes + [] == y.bytes && [y.ok] + [] == [y.ok] && [x.ok] + [y.ok] == [x.ok, y.ok];
  }

  /** An append that fails after its header hides the next, though that is acknowledged: the reader takes it for the rest
      of the record the header announces, and reports nothing. */
  lemma TornHeaderHidesTheNext(crc: Checksum, record: seq<Byte>, x: Byte)
    requires 9 <= |record| <= BLOCK_SIZE - 2 * HEADER_SIZE - 1
    ensures var r := Logged(crc, [Append(record, [Broken(0, HEADER_SIZE)]), Append([x], [])], 0);
      r.acks == [false, true] && ReadAll(crc, r.bytes, 0) == ([], 0)
  {
    var piece := Piece(crc, FULL, record);
    var fates := [Broken(0, HEADER_SIZE)];
    assert FragmentLength(|record|, 0) == |record| && record[..|record|] == record;
    var header := piece[..HEADER_SIZE];
    assert Attempt(crc, record, 0, true, fates) == Attempted(header, HEADER_SIZE + |record|, false) by {
      assert Zeros(0) == [] && [] + header == header;
    }
    OnePiece(crc, [x], HEADER_SIZE + |record|, []);
    TwoAppends(crc, Append(record, fates), Append([x], []));
    HeaderAlone(crc, record, header + Piece(crc, FULL, [x]));
  }

  lemma HeaderAlone(crc: Checksum, record: seq<Byte>, file: seq<Byte>)
    requires |record| < BLOCK_SIZE && HEADER_SIZE <= |file| < HEADER_SIZE + |record| && |file| < BLOCK_SIZE
    requires file[..HEADER_SIZE] == Piece(crc, FULL, record)[..HEADER_SIZE]
    ensures ReadAll(crc, file, 0) == ([], 0)
  {
    var piece := Piece(crc, FULL, record);
    assert file[4] == file[..HEADER_SIZE][4] == piece[4] && file[5] == file[..HEADER_SIZE][5] == piece[5];
    assert |record| % 0x100 + 0x100 * (|record| / 0x100) == |record|;
    assert file[0..|file|] == file;
    assert Parse(crc, file, true) == LogReader.Parsed.Cut;
    PhysicalIsParse(crc, file, 0, |file|, true);
    EofTaken(crc, file, 0, false, []);
    ReadNothing(crc, file, 0);
  }

  /** A record whose append fails and leaves nothing, six bytes short of a block: the writer pads its block out for the
      next one, at the start of a file, and unless the checksum of some byte is what zeros stand for, it is not read. */
  lemma NothingLeftHidesTheNext(crc: Checksum, record: seq<Byte>, x: Byte)
    requires |record| == BLOCK_SIZE - 2 * HEADER_SIZE + 1 && forall b: Byte :: crc([b]) != Unmask(0)
    ensures var r := Logged(crc, [Append(record, [Broken(0, 0)]), Append([x], [])], 0);
      r.acks == [false, true] && ReadAll(crc, r.bytes, 0).0 == []
  {
    OnePiece(crc, record, 0, [Broken(0, 0)]);
    var off := BLOCK_SIZE - HEADER_SIZE + 1;
    var piece := Piece(crc, FULL, [x]);
    assert Attempt(crc, [x], off, true, []) == Attempted(Zeros(6) + piece, HEADER_SIZE + 1, true) by {
      assert FragmentLength(1, off) == 1 && [x][..1] == [x];
    }
    TwoAppends(crc, Append(record, [Broken(0, 0)]), Append([x], []));
    var file := [] + (Zeros(6) + piece);
    ZerosAlone(crc, file);
  }

  lemma ZerosAlone(crc: Checksum, file: seq<Byte>)
    requires HEADER_SIZE <= |file| < BLOCK_SIZE && file[..6] == Zeros(6) && forall b: Byte :: crc([b]) != Unmask(0)
    ensures ReadAll(crc, file, 0).0 == []
  {
    assert file[0] == file[..6][0] && file[1] == file[..6][1] && file[2] == file[..6][2];
    assert file[3] == file[..6][3] && file[4] == file[..6][4] && file[5] == file[..6][5];
    assert DecodeFixed32(file) == 0;
    assert file[6..7] == [file[6]] && file[0..|file|] == file;
    PhysicalIsParse(crc, file, 0, |file|, true);
    var parsed := Parse(crc, file, true);
    assert parsed.Damaged?;
    EndOfFile(crc, file);
    AssembleTurn(crc, file, 0, |file|, K_BAD, [], if parsed.reported then 1 else 0, false, []);
    ReadAllStep(crc, file, 0);
  }

  /** The writer does not ask whether a trailer was written: an append behind one that was not is acknowledged, and its
      record stands where no header is looked for. */
  lemma LostTrailerHidesTheRecord(crc: Checksum, record: seq<Byte>, x: Byte)
    requires |record| == BLOCK_SIZE - 2 * HEADER_SIZE + 1
    ensures var r := Logged(crc, [Append(record, []), Append([x], [Written(0)])], 0);
      r.acks == [true, true] && ReadAll(crc, r.bytes, 0) == ([record], 0)
  {
    OnePiece(crc, record, 0, []);
    var off := BLOCK_SIZE - HEADER_SIZE + 1;
    var first, second := Piece(crc, FULL, record), Piece(crc, FULL, [x]);
    assert Attempt(crc, [x], off, true, [Written(0)]) == Attempted(second, HEADER_SIZE + 1, true) by {
      assert FragmentLength(1, off) == 1 && [x][..1] == [x];
      assert [] + second == second;
    }
    TwoAppends(crc, Append(record, []), Append([x], [Written(0)]));
    PastTheHeader(crc, record, first + second);
  }

  lemma PastTheHeader(crc: Checksum, record: seq<Byte>, file: seq<Byte>)
    requires |record| == BLOCK_SIZE - 2 * HEADER_SIZE + 1 && |file| == BLOCK_SIZE + 2
    requires file[..HEADER_SIZE + |record|] == Piece(crc, FULL, record)
    ensures ReadAll(crc, file, 0) == ([record], 0)
  {
    var q := HEADER_SIZE + |record|;
    assert file[0..q] == file[..q];
    PieceRead(crc, file, 0, FULL, record);
    PieceTaken(crc, file, 0, true, true, record, q, []);
    assert [] + record == record;
    TooShort(crc, file, q);
    EofTaken(crc, file, q, false, []);
    ReadNothing(crc, file, q);
    ReadThenRest(crc, file, 0, record, q, []);
    assert [record] + [] == [record];
  }

  /** Neither the last bytes of the first block nor the two after it hold a header. */
  lemma TooShort(crc: Checksum, file: seq<Byte>, q: nat)
    requires |file| == BLOCK_SIZE + 2 && q == BLOCK_SIZE - 6
    ensures PhysicalAt(crc, file, q) == Eof
  {
    assert BlockEnd(q) == BLOCK_SIZE && BlockEnd(BLOCK_SIZE) == 2 * BLOCK_SIZE;
    assert PhysicalAt(crc, file, BLOCK_SIZE) == Eof;
  }
}
