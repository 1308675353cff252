/** Reading a log back, whole or cut short (db/log_reader). */
module LogReader {
  import opened Coding
  import opened LogFormat

  // ---- What stands at a position of the file ----

  datatype Physical = Eof | Bad(next: nat, reported: bool) | Rec(kind: Byte, fragment: seq<Byte>, next: nat)

  function BlockEnd(p: nat): (e: nat)
    ensures e > p
  {
    p - p % BLOCK_SIZE + BLOCK_SIZE
  }

  datatype Parsed = Cut | Damaged(reported: bool) | Sound(kind: Byte, fragment: seq<Byte>)

  /** Check one header against the bytes left in the buffer (log_reader.cc:216-269). */
  function Parse(crc: Checksum, buf: seq<Byte>, eof: bool): (r: Parsed)
    requires |buf| >= HEADER_SIZE
    ensures r.Sound? ==> HEADER_SIZE + |r.fragment| <= |buf|
    ensures r.Cut? ==> eof
  {
    var lo: int, hi: int := buf[4], buf[5];
    var length := lo + 0x100 * hi;
    if HEADER_SIZE + length > |buf| then (if eof then Cut else Damaged(true))
    else if buf[6] == ZERO_TYPE && length == 0 then Damaged(false)
    else if Unmask(DecodeFixed32(buf)) != crc(buf[6..HEADER_SIZE + length]) then Damaged(true)
    else Sound(buf[6], buf[HEADER_SIZE..HEADER_SIZE + length])
  }

  function PhysicalAt(crc: Checksum, file: seq<Byte>, p: nat): (r: Physical)
    requires p <= |file|
    ensures r.Bad? || r.Rec? ==> p < r.next <= |file|
    decreases |file| - p
  {
    var full := BlockEnd(p) <= |file|;
    var e := if full then BlockEnd(p) else |file|;
    if e - p < HEADER_SIZE then (if full then PhysicalAt(crc, file, e) else Eof)
    else
      match Parse(crc, file[p..e], !full)
      case Cut => Eof
      case Damaged(reported) => Bad(e, reported)
      case Sound(kind, fragment) => Rec(kind, fragment, p + HEADER_SIZE + |fragment|)
  }

  const K_EOF := 5
  const K_BAD := 6

  // ---- Logical records ----

  datatype Logical = Done(reports: nat) | Record(data: seq<Byte>, next: nat, reports: nat)

  function Reported(n: nat, r: Logical): Logical {
    r.(reports := r.reports + n)
  }

  /** What the reader does with a physical record, `kind` being a record type, K_EOF or K_BAD. */
  datatype Action = Yield(data: seq<Byte>, reports: nat) | Finish | Continue(inside: bool, scratch: seq<Byte>, reports: nat)

  /** The switch of log_reader.cc:91-171.  A sound header whose type byte is 5 or 6 is taken for the reader's
      own end-of-file and bad-record codes, as in the source. */
  function React(kind: int, fragment: seq<Byte>, inside: bool, scratch: seq<Byte>): Action {
    var partial := if inside && scratch != [] then 1 else 0;
    if kind == FULL then Yield(fragment, partial)
    else if kind == FIRST then Continue(true, fragment, partial)
    else if kind == MIDDLE then
      if inside then Continue(true, scratch + fragment, 0) else Continue(false, scratch, 1)
    else if kind == LAST then
      if inside then Yield(scratch + fragment, 0) else Continue(false, scratch, 1)
    else if kind == K_EOF then Finish
    else if kind == K_BAD then
      if inside then Continue(false, [], 1) else Continue(false, scratch, 0)
    else Continue(false, [], 1)
  }

  /** Assemble fragments from position `p` on (log_reader.cc:56-173). */
  function Assemble(crc: Checksum, file: seq<Byte>, p: nat, inside: bool, scratch: seq<Byte>): (r: Logical)
    requires p <= |file|
    ensures r.Record? ==> p < r.next <= |file|
    decreases |file| - p
  {
    match PhysicalAt(crc, file, p)
    case Eof => Done(0)
    case Bad(next, reported) => Resume(crc, file, p, next, React(K_BAD, [], inside, scratch), if reported then 1 else 0)
    case Rec(kind, fragment, next) => Resume(crc, file, p, next, React(kind, fragment, inside, scratch), 0)
  }

  function Resume(crc: Checksum, file: seq<Byte>, p: nat, next: nat, a: Action, reports: nat): (r: Logical)
    requires p < next <= |file|
    ensures r.Record? ==> p < r.next <= |file|
    decreases |file| - p, 0
  {
    match a
    case Yield(data, n) => Record(data, next, reports + n)
    case Finish => Done(reports)
    case Continue(inside, scratch, n) => Reported(reports + n, Assemble(crc, file, next, inside, scratch))
  }

  /** All records from `p` on, and how many corruptions were reported on the way. */
  function ReadAll(crc: Checksum, file: seq<Byte>, p: nat): (seq<seq<Byte>>, nat)
    requires p <= |file|
    decreases |file| - p
  {
    match Assemble(crc, file, p, false, [])
    case Done(reports) => ([], reports)
    case Record(data, next, reports) =>
      var (rest, more) := ReadAll(crc, file, next);
      ([data] + rest, reports + more)
  }

  // ---- Positions and blocks ----

  lemma SameBlock(p: nat, q: nat)
    requires p <= q < BlockEnd(p)
    ensures BlockEnd(q) == BlockEnd(p)
  {}

  lemma PhysicalIsParse(crc: Checksum, file: seq<Byte>, p: nat, e: nat, eof: bool)
    requires p + HEADER_SIZE <= e <= |file|
    requires if eof then e == |file| < BlockEnd(p) else e == BlockEnd(p)
    ensures PhysicalAt(crc, file, p) == match Parse(crc, file[p..e], eof)
                                        case Cut => Eof
                                        case Damaged(reported) => Bad(e, reported)
                                        case Sound(kind, f) => Rec(kind, f, p + HEADER_SIZE + |f|)
  {}

  // ---- One turn of the reader ----

  /** What ReadPhysicalRecord answers for the physical record at `p`. */
  ghost predicate Answers(ph: Physical, kind: int, fragment: seq<Byte>, next: int, reports: int) {
    match ph
    case Eof => kind == K_EOF && reports == 0
    case Bad(n, reported) => kind == K_BAD && next == n && reports == if reported then 1 else 0
    case Rec(k, f, n) => kind == k && fragment == f && next == n && reports == 0
  }

  /** What ReadRecord answers for a logical record. */
  ghost predicate Returns(l: Logical, ok: bool, record: seq<Byte>, next: int, reports: int) {
    match l
    case Done(n) => !ok && reports == n
    case Record(data, q, n) => ok && record == data && next == q && reports == n
  }

  lemma AssembleTurn(crc: Checksum, file: seq<Byte>, p: nat, q: nat, kind: int, fragment: seq<Byte>, reports: nat,
                     inside: bool, scratch: seq<Byte>)
    requires p <= |file| && q <= |file|
    requires Answers(PhysicalAt(crc, file, p), kind, fragment, q, reports)
    ensures Assemble(crc, file, p, inside, scratch)
            == match React(kind, fragment, inside, scratch)
               case Yield(data, n) => Record(data, q, reports + n)
               case Finish => Done(reports)
               case Continue(i, s, n) => Reported(reports + n, Assemble(crc, file, q, i, s))
    ensures React(kind, fragment, inside, scratch).Continue? ==> p < q
  {}

  /** The answer to a call is `goal`; `reports` corruptions have been reported, and the rest is read from `p`. */
  ghost predicate Awaits(goal: Logical, reports: nat, crc: Checksum, file: seq<Byte>, p: int, inside: bool,
                         scratch: seq<Byte>)
  {
    0 <= p <= |file| && goal == Reported(reports, Assemble(crc, file, p, inside, scratch))
  }

  /** What a turn of the loop leaves to do. */
  ghost predicate TurnTaken(goal: Logical, reports: nat, crc: Checksum, file: seq<Byte>, p: int, q: int, a: Action) {
    match a
    case Yield(data, n) => Returns(goal, true, data, q, reports + n)
    case Finish => Returns(goal, false, [], q, reports)
    case Continue(i, s, n) => p < q && Awaits(goal, reports + n, crc, file, q, i, s)
  }

  lemma TakeTurn(goal: Logical, sofar: nat, crc: Checksum, file: seq<Byte>, p: int, q: int, kind: int,
                 fragment: seq<Byte>, reports: nat, inside: bool, scratch: seq<Byte>)
    requires Awaits(goal, sofar, crc, file, p, inside, scratch) && 0 <= q <= |file|
    requires Answers(PhysicalAt(crc, file, p), kind, fragment, q, reports)
    ensures TurnTaken(goal, sofar + reports, crc, file, p, q, React(kind, fragment, inside, scratch))
  {
    AssembleTurn(crc, file, p, q, kind, fragment, reports, inside, scratch);
  }

  // ---- The reader ----

  class Reader {
    const crc: Checksum
    const file: seq<Byte>
    var filePos: nat
    var buffer: seq<Byte>
    var eof: bool
    var reports: nat

    constructor (crc: Checksum, file: seq<Byte>)
      ensures this.crc == crc && this.file == file
      ensures Valid() && Pos() == 0 && reports == 0
    {
      this.crc, this.file := crc, file;
      filePos, buffer, eof, reports := 0, [], false, 0;
    }

    /** The first byte not consumed yet. */
    ghost function Pos(): int
      reads this
    {
      filePos - |buffer|
    }

    /** The buffer is the unconsumed rest of one block; `eof` means that block was the last, short one. */
    ghost predicate Valid()
      reads this
    {
      && 0 <= Pos() && filePos <= |file| && buffer == file[Pos()..filePos]
      && if eof then filePos == |file| < BlockEnd(Pos())
         else filePos % BLOCK_SIZE == 0 && (buffer != [] ==> filePos == BlockEnd(Pos()))
    }

    method ReadBlock()
      requires Valid() && !eof && |buffer| < HEADER_SIZE
      modifies this`filePos, this`buffer, this`eof
      ensures Valid() && Pos() == old(filePos)
      ensures eof || |buffer| == BLOCK_SIZE
      ensures PhysicalAt(crc, file, old(Pos())) == PhysicalAt(crc, file, Pos())
    {
      var start := filePos;
      var n := if |file| - start < BLOCK_SIZE then |file| - start else BLOCK_SIZE;
      filePos := start + n;
      buffer := file[start..filePos];
      eof := n < BLOCK_SIZE;
    }

    /** Get a whole header into the buffer, skipping a block's trailer; false at the end of the file. */
    method FillBuffer() returns (ok: bool)
      requires Valid()
      modifies this`filePos, this`buffer, this`eof
      ensures Valid() && Pos() >= old(Pos())
      ensures PhysicalAt(crc, file, old(Pos())) == if ok then PhysicalAt(crc, file, Pos()) else Eof
      ensures ok ==> |buffer| >= HEADER_SIZE
    {
      while |buffer| < HEADER_SIZE
        invariant Valid() && Pos() >= old(Pos())
        invariant PhysicalAt(crc, file, Pos()) == PhysicalAt(crc, file, old(Pos()))
        decreases !eof, BLOCK_SIZE - |buffer|
      {
        if eof {
          buffer := [];
          return false;
        }
        ReadBlock();
      }
      ok := true;
    }

    /** Drop the first `n` bytes of the buffer. */
    method Consume(n: nat)
      requires Valid() && 0 < n <= |buffer|
      modifies this`buffer
      ensures Valid() && Pos() == old(Pos()) + n
    {
      ghost var p := Pos();
      buffer := buffer[n..];
      if p + n < BlockEnd(p) { SameBlock(p, p + n); }
    }

    /** The next physical record is what stands at the current position (log_reader.cc:189-271). */
    method ReadPhysicalRecord() returns (kind: int, fragment: seq<Byte>)
      requires Valid()
      modifies this`filePos, this`buffer, this`eof, this`reports
      ensures Valid()
      ensures Answers(PhysicalAt(crc, file, old(Pos())), kind, fragment, Pos(), reports - old(reports)) == true
    {
      var ok := FillBuffer();
      if !ok {
        return K_EOF, [];
      }
      PhysicalIsParse(crc, file, Pos(), filePos, eof);
      match Parse(crc, buffer, eof) {
        case Cut =>
          Consume(|buffer|);
          return K_EOF, [];
        case Damaged(reported) =>
          Consume(|buffer|);
          reports := reports + if reported then 1 else 0;
          return K_BAD, [];
        case Sound(k, f) =>
          Consume(HEADER_SIZE + |f|);
          return k, f;
      }
    }

    /** Read a physical record and decide what to do with it; `start` reports were made before the call that
        will answer `goal`. */
    method ReadTurn(inside: bool, scratch: seq<Byte>, ghost goal: Logical, ghost start: nat) returns (a: Action)
      requires Valid() && start <= reports
      requires Awaits(goal, reports - start, crc, file, Pos(), inside, scratch)
      modifies this`filePos, this`buffer, this`eof, this`reports
      ensures Valid() == true && start <= reports
      ensures TurnTaken(goal, reports - start, crc, file, old(Pos()), Pos(), a) == true
    {
      ghost var p, before := Pos(), reports;
      var kind, fragment := ReadPhysicalRecord();
      TakeTurn(goal, before - start, crc, file, p, Pos(), kind, fragment, reports - before, inside, scratch);
      a := React(kind, fragment, inside, scratch);
    }

    /** The next logical record, or false at the end (log_reader.cc:56-173). */
    method ReadRecord() returns (ok: bool, record: seq<Byte>)
      requires Valid()
      modifies this`filePos, this`buffer, this`eof, this`reports
      ensures Valid() == true
      ensures Returns(Assemble(crc, file, old(Pos()), false, []), ok, record, Pos(), reports - old(reports)) == true
    {
      var inside, scratch := false, [];
      ghost var goal, start := Assemble(crc, file, Pos(), false, []), reports;
      while true
        invariant Valid() == true && start <= reports
        invariant Awaits(goal, reports - start, crc, file, Pos(), inside, scratch) == true
        decreases |file| - Pos()
      {
        var a := ReadTurn(inside, scratch, goal, start);
        if a.Yield? {
          reports := reports + a.reports;
          return true, a.data;
        } else if a.Finish? {
          return false, [];
        }
        inside, scratch := a.inside, a.scratch;
        reports := reports + a.reports;
      }
    }
  }

  lemma ReadAllStep(crc: Checksum, file: seq<Byte>, p: nat)
    requires p <= |file|
    ensures match Assemble(crc, file, p, false, [])
            case Done(n) => ReadAll(crc, file, p) == ([], n)
            case Record(data, next, n) =>
              ReadAll(crc, file, p) == ([data] + ReadAll(crc, file, next).0, n + ReadAll(crc, file, next).1)
  {}

  lemma Prepend<T>(all: seq<T>, done: seq<T>, x: T, rest: seq<T>)
    requires all == done + ([x] + rest)
    ensures all == (done + [x]) + rest
  {}

  lemma ReadAllTurn(crc: Checksum, file: seq<Byte>, p: nat, ok: bool, record: seq<Byte>, q: nat, n: nat)
    requires p <= |file| && q <= |file|
    requires Returns(Assemble(crc, file, p, false, []), ok, record, q, n)
    ensures ReadAll(crc, file, p)
            == if ok then ([record] + ReadAll(crc, file, q).0, n + ReadAll(crc, file, q).1) else ([], n)
    ensures ok ==> p < q
  {
    ReadAllStep(crc, file, p);
  }

  /** Read records until there are no more. */
  method ReadLog(crc: Checksum, file: seq<Byte>) returns (records: seq<seq<Byte>>, reports: nat)
    ensures records == ReadAll(crc, file, 0).0 && reports == ReadAll(crc, file, 0).1
  {
    var reader := new Reader(crc, file);
    ghost var all := ReadAll(crc, file, 0);
    ghost var rest := all;
    records := [];
    var more := true;
    while more
      invariant reader.Valid() == true && fresh(reader)
      invariant all.0 == records + rest.0 && all.1 == reader.reports + rest.1
      invariant if more then rest == ReadAll(crc, file, reader.Pos()) else rest == ([], 0)
      decreases more, |file| - reader.Pos()
    {
      ghost var p, before := reader.Pos(), reader.reports;
      var ok, record := reader.ReadRecord();
      ReadAllTurn(crc, file, p, ok, record, reader.Pos(), reader.reports - before);
      if ok {
        rest := ReadAll(crc, file, reader.Pos());
        Prepend(all.0, records, record, rest.0);
        records := records + [record];
      } else {
        more, rest := false, ([], 0);
      }
    }
    reports := reader.reports;
  }
}
