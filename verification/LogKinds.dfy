/** Records of a kind the reader keeps for itself (db/log_reader.h:77-87 against log_reader.cc:91-171).

    The type byte of a record is taken for the reader's own end-of-file code if it is 5, and for its code of a
    damaged record if it is 6.  Both are types no writer uses, and the reader reports those: what it should have
    done with these two is what it does with 7.
 */
module LogKinds {
  import opened Coding
  import opened LogFormat
  import opened LogReader
  import opened LogTruncation

  const UNKNOWN := 7

  function AsCalled(kind: Byte): int {
    if kind == K_EOF || kind == K_BAD then UNKNOWN else kind
  }

  /** What was read, and what is still to come. */
  function Onto(data: seq<Byte>, reports: nat, rest: (seq<seq<Byte>>, nat)): (seq<seq<Byte>>, nat) {
    ([data] + rest.0, reports + rest.1)
  }

  /** What the records from `p` on call for: those of kinds 5 and 6 are of unknown types like any other. */
  function CalledFor(crc: Checksum, file: seq<Byte>, p: nat, inside: bool, scratch: seq<Byte>): (seq<seq<Byte>>, nat)
    requires p <= |file|
    decreases |file| - p
  {
    match PhysicalAt(crc, file, p)
    case Eof => ([], 0)
    case Bad(next, reported) =>
      CalledNext(crc, file, p, next, React(K_BAD, [], inside, scratch), if reported then 1 else 0)
    case Rec(kind, fragment, next) => CalledNext(crc, file, p, next, React(AsCalled(kind), fragment, inside, scratch), 0)
  }

  function CalledNext(crc: Checksum, file: seq<Byte>, p: nat, next: nat, a: Action, reports: nat): (seq<seq<Byte>>, nat)
    requires p < next <= |file|
    decreases |file| - p, 0
  {
    match a
    case Yield(data, n) => Onto(data, reports + n, CalledFor(crc, file, next, false, []))
    case Finish => ([], reports)
    case Continue(inside, scratch, n) => Plus(reports + n, CalledFor(crc, file, next, inside, scratch))
  }

  function Plus(n: nat, r: (seq<seq<Byte>>, nat)): (seq<seq<Byte>>, nat) {
    (r.0, n + r.1)
  }

  /** A sound record of kind 5 comes up, or one of kind 6 that does not come inside a fragmented record. */
  predicate Mistaken(crc: Checksum, file: seq<Byte>, p: nat, inside: bool)
    requires p <= |file|
    decreases |file| - p
  {
    match PhysicalAt(crc, file, p)
    case Eof => false
    case Bad(next, _) => Mistaken(crc, file, next, false)
    case Rec(kind, _, next) =>
      || kind == K_EOF || (kind == K_BAD && !inside)
      || Mistaken(crc, file, next, kind == FIRST || (kind == MIDDLE && inside))
  }

  /** What is read from the middle of a record on. */
  function ReadOn(crc: Checksum, file: seq<Byte>, p: nat, inside: bool, scratch: seq<Byte>): (seq<seq<Byte>>, nat)
    requires p <= |file|
  {
    match Assemble(crc, file, p, inside, scratch)
    case Done(reports) => ([], reports)
    case Record(data, next, reports) => Onto(data, reports, ReadAll(crc, file, next))
  }

  lemma ReadOnStart(crc: Checksum, file: seq<Byte>, p: nat)
    requires p <= |file|
    ensures ReadOn(crc, file, p, false, []) == ReadAll(crc, file, p)
  {
    ReadAllStep(crc, file, p);
  }

  /** What is read goes on as the reader reacts to the physical record at `p`. */
  function ReadNext(crc: Checksum, file: seq<Byte>, next: nat, a: Action, reports: nat): (seq<seq<Byte>>, nat)
    requires next <= |file|
  {
    match a
    case Yield(data, n) => Onto(data, reports + n, ReadOn(crc, file, next, false, []))
    case Finish => ([], reports)
    case Continue(inside, scratch, n) => Plus(reports + n, ReadOn(crc, file, next, inside, scratch))
  }

  lemma ReadOnTurn(crc: Checksum, file: seq<Byte>, p: nat, q: nat, kind: int, fragment: seq<Byte>, reports: nat,
                   inside: bool, scratch: seq<Byte>)
    requires p <= |file| && q <= |file|
    requires Answers(PhysicalAt(crc, file, p), kind, fragment, q, reports)
    ensures ReadOn(crc, file, p, inside, scratch) == ReadNext(crc, file, q, React(kind, fragment, inside, scratch), reports)
  {
    AssembleTurn(crc, file, p, q, kind, fragment, reports, inside, scratch);
    ReadOnStart(crc, file, q);
  }

  /** Fewer records or reports may be given than called for, never others; and they are fewer exactly if `mistaken`. */
  ghost predicate FallsShort(given: (seq<seq<Byte>>, nat), called: (seq<seq<Byte>>, nat), mistaken: bool) {
    && given.0 <= called.0 && given.1 <= called.1
    && (if mistaken then given.1 < called.1 else given == called)
  }

  lemma OntoFallsShort(data: seq<Byte>, n: nat, given: (seq<seq<Byte>>, nat), called: (seq<seq<Byte>>, nat), mistaken: bool)
    requires FallsShort(given, called, mistaken)
    ensures FallsShort(Onto(data, n, given), Onto(data, n, called), mistaken) == true
  {}

  /** What is read is what the records call for, but for what a record of kind 5 or 6 makes the reader do. */
  lemma {:induction false} ReadAsCalled(crc: Checksum, file: seq<Byte>, p: nat, inside: bool, scratch: seq<Byte>)
    requires p <= |file| && (!inside ==> scratch == [])
    ensures FallsShort(ReadOn(crc, file, p, inside, scratch), CalledFor(crc, file, p, inside, scratch),
                       Mistaken(crc, file, p, inside)) == true
    decreases |file| - p
  {
    match PhysicalAt(crc, file, p)
    case Eof =>
      ReadOnTurn(crc, file, p, p, K_EOF, [], 0, inside, scratch);
    case Bad(next, reported) =>
      ReadOnTurn(crc, file, p, next, K_BAD, [], if reported then 1 else 0, inside, scratch);
      ReadAsCalled(crc, file, next, false, []);
    case Rec(kind, fragment, next) =>
      ReadOnTurn(crc, file, p, next, kind, fragment, 0, inside, scratch);
      match React(AsCalled(kind), fragment, inside, scratch) {
        case Yield(data, n) =>
          ReadAsCalled(crc, file, next, false, []);
          OntoFallsShort(data, n, ReadOn(crc, file, next, false, []), CalledFor(crc, file, next, false, []),
                         Mistaken(crc, file, next, false));
        case Finish =>
        case Continue(i, s, n) =>
          ReadAsCalled(crc, file, next, i, s);
      }
  }

  /** Reading a log gives what its records call for if and only if no sound record of kind 5 comes up, and none of
      kind 6 outside a fragmented record.  Otherwise records are missing at the end, or reports. */
  lemma LogAsCalled(crc: Checksum, file: seq<Byte>)
    ensures ReadAll(crc, file, 0) == CalledFor(crc, file, 0, false, []) <==> !Mistaken(crc, file, 0, false)
    ensures ReadAll(crc, file, 0).0 <= CalledFor(crc, file, 0, false, []).0
  {
    ReadAsCalled(crc, file, 0, false, []);
    ReadOnStart(crc, file, 0);
  }

  lemma CalledTurn(crc: Checksum, file: seq<Byte>, p: nat, kind: Byte, fragment: seq<Byte>, q: nat)
    requires p < q <= |file| && PhysicalAt(crc, file, p) == Rec(kind, fragment, q)
    ensures CalledFor(crc, file, p, false, []) == CalledNext(crc, file, p, q, React(AsCalled(kind), fragment, false, []), 0)
  {}

  lemma NothingCalled(crc: Checksum, file: seq<Byte>)
    ensures CalledFor(crc, file, |file|, false, []) == ([], 0)
  {
    EndOfFile(crc, file);
  }

  /** A record of kind 5 hides the one that follows it, and nothing is reported. */
  lemma KindFiveHidesTheRest(crc: Checksum, x: Byte)
    ensures var file := Piece(crc, 5, []) + Piece(crc, FULL, [x]);
      && ReadAll(crc, file, 0) == ([], 0)
      && CalledFor(crc, file, 0, false, []) == ([[x]], 1)
  {
    var a, b := Piece(crc, 5, []), Piece(crc, FULL, [x]);
    Halves(a, b, a + b);
    PieceRead(crc, a + b, 0, 5, []);
    PieceRead(crc, a + b, HEADER_SIZE, FULL, [x]);
    FiveThenFull(crc, a + b, 0, HEADER_SIZE, [x]);
  }

  lemma Halves(a: seq<Byte>, b: seq<Byte>, file: seq<Byte>)
    requires file == a + b
    ensures file[0..|a|] == a && file[|a|..|a| + |b|] == b
  {}

  lemma FiveThenFull(crc: Checksum, file: seq<Byte>, p: nat, q: nat, data: seq<Byte>)
    requires p < q < |file| && PhysicalAt(crc, file, p) == Rec(5, [], q) && PhysicalAt(crc, file, q) == Rec(FULL, data, |file|)
    ensures ReadAll(crc, file, p) == ([], 0) && CalledFor(crc, file, p, false, []) == ([data], 1)
  {
    ReadOnTurn(crc, file, p, q, 5, [], 0, false, []);
    ReadOnStart(crc, file, p);
    CalledTurn(crc, file, p, 5, [], q);
    CalledTurn(crc, file, q, FULL, data, |file|);
    NothingCalled(crc, file);
    assert [data] + [] == [data];
    assert CalledFor(crc, file, q, false, []) == ([data], 0);
    assert React(AsCalled(5), [], false, []) == Continue(false, [], 1);
  }

  /** A record of kind 6 is dropped and nothing is reported. */
  lemma KindSixGoesUnreported(crc: Checksum)
    ensures var file := Piece(crc, 6, []);
      ReadAll(crc, file, 0) == ([], 0) && CalledFor(crc, file, 0, false, []) == ([], 1)
  {
    var file := Piece(crc, 6, []);
    assert file[0..HEADER_SIZE] == file;
    PieceRead(crc, file, 0, 6, []);
    ReadOnTurn(crc, file, 0, HEADER_SIZE, 6, [], 0, false, []);
    ReadOnStart(crc, file, HEADER_SIZE);
    EndOfFile(crc, file);
    ReadNothing(crc, file, HEADER_SIZE);
    ReadOnStart(crc, file, 0);
    CalledTurn(crc, file, 0, 6, [], HEADER_SIZE);
    NothingCalled(crc, file);
  }
}
