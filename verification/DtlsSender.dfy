/** Sending a flight of handshake messages in packets (ssl/d1_both.cc:624-835).

    Sealing a record adds a fixed number of bytes to it, and does not fail.
 */
module DtlsSender {
  import opened Options
  import opened Coding
  import opened DtlsFragments
  import opened DtlsReceiver

  /** A message of the flight, with what sealing its records costs and how much of that goes in front. */
  datatype Outgoing =
    | ChangeCipherSpec(overhead: nat, prefix: nat)
    | Handshake(kind: Byte, seqNo: Word16, body: seq<Byte>, overhead: nat, prefix: nat)

  datatype Record = CcsRecord | HandshakeRecord(header: Header, body: seq<Byte>)

  datatype Position = Position(written: nat, offset: nat)

  /** A flight has at most FLIGHT messages, ChangeCipherSpec among them (d1_both.cc:562-569). */
  ghost predicate FlightOk(ms: seq<Outgoing>) {
    |ms| <= FLIGHT && forall m :: m in ms ==> m.prefix <= m.overhead && (m.Handshake? ==> |m.body| < 0x100_0000)
  }

  /** How many of the first `i` messages are handshake messages. */
  function HandshakesBefore(ms: seq<Outgoing>, i: nat): (n: nat)
    requires i <= |ms|
    ensures n <= i
  {
    if i == 0 then 0 else HandshakesBefore(ms, i - 1) + if ms[i - 1].Handshake? then 1 else 0
  }

  /** Handshake messages are numbered one after the other from `first` on (d1_both.cc:572-580). */
  ghost predicate Numbered(ms: seq<Outgoing>, first: nat) {
    forall i :: 0 <= i < |ms| && ms[i].Handshake? ==> ms[i].seqNo == first + HandshakesBefore(ms, i)
  }

  ghost predicate PositionOk(ms: seq<Outgoing>, p: Position) {
    && p.written <= |ms|
    && if p.written < |ms| && ms[p.written].Handshake? then p.offset < |ms[p.written].body| || p.offset == 0 else p.offset == 0
  }

  /** The smallest packet in which message `m` makes progress. */
  function Need(m: Outgoing): nat {
    match m
    case ChangeCipherSpec(overhead, _) => 1 + overhead
    case Handshake(_, _, _, overhead, prefix) => if HEADER_LENGTH + 1 + overhead < prefix then prefix else HEADER_LENGTH + 1 + overhead
  }

  function Size(m: Outgoing, r: Record): nat {
    match r
    case CcsRecord => 1 + m.overhead
    case HandshakeRecord(_, body) => HEADER_LENGTH + |body| + m.overhead
  }

  // ---- What a sequence of records says ----

  /** Record `r` is what may come at position `p`: the next bytes of the message, at least one unless it is empty. */
  ghost predicate Fits(ms: seq<Outgoing>, p: Position, r: Record) {
    && PositionOk(ms, p) && p.written < |ms|
    && match ms[p.written]
       case ChangeCipherSpec(_, _) => r == CcsRecord
       case Handshake(kind, seqNo, body, _, _) =>
         && r.HandshakeRecord? && |body| < 0x100_0000
         && p.offset + |r.body| <= |body| && r.body == body[p.offset..p.offset + |r.body|] && (|r.body| > 0 || |body| == 0)
         && r.header == Header(kind, |body|, seqNo, p.offset, |r.body|)
  }

  function Beyond(ms: seq<Outgoing>, p: Position, r: Record): Position
    requires p.written < |ms|
  {
    if r.HandshakeRecord? && ms[p.written].Handshake? && p.offset + |r.body| < |ms[p.written].body| then
      Position(p.written, p.offset + |r.body|)
    else Position(p.written + 1, 0)
  }

  /** Records that lead from one position to another. */
  ghost predicate Leads(ms: seq<Outgoing>, p: Position, rs: seq<Record>, q: Position)
    decreases |rs|
  {
    if rs == [] then PositionOk(ms, p) && p == q
    else Fits(ms, p, rs[0]) && Leads(ms, Beyond(ms, p, rs[0]), rs[1..], q)
  }

  lemma {:induction false} LeadsOn(ms: seq<Outgoing>, p: Position, rs: seq<Record>, q: Position, more: seq<Record>, t: Position)
    requires Leads(ms, p, rs, q) && Leads(ms, q, more, t)
    ensures Leads(ms, p, rs + more, t)
    decreases |rs|
  {
    if rs == [] {
      assert rs + more == more;
    } else {
      LeadsOn(ms, Beyond(ms, p, rs[0]), rs[1..], q, more, t);
      assert (rs + more)[1..] == rs[1..] + more;
    }
  }

  lemma OneRecord(ms: seq<Outgoing>, p: Position, r: Record)
    requires Fits(ms, p, r)
    ensures Leads(ms, p, [r], Beyond(ms, p, r)) && PositionOk(ms, Beyond(ms, p, r))
  {
    assert [r][1..] == [];
  }

  /** The bytes that records take up from a position on. */
  function TotalSize(ms: seq<Outgoing>, p: Position, rs: seq<Record>): nat
    decreases |rs|
  {
    if rs == [] || p.written >= |ms| then 0
    else Size(ms[p.written], rs[0]) + TotalSize(ms, Beyond(ms, p, rs[0]), rs[1..])
  }

  lemma {:induction false} OneMoreSize(ms: seq<Outgoing>, start: Position, rs: seq<Record>, p: Position, r: Record)
    requires Leads(ms, start, rs, p) && Fits(ms, p, r)
    ensures TotalSize(ms, start, rs + [r]) == TotalSize(ms, start, rs) + Size(ms[p.written], r)
    decreases |rs|
  {
    if rs == [] {
      assert rs + [r] == [r] && [r][1..] == [];
    } else {
      OneMoreSize(ms, Beyond(ms, start, rs[0]), rs[1..], p, r);
      assert (rs + [r])[1..] == rs[1..] + [r];
    }
  }

  /** A packet of at most `mtu` bytes to which nothing that is still to be sent could be added. */
  ghost predicate FullPacket(ms: seq<Outgoing>, p: Position, packet: seq<Record>, q: Position, mtu: nat) {
    && packet != [] && Leads(ms, p, packet, q)
    && TotalSize(ms, p, packet) <= mtu
    && (q.written < |ms| ==> mtu - TotalSize(ms, p, packet) < Need(ms[q.written]))
  }

  ghost predicate FullPackets(ms: seq<Outgoing>, p: Position, packets: seq<seq<Record>>, q: Position, mtu: nat) {
    if packets == [] then PositionOk(ms, p) && p == q
    else
      var n := |packets| - 1;
      exists t :: FullPackets(ms, p, packets[..n], t, mtu) && FullPacket(ms, t, packets[n], q, mtu)
  }

  lemma OneMorePacket(ms: seq<Outgoing>, p: Position, packets: seq<seq<Record>>, t: Position, packet: seq<Record>, q: Position, mtu: nat)
    requires FullPackets(ms, p, packets, t, mtu) == true && FullPacket(ms, t, packet, q, mtu) == true
    ensures FullPackets(ms, p, packets + [packet], q, mtu) == true
  {
    assert (packets + [packet])[..|packets|] == packets;
  }

  /** The transport took each of the packets, the first writes it was asked for. */
  predicate WrittenOut(packets: seq<seq<Record>>, transport: seq<bool>) {
    |packets| <= |transport| && forall i :: 0 <= i < |packets| ==> transport[i] && packets[i] != []
  }

  // ---- The sender ----

  datatype Sealed = NoProgress | Partial(r: Record, len: nat) | Success(r: Record, len: nat)

  datatype Outcome = Sent | Blocked | MtuTooSmall

  class Sender {
    const messages: seq<Outgoing>
    var written: nat
    var offset: nat

    ghost predicate Valid()
      reads this
    {
      FlightOk(messages) && PositionOk(messages, Here()) == true
    }

    function Here(): Position
      reads this
    {
      Position(written, offset)
    }

    constructor (messages: seq<Outgoing>)
      requires FlightOk(messages)
      ensures Valid() && this.messages == messages && Here() == Position(0, 0)
    {
      this.messages, written, offset := messages, 0, 0;
    }

    /** Seal as much of the next message as fits (d1_both.cc:634-724); `written` is the caller's to advance. */
    method SealNextMessage(maxOut: nat) returns (sealed: Sealed)
      requires Valid() && written < |messages|
      modifies this`offset
      ensures sealed.NoProgress? <==> maxOut < Need(messages[written])
      ensures sealed.NoProgress? ==> offset == old(offset)
      ensures !sealed.NoProgress? ==>
                && Fits(messages, old(Here()), sealed.r) && sealed.len == Size(messages[written], sealed.r) <= maxOut
                && Beyond(messages, old(Here()), sealed.r) == Position(if sealed.Success? then written + 1 else written, offset)
      // the rest of the message, or as much of it as fills the packet
      ensures sealed.Partial? ==> sealed.len == maxOut && offset > 0
    {
      var msg := messages[written];
      assert msg in messages;
      if msg.ChangeCipherSpec? {
        if maxOut < 1 + msg.overhead {
          return NoProgress;
        }
        return Success(CcsRecord, 1 + msg.overhead);
      }
      if maxOut < HEADER_LENGTH + 1 + msg.overhead || maxOut < msg.prefix {
        return NoProgress;
      }
      var left := |msg.body| - offset;
      var todo := left;
      if todo > maxOut - HEADER_LENGTH - msg.overhead {
        todo := maxOut - HEADER_LENGTH - msg.overhead;
      }
      var r := HandshakeRecord(Header(msg.kind, |msg.body|, msg.seqNo, offset, todo), msg.body[offset..offset + todo]);
      var len := HEADER_LENGTH + todo + msg.overhead;
      if todo == left {
        offset := 0;
        return Success(r, len);
      }
      offset := offset + todo;
      return Partial(r, len);
    }

    /** Fill one packet (d1_both.cc:729-770). */
    method SealNextPacket(mtu: nat) returns (ok: bool, packet: seq<Record>, total: nat)
      requires Valid() && written < |messages|
      modifies this`written, this`offset
      ensures Valid() && Leads(messages, old(Here()), packet, Here()) == true
      ensures ok <==> packet != []
      ensures ok ==> FullPacket(messages, old(Here()), packet, Here(), mtu) == true
      ensures total == TotalSize(messages, old(Here()), packet) <= mtu
      ensures ok <==> mtu >= Need(messages[old(written)])
      ensures !ok ==> Here() == old(Here())
      ensures ok ==> Left() < old(Left())
    {
      packet, total := [], 0;
      var maxOut: nat := mtu;
      ghost var start := Here();
      while written < |messages|
        invariant Valid() && Leads(messages, start, packet, Here()) && total + maxOut == mtu
        invariant total == TotalSize(messages, start, packet)
        invariant packet == [] ==> Here() == start && maxOut == mtu
        invariant packet != [] ==> mtu >= Need(messages[start.written]) && Left() < LeftFrom(messages, start)
        decreases |messages| - written
      {
        ghost var p := Here();
        var sealed := SealNextMessage(maxOut);
        if sealed.NoProgress? {
          break;
        }
        OneMoreRecord(messages, start, packet, p, sealed.r);
        OneMoreSize(messages, start, packet, p, sealed.r);
        packet := packet + [sealed.r];
        maxOut := maxOut - sealed.len;
        total := total + sealed.len;
        if sealed.Partial? {
          break;
        }
        written := written + 1;
      }
      ok := packet != [];
    }

    /** What is still to be sent: messages, and bytes of the one being sent. */
    ghost function Left(): nat
      requires Valid()
      reads this
    {
      LeftFrom(messages, Here())
    }

    /** Send packets until all is sent, the transport takes no more, or no progress can be made
        (d1_both.cc:772-817).  `transport` says whether each write in turn succeeds. */
    method SendFlight(mtu: nat, transport: seq<bool>) returns (outcome: Outcome, packets: seq<seq<Record>>)
      requires Valid()
      modifies this`written, this`offset
      ensures Valid() && Leads(messages, old(Here()), Flat(packets), Here()) == true
      ensures outcome == Sent <==> written == |messages|
      ensures outcome == MtuTooSmall <==> written < |messages| && mtu < Need(messages[written])
      ensures FullPackets(messages, old(Here()), packets, Here(), mtu) == true && WrittenOut(packets, transport)
      ensures outcome == Blocked <==>
                && written < |messages| && mtu >= Need(messages[written])
                && (|packets| == |transport| || !transport[|packets|])
    {
      packets, outcome := [], Sent;
      var k := 0;
      ghost var start := Here();
      while written < |messages|
        invariant Valid() && FullPackets(messages, start, packets, Here(), mtu) == true
        invariant k == |packets| && WrittenOut(packets, transport) && outcome == Sent
        decreases Left()
      {
        var oldWritten, oldOffset := written, offset;
        var ok, packet, total := SealNextPacket(mtu);
        if !ok {
          outcome := MtuTooSmall;
          break;
        }
        if k >= |transport| || !transport[k] {
          written, offset, outcome := oldWritten, oldOffset, Blocked;
          break;
        }
        k := k + 1;
        OneMorePacket(messages, start, packets, Position(oldWritten, oldOffset), packet, Here(), mtu);
        packets := packets + [packet];
      }
      PacketsLead(messages, start, packets, Here(), mtu);
    }

    /** Rewind and send again (d1_both.cc:826-835). */
    method Retransmit(mtu: nat, transport: seq<bool>) returns (outcome: Outcome, packets: seq<seq<Record>>)
      requires Valid()
      modifies this`written, this`offset
      ensures Valid() && Leads(messages, Position(0, 0), Flat(packets), Here()) == true
      ensures outcome == Sent <==> written == |messages|
      ensures outcome == MtuTooSmall <==> written < |messages| && mtu < Need(messages[written])
      ensures FullPackets(messages, Position(0, 0), packets, Here(), mtu) == true && WrittenOut(packets, transport)
      ensures outcome == Blocked <==>
                && written < |messages| && mtu >= Need(messages[written])
                && (|packets| == |transport| || !transport[|packets|])
    {
      written, offset := 0, 0;
      outcome, packets := SendFlight(mtu, transport);
    }
  }

  function Flat(packets: seq<seq<Record>>): seq<Record> {
    if packets == [] then [] else Flat(packets[..|packets| - 1]) + packets[|packets| - 1]
  }

  lemma {:induction false} PacketsLead(ms: seq<Outgoing>, p: Position, packets: seq<seq<Record>>, q: Position, mtu: nat)
    requires FullPackets(ms, p, packets, q, mtu) == true
    ensures Leads(ms, p, Flat(packets), q) == true
    decreases |packets|
  {
    if packets != [] {
      var n := |packets| - 1;
      var t :| FullPackets(ms, p, packets[..n], t, mtu) && FullPacket(ms, t, packets[n], q, mtu);
      PacketsLead(ms, p, packets[..n], t, mtu);
      LeadsOn(ms, p, Flat(packets[..n]), t, packets[n], q);
    }
  }

  /** Messages to go, each one counting for its bytes and one more. */
  function Weight(ms: seq<Outgoing>): nat {
    if ms == [] then 0 else 1 + (if ms[0].Handshake? then |ms[0].body| else 0) + Weight(ms[1..])
  }

  ghost function LeftFrom(ms: seq<Outgoing>, p: Position): nat
    requires PositionOk(ms, p)
  {
    if p.written == |ms| then 0
    else
      var rest := ms[p.written..];
      assert rest[0] == ms[p.written];
      Weight(rest) - p.offset
  }

  lemma Nearer(ms: seq<Outgoing>, p: Position, r: Record)
    requires Fits(ms, p, r)
    ensures PositionOk(ms, Beyond(ms, p, r)) && LeftFrom(ms, Beyond(ms, p, r)) < LeftFrom(ms, p)
  {
    var w := p.written;
    assert ms[w..][1..] == ms[w + 1..] && ms[w..][0] == ms[w];
    assert Weight(ms[|ms|..]) == 0;
  }

  lemma OneMoreRecord(ms: seq<Outgoing>, start: Position, packet: seq<Record>, p: Position, r: Record)
    requires Leads(ms, start, packet, p) && Fits(ms, p, r)
    ensures Leads(ms, start, packet + [r], Beyond(ms, p, r)) == true && PositionOk(ms, Beyond(ms, p, r)) == true
    ensures LeftFrom(ms, Beyond(ms, p, r)) < LeftFrom(ms, p)
  {
    OneRecord(ms, p, r);
    LeadsOn(ms, start, packet, p, [r], Beyond(ms, p, r));
    Nearer(ms, p, r);
  }

  // ---- The packets partition the messages ----

  /** The bytes of message `i` in a run of records that starts at `p`. */
  function BytesOf(ms: seq<Outgoing>, p: Position, rs: seq<Record>, i: nat): seq<Byte>
    decreases |rs|
  {
    if rs == [] || p.written >= |ms| then []
    else
      (if p.written == i && rs[0].HandshakeRecord? then rs[0].body else []) + BytesOf(ms, Beyond(ms, p, rs[0]), rs[1..], i)
  }

  /** Where in message `i` a position stands. */
  function Within(ms: seq<Outgoing>, p: Position, i: nat): nat
    requires i < |ms| && ms[i].Handshake?
  {
    if p.written < i then 0 else if p.written == i then p.offset else |ms[i].body|
  }

  /** Between two positions, exactly the bytes between them are sent of each message, once, and in order. */
  lemma {:induction false} Partition(ms: seq<Outgoing>, p: Position, rs: seq<Record>, q: Position, i: nat)
    requires Leads(ms, p, rs, q) && i < |ms| && ms[i].Handshake?
    ensures Within(ms, p, i) <= Within(ms, q, i) <= |ms[i].body|
    ensures BytesOf(ms, p, rs, i) == ms[i].body[Within(ms, p, i)..Within(ms, q, i)]
    decreases |rs|
  {
    if rs != [] {
      var t := Beyond(ms, p, rs[0]);
      OneRecord(ms, p, rs[0]);
      Partition(ms, t, rs[1..], q, i);
      if p.written == i {
        var a, b, c := p.offset, Within(ms, t, i), Within(ms, q, i);
        assert ms[i].body[a..b] + ms[i].body[b..c] == ms[i].body[a..c];
      }
    }
  }

  /** A whole flight carries every message whole. */
  lemma WholeFlight(ms: seq<Outgoing>, rs: seq<Record>, i: nat)
    requires Leads(ms, Position(0, 0), rs, Position(|ms|, 0)) && i < |ms| && ms[i].Handshake?
    ensures BytesOf(ms, Position(0, 0), rs, i) == ms[i].body
  {
    Partition(ms, Position(0, 0), rs, Position(|ms|, 0), i);
    assert ms[i].body[0..|ms[i].body|] == ms[i].body;
  }

  /** Of a run that passes byte `j` of message `i`, one record carries it; of one that passes an empty message,
      one record is that message. */
  lemma {:induction false} SomeRecord(ms: seq<Outgoing>, p: Position, rs: seq<Record>, q: Position, i: nat, j: nat) returns (k: nat)
    requires Leads(ms, p, rs, q) && i < |ms| && ms[i].Handshake? && p.written <= i < q.written
    requires if ms[i].body == [] then j == 0 else Within(ms, p, i) <= j < |ms[i].body|
    ensures k < |rs| && rs[k].HandshakeRecord? && |ms[i].body| < 0x100_0000
    ensures var h := rs[k].header;
            && h.kind == ms[i].kind && h.seqNo == ms[i].seqNo && h.msgLen == |ms[i].body| && h.fragLen == |rs[k].body|
            && PieceOf(Piece(h.fragOff, rs[k].body), ms[i].body)
            && (ms[i].body != [] ==> h.fragOff <= j < h.fragOff + |rs[k].body|)
    decreases |rs|
  {
    var t := Beyond(ms, p, rs[0]);
    if p.written == i && (ms[i].body == [] || j < p.offset + |rs[0].body|) {
      k := 0;
    } else {
      OneRecord(ms, p, rs[0]);
      k := SomeRecord(ms, t, rs[1..], q, i, j);
      k := k + 1;
    }
  }

  // ---- From end to end ----

  /** Every handshake record of the run has arrived, at least once. */
  ghost predicate Arrived(rs: seq<Record>, ds: seq<Delivery>) {
    forall r :: r in rs && r.HandshakeRecord? ==> Delivery(r.header, r.body) in ds
  }

  /** The plaintext of a record. */
  function Wire(r: Record): seq<Byte> {
    match r
    case CcsRecord => [1]
    case HandshakeRecord(h, body) => EncodeHeader(h) + body
  }

  lemma WireIsFragment(r: Record)
    requires r.HandshakeRecord? && |r.body| == r.header.fragLen
    ensures FragmentsOf(Wire(r)) == ([Delivery(r.header, r.body)], true)
  {
    FragmentRoundTrip(r.header, r.body, []);
    assert EncodeHeader(r.header) + r.body + [] == Wire(r);
    OneFragment(Wire(r), r.header, r.body);
  }

  lemma OneFragment(record: seq<Byte>, h: Header, body: seq<Byte>)
    requires |body| == h.fragLen && ParseFragment(record) == Fragment(h, body, []) && record != []
    ensures FragmentsOf(record) == ([Delivery(h, body)], true)
  {
    assert FragmentsOf([]) == ([], true);
    assert [Delivery(h, body)] + [] == [Delivery(h, body)];
  }

  lemma {:induction false} FragmentsArrive(records: seq<seq<Byte>>, k: nat, d: Delivery)
    requires k < |records| && d in FragmentsOf(records[k]).0
    ensures d in AllFragments(records)
  {
    var n := |records| - 1;
    if k < n {
      FragmentsArrive(records[..n], k, d);
    }
  }

  lemma {:induction false} RecordsSized(ms: seq<Outgoing>, p: Position, rs: seq<Record>, q: Position)
    requires Leads(ms, p, rs, q)
    ensures forall r :: r in rs && r.HandshakeRecord? ==> |r.body| == r.header.fragLen
    decreases |rs|
  {
    if rs != [] {
      RecordsSized(ms, Beyond(ms, p, rs[0]), rs[1..], q);
      assert rs == [rs[0]] + rs[1..];
    }
  }

  /** If the bytes of every record are among those opened, its fragment is among those delivered. */
  lemma WireArrives(ms: seq<Outgoing>, p: Position, rs: seq<Record>, q: Position, records: seq<seq<Byte>>)
    requires Leads(ms, p, rs, q) && forall r :: r in rs && r.HandshakeRecord? ==> Wire(r) in records
    ensures Arrived(rs, AllFragments(records))
  {
    RecordsSized(ms, p, rs, q);
    forall r | r in rs && r.HandshakeRecord? ensures Delivery(r.header, r.body) in AllFragments(records) {
      WireIsFragment(r);
      var k :| 0 <= k < |records| && records[k] == Wire(r);
      FragmentsArrive(records, k, Delivery(r.header, r.body));
    }
  }

  lemma {:induction false} PieceArrived(ds: seq<Delivery>, d: Delivery)
    requires d in ds
    ensures Piece(d.header.fragOff, d.body) in PiecesOf(ds, d.header.seqNo)
  {
    if d != ds[|ds| - 1] {
      assert d in ds[..|ds| - 1];
      PieceArrived(ds[..|ds| - 1], d);
    }
  }

  /** The messages of a flight by their numbers. */
  function ScriptOf(ms: seq<Outgoing>): Script {
    if ms == [] then map[]
    else
      var m := ms[|ms| - 1];
      var before := ScriptOf(ms[..|ms| - 1]);
      if m.Handshake? then before[m.seqNo := (m.kind, m.body)] else before
  }

  lemma {:induction false} HandshakesGrow(ms: seq<Outgoing>, i: nat, j: nat)
    requires i <= j <= |ms|
    ensures HandshakesBefore(ms, i) <= HandshakesBefore(ms, j) <= HandshakesBefore(ms, i) + (j - i)
    ensures i < j && ms[i].Handshake? ==> HandshakesBefore(ms, i) < HandshakesBefore(ms, j)
  {
    if i < j {
      HandshakesGrow(ms, i, j - 1);
    }
  }

  lemma {:induction false} HandshakesOfPrefix(ms: seq<Outgoing>, n: nat, i: nat)
    requires i <= n <= |ms|
    ensures HandshakesBefore(ms[..n], i) == HandshakesBefore(ms, i)
  {
    if i > 0 {
      HandshakesOfPrefix(ms, n, i - 1);
    }
  }

  /** The script holds every handshake message of the flight under its own number, and no other number. */
  lemma {:induction false} ScriptHolds(ms: seq<Outgoing>, first: nat)
    requires Numbered(ms, first)
    ensures forall i :: 0 <= i < |ms| && ms[i].Handshake? ==>
              ms[i].seqNo in ScriptOf(ms) && ScriptOf(ms)[ms[i].seqNo] == (ms[i].kind, ms[i].body)
    ensures forall q :: q in ScriptOf(ms) ==> first <= q < first + |ms|
  {
    if ms != [] {
      var n := |ms| - 1;
      forall i | 0 <= i < n && ms[i].Handshake? ensures ms[..n][i].seqNo == first + HandshakesBefore(ms[..n], i) {
        HandshakesOfPrefix(ms, n, i);
      }
      ScriptHolds(ms[..n], first);
      forall i | 0 <= i < n && ms[i].Handshake? && ms[n].Handshake? ensures ms[i].seqNo != ms[n].seqNo {
        HandshakesGrow(ms, i, n);
      }
      forall i | 0 <= i < n && ms[i].Handshake?
        ensures ms[i].seqNo in ScriptOf(ms) && ScriptOf(ms)[ms[i].seqNo] == (ms[i].kind, ms[i].body)
      {
        assert ms[..n][i] == ms[i];
      }
    }
  }

  /** Each fragment is one of a handshake message of the flight. */
  ghost predicate OfFlight(ms: seq<Outgoing>, ds: seq<Delivery>) {
    forall d :: d in ds ==> exists i :: 0 <= i < |ms| && OfMessage(ms[i], d)
  }

  ghost predicate OfMessage(m: Outgoing, d: Delivery) {
    && m.Handshake? && d.header.seqNo == m.seqNo && d.header.kind == m.kind && d.header.msgLen == |m.body|
    && PieceOf(Piece(d.header.fragOff, d.body), m.body)
  }

  /** The flight, or part of a flight, is a single handshake message: what may come once records are encrypted. */
  predicate OneHandshake(ms: seq<Outgoing>) {
    |ms| == 1 && ms[0].Handshake?
  }

  lemma FlightIsGenuine(ms: seq<Outgoing>, ds: seq<Delivery>, readSeq: nat, maxLen: nat, encrypted: bool)
    requires |ms| <= FLIGHT && Numbered(ms, readSeq) && OfFlight(ms, ds) && (encrypted ==> OneHandshake(ms))
    requires forall m :: m in ms && m.Handshake? ==> |m.body| <= maxLen
    ensures AllGenuine(ds, ScriptOf(ms), readSeq, maxLen, encrypted)
  {
    ScriptHolds(ms, readSeq);
    forall d | d in ds
      ensures d.header.seqNo in ScriptOf(ms) && d.header.kind == ScriptOf(ms)[d.header.seqNo].0
      ensures d.header.msgLen == |ScriptOf(ms)[d.header.seqNo].1| <= maxLen && d.header.seqNo != readSeq + FLIGHT
      ensures encrypted ==> d.header.seqNo == readSeq
      ensures PieceOf(Piece(d.header.fragOff, d.body), ScriptOf(ms)[d.header.seqNo].1)
    {
      var i :| 0 <= i < |ms| && OfMessage(ms[i], d);
      assert ms[i] in ms;
    }
  }

  /** A flight of at most FLIGHT messages was sent whole, starting with the message whose turn it is.  Records made of
      fragments of it are opened, in any order, with any repetition and any other fragmentation besides, and every
      record sent is among them.  Then none is refused, and every handshake message of the flight is complete and
      equal to the one sent.  Once records are encrypted, so for one message. */
  lemma EndToEnd(ms: seq<Outgoing>, rs: seq<Record>, readSeq: nat, maxLen: nat, records: seq<seq<Byte>>, ring: Ring,
                 encrypted: bool)
    requires FlightOk(ms) && (encrypted ==> OneHandshake(ms)) && Numbered(ms, readSeq) && Leads(ms, Position(0, 0), rs, Position(|ms|, 0))
    requires forall m :: m in ms && m.Handshake? ==> |m.body| <= maxLen
    requires RingOk(ring, readSeq) && forall i :: 0 <= i < FLIGHT ==> ring[i].None?
    requires (forall r :: r in records ==> FragmentsOf(r).1) && OfFlight(ms, AllFragments(records))
    requires forall r :: r in rs && r.HandshakeRecord? ==> Wire(r) in records
    ensures OpenedAll(ring, readSeq, maxLen, encrypted, records).1 == None
    ensures forall i :: 0 <= i < |ms| && ms[i].Handshake? ==>
              HasMessage(OpenedAll(ring, readSeq, maxLen, encrypted, records).0, ms[i])
  {
    var ds := AllFragments(records);
    WireArrives(ms, Position(0, 0), rs, Position(|ms|, 0), records);
    RecordsDeliver(ring, readSeq, maxLen, encrypted, records);
    FlightIsGenuine(ms, ds, readSeq, maxLen, encrypted);
    GenuineIsAcceptable(ring, readSeq, maxLen, encrypted, ds, ScriptOf(ms));
    NeverRefused(ring, readSeq, maxLen, encrypted, ds);
    forall i | 0 <= i < |ms| && ms[i].Handshake?
      ensures HasMessage(OpenedAll(ring, readSeq, maxLen, encrypted, records).0, ms[i])
    {
      assert ms[i] in ms;
      ScriptHolds(ms, readSeq);
      AnyOrder(ring, readSeq, maxLen, encrypted, ds, ScriptOf(ms), ms[i].seqNo);
      FlightCovers(ms, rs, ds, i);
    }
  }

  /** The message is there, complete and as sent. */
  ghost predicate HasMessage(ring: Ring, m: Outgoing)
    requires m.Handshake? && |ring| == FLIGHT
  {
    var slot := ring[m.seqNo % FLIGHT];
    && slot.Some? && Complete(slot.value)
    && slot.value.data == m.body && slot.value.kind == m.kind && slot.value.seqNo == m.seqNo
  }

  /** The records of a whole flight cover every message of it. */
  lemma FlightCovers(ms: seq<Outgoing>, rs: seq<Record>, ds: seq<Delivery>, i: nat)
    requires Leads(ms, Position(0, 0), rs, Position(|ms|, 0)) && i < |ms| && ms[i].Handshake? && Arrived(rs, ds)
    ensures PiecesOf(ds, ms[i].seqNo) != []
    ensures forall j: nat :: j < |ms[i].body| ==> Covers(PiecesOf(ds, ms[i].seqNo), j)
  {
    var body, q, start, end := ms[i].body, ms[i].seqNo, Position(0, 0), Position(|ms|, 0);
    var k := SomeRecord(ms, start, rs, end, i, 0);
    assert rs[k] in rs;
    PieceArrived(ds, Delivery(rs[k].header, rs[k].body));
    forall j: nat | j < |body| ensures Covers(PiecesOf(ds, q), j) {
      var c := SomeRecord(ms, start, rs, end, i, j);
      assert rs[c] in rs;
      PieceArrived(ds, Delivery(rs[c].header, rs[c].body));
      var x :| 0 <= x < |PiecesOf(ds, q)| && PiecesOf(ds, q)[x] == Piece(rs[c].header.fragOff, rs[c].body);
    }
  }
}
