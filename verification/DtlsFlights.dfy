/** A flight with a change of cipher in it, from its sender to the messages read (ssl/d1_both.cc:252-437, 624-817).

    What comes before the change is opened in the first epoch; when it has been read, the receiver changes its cipher and
    opens the one message that follows.
 */
module DtlsFlights {
  import opened Options
  import opened Coding
  import opened DtlsFragments
  import opened DtlsReceiver
  import opened DtlsSender

  // ---- Parts of a run of records ----

  /** A run of records does not go back, and goes on with every record. */
  lemma {:induction false} GoesOn(ms: seq<Outgoing>, p: Position, rs: seq<Record>, q: Position)
    requires Leads(ms, p, rs, q)
    ensures p.written <= q.written && (p.written == q.written ==> p.offset <= q.offset)
    ensures rs != [] ==> p.written < q.written || p.offset < q.offset
    decreases |rs|
  {
    if rs != [] {
      GoesOn(ms, Beyond(ms, p, rs[0]), rs[1..], q);
    }
  }

  /** A run that passes the start of a message is one up to it and one from it. */
  lemma {:induction false} SplitAt(ms: seq<Outgoing>, p: Position, rs: seq<Record>, q: Position, c: nat) returns (a: seq<Record>, b: seq<Record>)
    requires Leads(ms, p, rs, q) && (p.written < c || p == Position(c, 0)) && c <= q.written
    ensures rs == a + b && Leads(ms, p, a, Position(c, 0)) && Leads(ms, Position(c, 0), b, q)
    decreases |rs|
  {
    if p == Position(c, 0) {
      a, b := [], rs;
      AtStart(ms, p, rs, q);
    } else {
      var t := Beyond(ms, p, rs[0]);
      OneRecord(ms, p, rs[0]);
      var more;
      more, b := SplitAt(ms, t, rs[1..], q, c);
      a := [rs[0]] + more;
      LeadsOn(ms, p, [rs[0]], t, more, Position(c, 0));
      assert rs == [rs[0]] + rs[1..];
    }
  }

  lemma AtStart(ms: seq<Outgoing>, p: Position, rs: seq<Record>, q: Position)
    requires Leads(ms, p, rs, q)
    ensures PositionOk(ms, p)
  {}

  /** Up to a message, a run is one of the messages before it. */
  lemma {:induction false} OfPrefix(ms: seq<Outgoing>, p: Position, rs: seq<Record>, c: nat)
    requires Leads(ms, p, rs, Position(c, 0)) && c <= |ms|
    ensures Leads(ms[..c], p, rs, Position(c, 0))
    decreases |rs|
  {
    GoesOn(ms, p, rs, Position(c, 0));
    if rs != [] {
      OfPrefix(ms, Beyond(ms, p, rs[0]), rs[1..], c);
    }
  }

  function Back(p: Position, c: nat): Position
    requires c <= p.written
  {
    Position(p.written - c, p.offset)
  }

  /** From a message on, a run is one of the messages from there. */
  lemma {:induction false} OfSuffix(ms: seq<Outgoing>, p: Position, rs: seq<Record>, q: Position, c: nat)
    requires Leads(ms, p, rs, q) && c <= p.written && c <= |ms|
    ensures c <= q.written && Leads(ms[c..], Back(p, c), rs, Back(q, c))
    decreases |rs|
  {
    GoesOn(ms, p, rs, q);
    if rs != [] {
      OfSuffix(ms, Beyond(ms, p, rs[0]), rs[1..], q, c);
    }
  }

  // ---- Reading what has come in ----

  function Bodies(ms: seq<Outgoing>): (r: seq<seq<Byte>>)
    requires forall m :: m in ms ==> m.Handshake?
    ensures |r| == |ms| && forall i :: 0 <= i < |r| ==> r[i] == ms[i].body
  {
    seq(|ms|, i requires 0 <= i < |ms| => ms[i].body)
  }

  /** Messages from the `i`th on are there, and nothing else is. */
  ghost predicate Awaiting(ring: Ring, ms: seq<Outgoing>, first: nat, i: nat) {
    && |ring| == FLIGHT && (forall m :: m in ms ==> m.Handshake?)
    && (forall j :: 0 <= j < |ms| ==> ms[j].seqNo == first + j)
    && (forall j :: i <= j < |ms| ==> HasMessage(ring, ms[j]) == true)
    && (forall k :: 0 <= k < FLIGHT && ring[k].Some? ==> ring[k].value.seqNo < first + |ms|)
  }

  /** Read the messages one after the other. */
  method ReadMessages(r: Receiver, ghost ms: seq<Outgoing>, n: nat) returns (bodies: seq<seq<Byte>>)
    requires r.Valid() && n == |ms| <= FLIGHT && Awaiting(r.incoming, ms, r.readSeq, 0) == true
    modifies r
    ensures r.Valid() && r.readSeq == old(r.readSeq) + n && Free(r.incoming)
    ensures (forall m :: m in ms ==> m.Handshake?) && bodies == Bodies(ms)
  {
    ghost var first := r.readSeq;
    bodies := [];
    for i := 0 to n
      invariant r.Valid() && r.readSeq == first + i && Awaiting(r.incoming, ms, first, i) == true
      invariant (forall m :: m in ms ==> m.Handshake?) && bodies == Bodies(ms)[..i]
    {
      assert HasMessage(r.incoming, ms[i]) == true;
      var m := r.GetMessage();
      bodies := bodies + [m.value.data];
      OneRead(r.incoming, ms, first, i);
      r.NextMessage();
    }
  }

  lemma SlotsDiffer(readSeq: nat, a: nat, b: nat)
    requires readSeq <= a < readSeq + FLIGHT && readSeq <= b < readSeq + FLIGHT && a != b
    ensures a % FLIGHT != b % FLIGHT
  {}

  lemma OneRead(ring: Ring, ms: seq<Outgoing>, first: nat, i: nat)
    requires RingOk(ring, first + i) && i < |ms| <= FLIGHT && Awaiting(ring, ms, first, i)
    ensures Awaiting(ring[(first + i) % FLIGHT := None], ms, first, i + 1) == true
  {
    forall j | i + 1 <= j < |ms| ensures HasMessage(ring[(first + i) % FLIGHT := None], ms[j]) == true {
      assert HasMessage(ring, ms[j]) == true && ms[j].seqNo == first + j;
      SlotsDiffer(first + i, first + j, first + i);
    }
  }

  /** Handshake messages, numbered from `first` on, were sent whole as `rs`; and the records opened are made of
      fragments of them, with all of `rs` among them. */
  ghost predicate Comes(ms: seq<Outgoing>, rs: seq<Record>, first: nat, maxLen: nat, records: seq<seq<Byte>>, encrypted: bool) {
    && FlightOk(ms) && (forall m :: m in ms ==> m.Handshake? && |m.body| <= maxLen) && Numbered(ms, first)
    && (encrypted ==> OneHandshake(ms)) && Leads(ms, Position(0, 0), rs, Position(|ms|, 0))
    && (forall r :: r in records ==> FragmentsOf(r).1) && OfFlight(ms, AllFragments(records))
    && (forall r :: r in rs && r.HandshakeRecord? ==> Wire(r) in records)
  }

  predicate Free(ring: Ring) {
    forall k :: 0 <= k < |ring| ==> ring[k].None?
  }

  /** After the messages of a flight have come in, nothing else is there. */
  lemma OnlyTheFlight(ms: seq<Outgoing>, rs: seq<Record>, first: nat, maxLen: nat, records: seq<seq<Byte>>, ring: Ring, encrypted: bool)
    requires Comes(ms, rs, first, maxLen, records, encrypted) && RingOk(ring, first) && Free(ring)
    ensures OpenedAll(ring, first, maxLen, encrypted, records).1 == None
    ensures Awaiting(OpenedAll(ring, first, maxLen, encrypted, records).0, ms, first, 0) == true
  {
    EndToEnd(ms, rs, first, maxLen, records, ring, encrypted);
    RecordsDeliver(ring, first, maxLen, encrypted, records);
    var ds, after := AllFragments(records), OpenedAll(ring, first, maxLen, encrypted, records).0;
    AllNumbered(ms, first);
    NothingElse(ms, first, maxLen, encrypted, ds, ring, after);
    forall j | 0 <= j < |ms| ensures HasMessage(after, ms[j]) == true {
      assert ms[j] in ms;
    }
  }

  lemma NothingElse(ms: seq<Outgoing>, first: nat, maxLen: nat, encrypted: bool, ds: seq<Delivery>, ring: Ring, after: Ring)
    requires RingOk(ring, first) && Free(ring) && Sized(ds) && OfFlight(ms, ds)
    requires forall j :: 0 <= j < |ms| && ms[j].Handshake? ==> ms[j].seqNo == first + j
    requires Delivered(ring, first, maxLen, encrypted, ds) == (after, None)
    ensures forall k :: 0 <= k < FLIGHT && after[k].Some? ==> after[k].value.seqNo < first + |ms|
  {
    forall k | 0 <= k < FLIGHT && after[k].Some? ensures after[k].value.seqNo < first + |ms| {
      var q := after[k].value.seqNo;
      if q >= first + |ms| {
        NoneOf(ms, ds, first, q);
        SlotFollows(ring, first, maxLen, encrypted, ds, q, 0, []);
      }
    }
  }

  /** Open what has come, and read it. */
  method OpenAndRead(r: Receiver, ghost ms: seq<Outgoing>, ghost rs: seq<Record>, n: nat, records: seq<seq<Byte>>, encrypted: bool)
    returns (alert: Option<Alert>, bodies: seq<seq<Byte>>)
    requires r.Valid() && Free(r.incoming) && n == |ms| && Comes(ms, rs, r.readSeq, r.maxLen, records, encrypted) == true
    modifies r
    ensures r.Valid() && Free(r.incoming) && alert == None && r.readSeq == old(r.readSeq) + n
    ensures (forall m :: m in ms ==> m.Handshake?) && bodies == Bodies(ms)
  {
    OnlyTheFlight(ms, rs, r.readSeq, r.maxLen, records, r.incoming, encrypted);
    alert := r.OpenRecords(records, encrypted);
    bodies := ReadMessages(r, ms, n);
  }

  lemma {:induction false} AllHandshakes(ms: seq<Outgoing>, i: nat)
    requires i <= |ms| && forall m :: m in ms ==> m.Handshake?
    ensures HandshakesBefore(ms, i) == i
  {
    if i > 0 {
      assert ms[i - 1] in ms;
      AllHandshakes(ms, i - 1);
    }
  }

  lemma AllNumbered(ms: seq<Outgoing>, first: nat)
    requires Numbered(ms, first) && forall m :: m in ms ==> m.Handshake?
    ensures forall j :: 0 <= j < |ms| ==> ms[j].seqNo == first + j
  {
    forall j | 0 <= j < |ms| ensures ms[j].seqNo == first + j {
      assert ms[j] in ms;
      AllHandshakes(ms, j);
    }
  }

  lemma {:induction false} NoneOf(ms: seq<Outgoing>, ds: seq<Delivery>, first: nat, q: nat)
    requires OfFlight(ms, ds) && q >= first + |ms| && forall j :: 0 <= j < |ms| && ms[j].Handshake? ==> ms[j].seqNo == first + j
    ensures PiecesOf(ds, q) == [] && forall d :: d in ds ==> d.header.seqNo != q
  {
    forall d | d in ds ensures d.header.seqNo != q {
      var i :| 0 <= i < |ms| && OfMessage(ms[i], d);
    }
    if ds != [] {
      var n := |ds| - 1;
      assert ds[n] in ds && forall d :: d in ds[..n] ==> d in ds;
      NoneOf(ms, ds[..n], first, q);
    }
  }

  // ---- Across the change of cipher ----

  /** Handshake messages, a change of cipher, and the one message it protects. */
  ghost predicate Changes(ms: seq<Outgoing>, c: nat) {
    && FlightOk(ms) && |ms| == c + 2 && ms[c].ChangeCipherSpec?
    && forall i :: 0 <= i < |ms| && i != c ==> ms[i].Handshake?
  }

  lemma NumbersOfParts(ms: seq<Outgoing>, first: nat, c: nat)
    requires Changes(ms, c) && Numbered(ms, first)
    ensures Numbered(ms[..c], first) && Numbered(ms[c + 1..], first + c)
  {
    var a, b := ms[..c], ms[c + 1..];
    forall m | m in a ensures m.Handshake? {
      var i :| 0 <= i < c && a[i] == m;
      assert ms[i] == m;
    }
    forall i | 0 <= i < c ensures a[i].seqNo == first + HandshakesBefore(a, i) {
      HandshakesOfPrefix(ms, c, i);
      assert a[i] == ms[i];
    }
    AllHandshakes(a, c);
    HandshakesOfPrefix(ms, c, c);
    assert HandshakesBefore(ms, c + 1) == HandshakesBefore(ms, c) + 0;
    assert b[0] == ms[c + 1] && HandshakesBefore(b, 0) == 0;
  }

  lemma PartsOk(ms: seq<Outgoing>, c: nat)
    requires Changes(ms, c)
    ensures FlightOk(ms[..c]) && (forall m :: m in ms[..c] ==> m.Handshake?)
    ensures FlightOk(ms[c + 1..]) && OneHandshake(ms[c + 1..]) && (forall m :: m in ms[c + 1..] ==> m.Handshake?)
  {
    forall m | m in ms[..c] ensures m in ms && m.Handshake? {
      var i :| 0 <= i < c && ms[..c][i] == m;
      assert ms[i] == m;
    }
    assert ms[c + 1..] == [ms[c + 1]] && ms[c + 1] in ms;
  }

  /** The records of the messages before the change are among those opened in the first epoch, the others among those
      opened in the next; and what else is opened is made of fragments of the same messages. */
  ghost predicate Spread(ms: seq<Outgoing>, rs: seq<Record>, first: nat, maxLen: nat, c: nat, plain: seq<seq<Byte>>,
                         sealed: seq<seq<Byte>>)
  {
    && Changes(ms, c) && Numbered(ms, first) && Leads(ms, Position(0, 0), rs, Position(|ms|, 0))
    && (forall m :: m in ms && m.Handshake? ==> |m.body| <= maxLen)
    && (forall x :: x in plain ==> FragmentsOf(x).1) && OfFlight(ms[..c], AllFragments(plain))
    && (forall x :: x in sealed ==> FragmentsOf(x).1) && OfFlight(ms[c + 1..], AllFragments(sealed))
    && (forall x :: x in rs && x.HandshakeRecord? ==> Wire(x) in if x.header.seqNo < first + c then plain else sealed)
  }

  /** A whole flight with a change of cipher in it is sent in the records `rs`.  Those of the messages before the change
      are among what is opened in the first epoch, in any order and with any other fragments of these messages; those of
      the message after it among what is opened, encrypted, once the others have been read.  Then nothing is refused,
      and the messages read are those sent, in order. */
  method ReceiveFlight(r: Receiver, ghost ms: seq<Outgoing>, ghost rs: seq<Record>, c: nat, plain: seq<seq<Byte>>, sealed: seq<seq<Byte>>)
    returns (alert: Option<Alert>, bodies: seq<seq<Byte>>)
    requires r.Valid() && Free(r.incoming) && Spread(ms, rs, r.readSeq, r.maxLen, c, plain, sealed) == true
    modifies r
    ensures r.Valid() && Free(r.incoming) && alert == None && r.readSeq == old(r.readSeq) + c + 1
    ensures AllBodies(ms, c, bodies) == true
  {
    ghost var a, b := PartsCome(ms, rs, r.readSeq, r.maxLen, c, plain, sealed);
    alert, bodies := OpenAndRead(r, ms[..c], a, c, plain, false);
    var last;
    alert, last := OpenAndRead(r, ms[c + 1..], b, 1, sealed, true);
    BothParts(ms, c, bodies, last);
    bodies := bodies + last;
  }

  /** The bodies of all handshake messages, in order. */
  ghost predicate AllBodies(ms: seq<Outgoing>, c: nat, bodies: seq<seq<Byte>>) {
    && |ms| == c + 2 && |bodies| == c + 1 && (forall i :: 0 <= i < |ms| && i != c ==> ms[i].Handshake?)
    && forall i :: 0 <= i < |ms| && i != c ==> bodies[if i < c then i else c] == ms[i].body
  }

  lemma BothParts(ms: seq<Outgoing>, c: nat, bodies: seq<seq<Byte>>, last: seq<seq<Byte>>)
    requires |ms| == c + 2 && (forall m :: m in ms[..c] || m in ms[c + 1..] ==> m.Handshake?)
    requires bodies == Bodies(ms[..c]) && last == Bodies(ms[c + 1..])
    ensures AllBodies(ms, c, bodies + last) == true
  {
    forall i | 0 <= i < |ms| && i != c ensures ms[i].Handshake? && (bodies + last)[if i < c then i else c] == ms[i].body {
      if i < c {
        assert ms[..c][i] == ms[i];
      } else {
        assert ms[c + 1..][0] == ms[i];
      }
    }
  }

  lemma PartsCome(ms: seq<Outgoing>, rs: seq<Record>, first: nat, maxLen: nat, c: nat, plain: seq<seq<Byte>>, sealed: seq<seq<Byte>>)
    returns (a: seq<Record>, b: seq<Record>)
    requires Spread(ms, rs, first, maxLen, c, plain, sealed)
    ensures Comes(ms[..c], a, first, maxLen, plain, false) == true
    ensures Comes(ms[c + 1..], b, first + c, maxLen, sealed, true) == true
  {
    a, b := PartsOfRun(ms, rs, first, c, plain, sealed);
    FirstPart(ms, a, first, maxLen, c, plain);
    SecondPart(ms, b, first, maxLen, c, sealed);
  }

  lemma FirstPart(ms: seq<Outgoing>, a: seq<Record>, first: nat, maxLen: nat, c: nat, plain: seq<seq<Byte>>)
    requires Changes(ms, c) && Numbered(ms, first) && forall m :: m in ms && m.Handshake? ==> |m.body| <= maxLen
    requires Leads(ms[..c], Position(0, 0), a, Position(c, 0)) && forall x :: x in a && x.HandshakeRecord? ==> Wire(x) in plain
    requires (forall x :: x in plain ==> FragmentsOf(x).1) && OfFlight(ms[..c], AllFragments(plain))
    ensures Comes(ms[..c], a, first, maxLen, plain, false) == true
  {
    PartsOk(ms, c);
    NumbersOfParts(ms, first, c);
    SmallParts(ms, c, maxLen);
  }

  lemma SecondPart(ms: seq<Outgoing>, b: seq<Record>, first: nat, maxLen: nat, c: nat, sealed: seq<seq<Byte>>)
    requires Changes(ms, c) && Numbered(ms, first) && forall m :: m in ms && m.Handshake? ==> |m.body| <= maxLen
    requires Leads(ms[c + 1..], Position(0, 0), b, Position(1, 0)) && forall x :: x in b && x.HandshakeRecord? ==> Wire(x) in sealed
    requires (forall x :: x in sealed ==> FragmentsOf(x).1) && OfFlight(ms[c + 1..], AllFragments(sealed))
    ensures Comes(ms[c + 1..], b, first + c, maxLen, sealed, true) == true
  {
    PartsOk(ms, c);
    NumbersOfParts(ms, first, c);
    SmallParts(ms, c, maxLen);
  }

  lemma SmallParts(ms: seq<Outgoing>, c: nat, maxLen: nat)
    requires Changes(ms, c) && forall m :: m in ms && m.Handshake? ==> |m.body| <= maxLen
    ensures forall m :: m in ms[..c] || m in ms[c + 1..] ==> m.Handshake? && |m.body| <= maxLen
  {
    PartsOk(ms, c);
    forall m | m in ms[..c] || m in ms[c + 1..] ensures m in ms {}
  }

  /** The records of the messages before the change, and of the one after it. */
  lemma PartsOfRun(ms: seq<Outgoing>, rs: seq<Record>, first: nat, c: nat, plain: seq<seq<Byte>>, sealed: seq<seq<Byte>>)
    returns (a: seq<Record>, b: seq<Record>)
    requires Changes(ms, c) && Numbered(ms, first) && Leads(ms, Position(0, 0), rs, Position(|ms|, 0))
    requires forall x :: x in rs && x.HandshakeRecord? ==> Wire(x) in if x.header.seqNo < first + c then plain else sealed
    ensures Leads(ms[..c], Position(0, 0), a, Position(c, 0)) && Leads(ms[c + 1..], Position(0, 0), b, Position(1, 0))
    ensures forall x :: x in a && x.HandshakeRecord? ==> Wire(x) in plain
    ensures forall x :: x in b && x.HandshakeRecord? ==> Wire(x) in sealed
  {
    var rest, change;
    a, rest := SplitAt(ms, Position(0, 0), rs, Position(|ms|, 0), c);
    change, b := SplitAt(ms, Position(c, 0), rest, Position(|ms|, 0), c + 1);
    OfPrefix(ms, Position(0, 0), a, c);
    OfSuffix(ms, Position(c + 1, 0), b, Position(|ms|, 0), c + 1);
    NumbersInParts(ms, first, c);
    assert forall x :: x in a || x in b ==> x in rs;
    NumbersOfRecords(ms[..c], Position(0, 0), a, Position(c, 0), first, first + c);
    NumbersOfRecords(ms[c + 1..], Position(0, 0), b, Position(1, 0), first + c, first + c + 1);
  }

  lemma NumbersInParts(ms: seq<Outgoing>, first: nat, c: nat)
    requires Changes(ms, c) && Numbered(ms, first)
    ensures NumbersWithin(ms[..c], first, first + c) && NumbersWithin(ms[c + 1..], first + c, first + c + 1)
  {
    PartsOk(ms, c);
    NumbersOfParts(ms, first, c);
    AllNumbered(ms[..c], first);
    AllNumbered(ms[c + 1..], first + c);
  }

  predicate NumbersWithin(ms: seq<Outgoing>, low: nat, high: nat) {
    forall i :: 0 <= i < |ms| && ms[i].Handshake? ==> low <= ms[i].seqNo < high
  }

  lemma {:induction false} NumbersOfRecords(ms: seq<Outgoing>, p: Position, rs: seq<Record>, q: Position, low: nat, high: nat)
    requires Leads(ms, p, rs, q) && NumbersWithin(ms, low, high)
    ensures forall x :: x in rs && x.HandshakeRecord? ==> low <= x.header.seqNo < high
    decreases |rs|
  {
    if rs != [] {
      NumbersOfRecords(ms, Beyond(ms, p, rs[0]), rs[1..], q, low, high);
      assert rs == [rs[0]] + rs[1..];
    }
  }
}
