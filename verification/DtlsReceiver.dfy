/** Receiving handshake messages (ssl/d1_both.cc:252-437).

    Records come in opened; timers, epochs beyond the first two and alerts' transmission are not modelled.  The
    read sequence number does not wrap.
 */
module DtlsReceiver {
  import opened Options
  import opened Coding
  import opened DtlsFragments

  const FLIGHT: nat := 7

  datatype Alert = DecodeError | IllegalParameter | UnexpectedMessage | InternalError

  datatype Verdict = Accepted | Ignored | Refused(alert: Alert)

  type Ring = seq<Option<Message>>

  /** Every slot holds only a message of the window, and of the one number that belongs there. */
  ghost predicate RingOk(ring: Ring, readSeq: nat) {
    && |ring| == FLIGHT
    && forall i :: 0 <= i < FLIGHT && ring[i].Some? ==>
         var m := ring[i].value;
         MessageOk(m) && m.seqNo % FLIGHT == i && readSeq <= m.seqNo < readSeq + FLIGHT
  }

  /** Two numbers of one window that share a slot are the same: the assertion on line 275 holds. */
  lemma SlotDecides(readSeq: nat, a: nat, b: nat)
    requires readSeq <= a < readSeq + FLIGHT && readSeq <= b < readSeq + FLIGHT && a % FLIGHT == b % FLIGHT
    ensures a == b
  {}

  /** How a fragment is treated before its bytes are looked at. */
  function Judge(h: Header, ring: Ring, readSeq: nat, maxLen: nat, encrypted: bool): Verdict
    requires |ring| == FLIGHT
  {
    if h.fragOff > h.msgLen || h.fragOff + h.fragLen > h.msgLen || h.msgLen > maxLen then Refused(IllegalParameter)
    else if encrypted && h.seqNo != readSeq then Refused(UnexpectedMessage)
    else if h.seqNo < readSeq || h.seqNo > readSeq + FLIGHT then Ignored
    else if h.seqNo - readSeq >= FLIGHT then Refused(InternalError)
    else
      match ring[h.seqNo % FLIGHT]
      case None => Accepted
      case Some(m) => if m.kind != h.kind || m.len != h.msgLen then Refused(IllegalParameter) else Accepted
  }

  /** A fragment too far in the future is ignored, except the very next one: the test that ignores allows
      FLIGHT, the one that looks the slot up does not, and the connection fails.  For a fragment well within
      its message, on an unencrypted epoch, that is exactly the case of an internal error. */
  lemma OnePastTheWindow(h: Header, ring: Ring, readSeq: nat, maxLen: nat)
    requires |ring| == FLIGHT && h.fragOff + h.fragLen <= h.msgLen <= maxLen
    ensures Judge(h, ring, readSeq, maxLen, false) == Refused(InternalError) <==> h.seqNo == readSeq + FLIGHT
    ensures Judge(h, ring, readSeq, maxLen, false) == Ignored <==> h.seqNo < readSeq || h.seqNo > readSeq + FLIGHT
  {}

  /** The message a fragment's slot holds, or a fresh one. */
  function SlotOr(ring: Ring, h: Header): Message
    requires |ring| == FLIGHT
  {
    if ring[h.seqNo % FLIGHT].Some? then ring[h.seqNo % FLIGHT].value else Fresh(h)
  }

  /** The ring after a fragment. */
  ghost function Taken(ring: Ring, readSeq: nat, maxLen: nat, encrypted: bool, h: Header, body: seq<Byte>): Ring
    requires RingOk(ring, readSeq) && |body| == h.fragLen
  {
    if Judge(h, ring, readSeq, maxLen, encrypted) == Accepted then
      FreshOk(h);
      ring[h.seqNo % FLIGHT := Some(Absorbed(SlotOr(ring, h), h.fragOff, body))]
    else ring
  }

  lemma TakenOk(ring: Ring, readSeq: nat, maxLen: nat, encrypted: bool, h: Header, body: seq<Byte>)
    requires RingOk(ring, readSeq) && |body| == h.fragLen
    ensures RingOk(Taken(ring, readSeq, maxLen, encrypted, h, body), readSeq)
  {
    if Judge(h, ring, readSeq, maxLen, encrypted) == Accepted {
      FreshOk(h);
      AbsorbedAbsorbs(SlotOr(ring, h), h.fragOff, body);
    }
  }

  /** The ring after a record, and the alert if one of its fragments is refused. */
  ghost function Opened(ring: Ring, readSeq: nat, maxLen: nat, encrypted: bool, record: seq<Byte>): (Ring, Option<Alert>)
    requires RingOk(ring, readSeq)
    decreases |record|
  {
    if record == [] then (ring, None)
    else
      match ParseFragment(record)
      case Malformed => (ring, Some(DecodeError))
      case Fragment(h, body, rest) =>
        TakenOk(ring, readSeq, maxLen, encrypted, h, body);
        match Judge(h, ring, readSeq, maxLen, encrypted)
        case Refused(alert) => (ring, Some(alert))
        case _ => Opened(Taken(ring, readSeq, maxLen, encrypted, h, body), readSeq, maxLen, encrypted, rest)
  }

  class Receiver {
    var incoming: Ring
    var readSeq: nat
    const maxLen: nat

    ghost predicate Valid()
      reads this
    {
      RingOk(incoming, readSeq)
    }

    constructor (maxLen: nat)
      ensures Valid() && readSeq == 0 && incoming == seq(FLIGHT, _ => None) && this.maxLen == maxLen
    {
      incoming, readSeq, this.maxLen := seq(FLIGHT, _ => None), 0, maxLen;
    }

    /** The message a fragment belongs to, put in its slot if it is new (d1_both.cc:264-294). */
    method GetIncomingMessage(h: Header) returns (frag: Option<Message>, alert: Alert)
      requires Valid()
      modifies this`incoming
      ensures Valid() && (frag.None? ==> incoming == old(incoming))
      ensures frag.Some? <==> readSeq <= h.seqNo < readSeq + FLIGHT
                              && match old(incoming)[h.seqNo % FLIGHT]
                                 case None => true
                                 case Some(m) => m.kind == h.kind && m.len == h.msgLen
      ensures frag.Some? ==> incoming == old(incoming)[h.seqNo % FLIGHT := frag]
      ensures frag.Some? ==> frag == if old(incoming)[h.seqNo % FLIGHT].Some? then old(incoming)[h.seqNo % FLIGHT]
                                     else Some(Fresh(h))
      ensures frag.Some? ==> frag.value.seqNo == h.seqNo && frag.value.kind == h.kind && frag.value.len == h.msgLen
      ensures frag.None? ==> alert == if readSeq <= h.seqNo < readSeq + FLIGHT then IllegalParameter else InternalError
    {
      frag, alert := None, InternalError;
      if h.seqNo < readSeq || h.seqNo - readSeq >= FLIGHT {
        return;
      }
      var idx := h.seqNo % FLIGHT;
      if incoming[idx].Some? {
        SlotDecides(readSeq, incoming[idx].value.seqNo, h.seqNo);
        if incoming[idx].value.kind != h.kind || incoming[idx].value.len != h.msgLen {
          return None, IllegalParameter;
        }
        frag := incoming[idx];
        assert incoming == incoming[idx := frag];
        return;
      }
      FreshOk(h);
      frag := Some(Fresh(h));
      incoming := incoming[idx := frag];
    }

    /** One turn of the loop over a record's fragments (d1_both.cc:361-401). */
    method TakeFragment(h: Header, body: seq<Byte>, encrypted: bool) returns (verdict: Verdict)
      requires Valid() && |body| == h.fragLen
      modifies this`incoming
      ensures Valid() && verdict == Judge(h, old(incoming), readSeq, maxLen, encrypted)
      ensures incoming == Taken(old(incoming), readSeq, maxLen, encrypted, h, body)
    {
      if h.fragOff > h.msgLen || h.fragOff + h.fragLen > h.msgLen || h.msgLen > maxLen {
        return Refused(IllegalParameter);
      }
      if encrypted && h.seqNo != readSeq {
        return Refused(UnexpectedMessage);
      }
      if h.seqNo < readSeq || h.seqNo > readSeq + FLIGHT {
        return Ignored;
      }
      var frag, alert := GetIncomingMessage(h);
      if frag.None? {
        return Refused(alert);
      }
      var i := h.seqNo % FLIGHT;
      TakenOk(incoming, readSeq, maxLen, encrypted, h, body);
      TakenOk(old(incoming), readSeq, maxLen, encrypted, h, body);
      var t := Absorb(frag.value, h.fragOff, body);
      incoming := incoming[i := Some(t)];
      verdict := Accepted;
    }

    /** Is the message whose turn it is all there? */
    predicate CurrentComplete()
      requires |incoming| == FLIGHT
      reads this
    {
      incoming[readSeq % FLIGHT].Some? && Complete(incoming[readSeq % FLIGHT].value)
    }

    /** The complete message whose turn it is, or nothing (d1_both.cc:407-423). */
    method GetMessage() returns (m: Option<Message>)
      requires Valid()
      ensures m.Some? <==> CurrentComplete()
      ensures m.Some? ==> m.value.seqNo == readSeq && m == incoming[readSeq % FLIGHT]
    {
      m := None;
      if CurrentComplete() {
        m := incoming[readSeq % FLIGHT];
        SlotDecides(readSeq, m.value.seqNo, readSeq);
      }
    }

    /** Go on to the next message (d1_both.cc:425-437). */
    method NextMessage()
      requires Valid() && CurrentComplete()
      modifies this
      ensures Valid() && readSeq == old(readSeq) + 1
      ensures incoming == old(incoming)[old(readSeq) % FLIGHT := None]
    {
      var index := readSeq % FLIGHT;
      SlotsAfter(incoming, readSeq);
      incoming := incoming[index := None];
      readSeq := readSeq + 1;
    }

    /** Take in all fragments of a record, until one is refused (d1_both.cc:349-404). */
    method OpenHandshake(record: seq<Byte>, encrypted: bool) returns (alert: Option<Alert>)
      requires Valid()
      modifies this`incoming
      ensures Valid() && (incoming, alert) == Opened(old(incoming), readSeq, maxLen, encrypted, record)
    {
      var cbs := record;
      ghost var goal := Opened(incoming, readSeq, maxLen, encrypted, record);
      while cbs != []
        invariant Valid() && goal == Opened(incoming, readSeq, maxLen, encrypted, cbs)
        decreases |cbs|
      {
        var parsed := ParseFragment(cbs);
        if parsed.Malformed? {
          return Some(DecodeError);
        }
        var verdict := TakeFragment(parsed.header, parsed.body, encrypted);
        if verdict.Refused? {
          return Some(verdict.alert);
        }
        cbs := parsed.rest;
      }
      alert := None;
    }

    /** Open records one after the other; an alert ends the connection. */
    method OpenRecords(records: seq<seq<Byte>>, encrypted: bool) returns (alert: Option<Alert>)
      requires Valid()
      modifies this`incoming
      ensures Valid() && (incoming, alert) == OpenedAll(old(incoming), readSeq, maxLen, encrypted, records)
    {
      alert := None;
      assert records[..0] == [];
      for i := 0 to |records|
        invariant Valid() && alert.None?
        invariant (incoming, None) == OpenedAll(old(incoming), readSeq, maxLen, encrypted, records[..i])
      {
        assert records[..i + 1][..i] == records[..i];
        alert := OpenHandshake(records[i], encrypted);
        if alert.Some? {
          StopsThere(old(incoming), readSeq, maxLen, encrypted, records, i + 1);
          return;
        }
      }
      assert records[..|records|] == records;
    }
  }

  /** After a refusal nothing more is opened. */
  lemma {:induction false} StopsThere(ring: Ring, readSeq: nat, maxLen: nat, encrypted: bool, records: seq<seq<Byte>>, n: nat)
    requires RingOk(ring, readSeq) && n <= |records| && OpenedAll(ring, readSeq, maxLen, encrypted, records[..n]).1.Some?
    ensures OpenedAll(ring, readSeq, maxLen, encrypted, records) == OpenedAll(ring, readSeq, maxLen, encrypted, records[..n])
    decreases |records| - n
  {
    if n < |records| {
      assert records[..n + 1][..n] == records[..n];
      StopsThere(ring, readSeq, maxLen, encrypted, records, n + 1);
    } else {
      assert records[..n] == records;
    }
  }

  lemma SlotsAfter(ring: Ring, readSeq: nat)
    requires RingOk(ring, readSeq)
    ensures RingOk(ring[readSeq % FLIGHT := None], readSeq + 1)
  {
    forall i | 0 <= i < FLIGHT && i != readSeq % FLIGHT && ring[i].Some?
      ensures ring[i].value.seqNo != readSeq
    {
      assert ring[i].value.seqNo % FLIGHT == i;
    }
  }

  // ---- Delivery in any order ----

  datatype Delivery = Delivery(header: Header, body: seq<Byte>)

  ghost predicate Sized(ds: seq<Delivery>) {
    forall d :: d in ds ==> |d.body| == d.header.fragLen
  }

  /** The ring after fragments have been delivered one by one, and the alert if one was refused: the connection
      ends there, and nothing after it is looked at. */
  ghost function Delivered(ring: Ring, readSeq: nat, maxLen: nat, encrypted: bool, ds: seq<Delivery>): (r: (Ring, Option<Alert>))
    requires RingOk(ring, readSeq) && Sized(ds)
    ensures RingOk(r.0, readSeq)
  {
    if ds == [] then (ring, None)
    else
      var (before, alert) := Delivered(ring, readSeq, maxLen, encrypted, ds[..|ds| - 1]);
      if alert.Some? then (before, alert) else OneMore(before, readSeq, maxLen, encrypted, ds[|ds| - 1])
  }

  ghost function OneMore(ring: Ring, readSeq: nat, maxLen: nat, encrypted: bool, d: Delivery): (r: (Ring, Option<Alert>))
    requires RingOk(ring, readSeq) && |d.body| == d.header.fragLen
    ensures RingOk(r.0, readSeq)
  {
    TakenOk(ring, readSeq, maxLen, encrypted, d.header, d.body);
    (Taken(ring, readSeq, maxLen, encrypted, d.header, d.body),
     match Judge(d.header, ring, readSeq, maxLen, encrypted) case Refused(a) => Some(a) case _ => None)
  }

  lemma {:induction false} DeliveredTwice(ring: Ring, readSeq: nat, maxLen: nat, encrypted: bool, a: seq<Delivery>, b: seq<Delivery>)
    requires RingOk(ring, readSeq) && Sized(a + b)
    ensures Sized(a) && Sized(b)
    ensures var first := Delivered(ring, readSeq, maxLen, encrypted, a);
      Delivered(ring, readSeq, maxLen, encrypted, a + b)
      == if first.1.Some? then first else Delivered(first.0, readSeq, maxLen, encrypted, b)
    decreases |b|
  {
    assert forall d :: d in a || d in b ==> d in a + b;
    if b == [] {
      assert a + b == a;
    } else {
      var n := |b| - 1;
      assert (a + b)[..|a + b| - 1] == a + b[..n];
      assert forall d :: d in a + b[..n] ==> d in a + b;
      DeliveredTwice(ring, readSeq, maxLen, encrypted, a, b[..n]);
    }
  }

  // ---- Exactly what is refused ----

  predicate InBounds(h: Header, maxLen: nat) {
    h.fragOff + h.fragLen <= h.msgLen <= maxLen
  }

  predicate InWindow(h: Header, readSeq: nat) {
    readSeq <= h.seqNo < readSeq + FLIGHT
  }

  /** What a slot, or a fragment, says the message is. */
  function IdentityOf(slot: Option<Message>): Option<(Byte, nat)> {
    if slot.Some? then Some((slot.value.kind, slot.value.len)) else None
  }

  function Identity(h: Header): (Byte, nat) {
    (h.kind, h.msgLen)
  }

  /** What can be told of a fragment by itself: it lies inside its message, which is not too long, nor the very
      next after the window; and once records are encrypted it is of the message whose turn it is. */
  predicate Admissible(h: Header, readSeq: nat, maxLen: nat, encrypted: bool) {
    InBounds(h, maxLen) && (encrypted ==> h.seqNo == readSeq) && h.seqNo != readSeq + FLIGHT
  }

  predicate AgreesWithSlot(h: Header, ring: Ring, readSeq: nat)
    requires |ring| == FLIGHT
  {
    InWindow(h, readSeq) && ring[h.seqNo % FLIGHT].Some? ==> IdentityOf(ring[h.seqNo % FLIGHT]) == Some(Identity(h))
  }

  /** Two fragments of one message of the window that say different things of it. */
  predicate Clash(a: Header, b: Header, readSeq: nat) {
    a.seqNo == b.seqNo && InWindow(a, readSeq) && Identity(a) != Identity(b)
  }

  /** Every fragment is admissible and agrees with what its slot holds at the start, and no two clash. */
  ghost predicate Acceptable(ring: Ring, readSeq: nat, maxLen: nat, encrypted: bool, ds: seq<Delivery>)
    requires |ring| == FLIGHT
  {
    && (forall d :: d in ds ==> Admissible(d.header, readSeq, maxLen, encrypted) && AgreesWithSlot(d.header, ring, readSeq))
    && (forall d, e :: d in ds && e in ds ==> !Clash(d.header, e.header, readSeq))
  }

  lemma JudgeRefuses(h: Header, ring: Ring, readSeq: nat, maxLen: nat, encrypted: bool)
    requires |ring| == FLIGHT
    ensures Judge(h, ring, readSeq, maxLen, encrypted).Refused? <==>
            !(Admissible(h, readSeq, maxLen, encrypted) && AgreesWithSlot(h, ring, readSeq))
    ensures Judge(h, ring, readSeq, maxLen, encrypted) == Accepted ==> InWindow(h, readSeq)
    ensures !Judge(h, ring, readSeq, maxLen, encrypted).Refused? && InWindow(h, readSeq) ==>
            Judge(h, ring, readSeq, maxLen, encrypted) == Accepted
  {
  }

  /** The first fragment of message `q`. */
  function FirstOf(ds: seq<Delivery>, q: nat): (r: Option<Header>)
    ensures r.Some? ==> r.value.seqNo == q && exists d :: d in ds && d.header == r.value
    ensures r.None? ==> forall d :: d in ds ==> d.header.seqNo != q
  {
    if ds == [] then None
    else
      var r := FirstOf(ds[..|ds| - 1], q);
      var d := ds[|ds| - 1];
      assert ds == ds[..|ds| - 1] + [d];
      if r.Some? then r else if d.header.seqNo == q then Some(d.header) else None
  }

  /** While nothing is refused, what a slot says its message is was said at the start, or by the first fragment. */
  lemma {:induction false} SlotIdentity(ring: Ring, readSeq: nat, maxLen: nat, encrypted: bool, ds: seq<Delivery>, q: nat)
    requires RingOk(ring, readSeq) && Sized(ds) && readSeq <= q < readSeq + FLIGHT
    requires Delivered(ring, readSeq, maxLen, encrypted, ds).1.None?
    ensures IdentityOf(Delivered(ring, readSeq, maxLen, encrypted, ds).0[q % FLIGHT])
            == if ring[q % FLIGHT].Some? then IdentityOf(ring[q % FLIGHT])
               else if FirstOf(ds, q).Some? then Some(Identity(FirstOf(ds, q).value)) else None
  {
    if ds != [] {
      var n := |ds| - 1;
      var d, before := ds[n], Delivered(ring, readSeq, maxLen, encrypted, ds[..n]).0;
      SlotIdentity(ring, readSeq, maxLen, encrypted, ds[..n], q);
      JudgeRefuses(d.header, before, readSeq, maxLen, encrypted);
      if d.header.seqNo == q {
        OwnIdentity(before, readSeq, maxLen, encrypted, d);
      } else {
        OthersKeepSlot(before, readSeq, maxLen, encrypted, d, q);
      }
    }
  }

  lemma OwnIdentity(ring: Ring, readSeq: nat, maxLen: nat, encrypted: bool, d: Delivery)
    requires RingOk(ring, readSeq) && |d.body| == d.header.fragLen
    requires Judge(d.header, ring, readSeq, maxLen, encrypted) == Accepted
    ensures IdentityOf(Taken(ring, readSeq, maxLen, encrypted, d.header, d.body)[d.header.seqNo % FLIGHT]) == Some(Identity(d.header))
  {
    FreshOk(d.header);
    AbsorbedAbsorbs(SlotOr(ring, d.header), d.header.fragOff, d.body);
  }

  /** No fragment is refused, in whatever order they come, if and only if each is admissible and agrees with its
      slot and no two of them clash: all of which can be seen before delivery. */
  lemma {:induction false} NeverRefused(ring: Ring, readSeq: nat, maxLen: nat, encrypted: bool, ds: seq<Delivery>)
    requires RingOk(ring, readSeq) && Sized(ds)
    ensures Delivered(ring, readSeq, maxLen, encrypted, ds).1.None? <==> Acceptable(ring, readSeq, maxLen, encrypted, ds)
  {
    if ds != [] {
      var n := |ds| - 1;
      var d := ds[n];
      assert ds == ds[..n] + [d];
      NeverRefused(ring, readSeq, maxLen, encrypted, ds[..n]);
      if Delivered(ring, readSeq, maxLen, encrypted, ds[..n]).1.None? {
        var before := Delivered(ring, readSeq, maxLen, encrypted, ds[..n]).0;
        JudgeRefuses(d.header, before, readSeq, maxLen, encrypted);
        if InWindow(d.header, readSeq) {
          SlotIdentity(ring, readSeq, maxLen, encrypted, ds[..n], d.header.seqNo);
          AgreesWithAll(ring, readSeq, maxLen, encrypted, ds[..n], d, before);
        }
        AcceptableMore(ring, readSeq, maxLen, encrypted, ds[..n], d);
      }
    }
  }

  /** The last fragment agrees with the slot as it then is exactly if it agrees with it as it was at the start, and
      with every fragment before. */
  lemma AgreesWithAll(ring: Ring, readSeq: nat, maxLen: nat, encrypted: bool, ds: seq<Delivery>, d: Delivery, after: Ring)
    requires |ring| == |after| == FLIGHT && InWindow(d.header, readSeq) && Acceptable(ring, readSeq, maxLen, encrypted, ds)
    requires var slot, first := ring[d.header.seqNo % FLIGHT], FirstOf(ds, d.header.seqNo);
      IdentityOf(after[d.header.seqNo % FLIGHT])
      == if slot.Some? then IdentityOf(slot) else if first.Some? then Some(Identity(first.value)) else None
    ensures AgreesWithSlot(d.header, after, readSeq) <==>
            AgreesWithSlot(d.header, ring, readSeq) && forall e :: e in ds ==> !Clash(d.header, e.header, readSeq)
  {
    var first := FirstOf(ds, d.header.seqNo);
    if first.Some? {
      var f :| f in ds && f.header == first.value;
      assert forall e :: e in ds ==> !Clash(f.header, e.header, readSeq);
      assert Clash(d.header, f.header, readSeq) <==> Identity(d.header) != Identity(f.header);
    }
  }

  lemma AcceptableMore(ring: Ring, readSeq: nat, maxLen: nat, encrypted: bool, ds: seq<Delivery>, d: Delivery)
    requires |ring| == FLIGHT && Acceptable(ring, readSeq, maxLen, encrypted, ds)
    ensures Acceptable(ring, readSeq, maxLen, encrypted, ds + [d]) <==>
      && Admissible(d.header, readSeq, maxLen, encrypted) && AgreesWithSlot(d.header, ring, readSeq)
      && forall e :: e in ds ==> !Clash(d.header, e.header, readSeq)
  {
    assert d in ds + [d] && forall e :: e in ds + [d] <==> e in ds || e == d;
    assert forall e :: e in ds ==> e in ds + [d];
    assert forall e: Delivery :: Clash(e.header, d.header, readSeq) <==> Clash(d.header, e.header, readSeq);
  }

  /** The pieces of message `q` among the fragments delivered. */
  function PiecesOf(ds: seq<Delivery>, q: nat): seq<Piece> {
    if ds == [] then []
    else
      var d := ds[|ds| - 1];
      PiecesOf(ds[..|ds| - 1], q) + if d.header.seqNo == q then [Piece(d.header.fragOff, d.body)] else []
  }

  /** Every fragment that claims to be of message `q` is one. */
  ghost predicate Genuine(ds: seq<Delivery>, q: nat, kind: Byte, body: seq<Byte>) {
    forall d :: d in ds && d.header.seqNo == q ==>
      d.header.kind == kind && d.header.msgLen == |body| && PieceOf(Piece(d.header.fragOff, d.body), body)
  }

  lemma {:induction false} PiecesAreGenuine(ds: seq<Delivery>, q: nat, kind: Byte, body: seq<Byte>)
    requires Genuine(ds, q, kind, body)
    ensures forall p :: p in PiecesOf(ds, q) ==> PieceOf(p, body) && p.off + |p.body| <= |body|
  {
    if ds != [] {
      assert ds[|ds| - 1] in ds;
      PiecesAreGenuine(ds[..|ds| - 1], q, kind, body);
    }
  }

  function HeaderOf(q: Word16, kind: Byte, len: Word24): Header {
    Header(kind, len, q, 0, 0)
  }

  /** The slot is what these pieces make of an empty message. */
  ghost predicate Holds(slot: Option<Message>, start: Message, ps: seq<Piece>) {
    && MessageOk(start) && (forall p :: p in ps ==> p.off + |p.body| <= start.len)
    && slot == if ps == [] then None else Some(TakeIn(start, ps))
  }

  lemma DeliveredLast(ring: Ring, readSeq: nat, maxLen: nat, encrypted: bool, ds: seq<Delivery>, before: Ring, after: Ring)
    requires RingOk(ring, readSeq) && Sized(ds) && ds != []
    requires Delivered(ring, readSeq, maxLen, encrypted, ds) == (after, None)
    requires before == Delivered(ring, readSeq, maxLen, encrypted, ds[..|ds| - 1]).0
    ensures Delivered(ring, readSeq, maxLen, encrypted, ds[..|ds| - 1]) == (before, None)
    ensures var d := ds[|ds| - 1];
      && |d.body| == d.header.fragLen && RingOk(before, readSeq) && RingOk(after, readSeq)
      && after == Taken(before, readSeq, maxLen, encrypted, d.header, d.body)
      && !Judge(d.header, before, readSeq, maxLen, encrypted).Refused?
  {
    assert ds[|ds| - 1] in ds;
  }

  /** While nothing is refused, the slot of a message is what its own pieces make it, whatever else is delivered. */
  lemma {:induction false} SlotFollows(ring: Ring, readSeq: nat, maxLen: nat, encrypted: bool, ds: seq<Delivery>, q: Word16,
                                       kind: Byte, body: seq<Byte>)
    requires RingOk(ring, readSeq) && Sized(ds) && Genuine(ds, q, kind, body)
    requires Delivered(ring, readSeq, maxLen, encrypted, ds).1.None?
    requires readSeq <= q < readSeq + FLIGHT && ring[q % FLIGHT].None? && |body| < 0x100_0000
    ensures Holds(Delivered(ring, readSeq, maxLen, encrypted, ds).0[q % FLIGHT], Fresh(HeaderOf(q, kind, |body|)), PiecesOf(ds, q)) == true
  {
    var start := Fresh(HeaderOf(q, kind, |body|));
    FreshOk(HeaderOf(q, kind, |body|));
    PiecesAreGenuine(ds, q, kind, body);
    if ds != [] {
      var n := |ds| - 1;
      var d := ds[n];
      assert d in ds;
      var before, after := Delivered(ring, readSeq, maxLen, encrypted, ds[..n]).0, Delivered(ring, readSeq, maxLen, encrypted, ds).0;
      DeliveredLast(ring, readSeq, maxLen, encrypted, ds, before, after);
      SlotFollows(ring, readSeq, maxLen, encrypted, ds[..n], q, kind, body);
      SlotOfLast(before, after, readSeq, maxLen, encrypted, ds, q, kind, body);
    }
  }

  lemma SlotOfLast(before: Ring, after: Ring, readSeq: nat, maxLen: nat, encrypted: bool, ds: seq<Delivery>, q: Word16,
                   kind: Byte, body: seq<Byte>)
    requires ds != [] && Sized(ds) && Genuine(ds, q, kind, body) && RingOk(before, readSeq) && |after| == FLIGHT
    requires readSeq <= q < readSeq + FLIGHT && |body| < 0x100_0000
    requires var d := ds[|ds| - 1];
      && d in ds && |d.body| == d.header.fragLen && !Judge(d.header, before, readSeq, maxLen, encrypted).Refused?
      && after == Taken(before, readSeq, maxLen, encrypted, d.header, d.body)
    requires Holds(before[q % FLIGHT], Fresh(HeaderOf(q, kind, |body|)), PiecesOf(ds[..|ds| - 1], q)) == true
    ensures Holds(after[q % FLIGHT], Fresh(HeaderOf(q, kind, |body|)), PiecesOf(ds, q)) == true
  {
    var n, start := |ds| - 1, Fresh(HeaderOf(q, kind, |body|));
    var d, ps := ds[n], PiecesOf(ds[..n], q);
    if d.header.seqNo == q {
      assert PiecesOf(ds, q) == ps + [Piece(d.header.fragOff, d.body)];
      JudgeRefuses(d.header, before, readSeq, maxLen, encrypted);
      SlotTakes(before, readSeq, maxLen, encrypted, d, q, start, ps);
    } else {
      assert PiecesOf(ds, q) == ps + [] == ps;
      OthersKeepSlot(before, readSeq, maxLen, encrypted, d, q);
    }
  }

  /** A fragment of message `q` goes into its slot. */
  lemma SlotTakes(before: Ring, readSeq: nat, maxLen: nat, encrypted: bool, d: Delivery, q: Word16, start: Message, ps: seq<Piece>)
    requires RingOk(before, readSeq) && |d.body| == d.header.fragLen && readSeq <= q < readSeq + FLIGHT
    requires d.header.seqNo == q && Judge(d.header, before, readSeq, maxLen, encrypted) == Accepted
    requires start == Fresh(d.header) && start.len == d.header.msgLen
    requires Holds(before[q % FLIGHT], start, ps) == true
    ensures Holds(Taken(before, readSeq, maxLen, encrypted, d.header, d.body)[q % FLIGHT], start,
                  ps + [Piece(d.header.fragOff, d.body)]) == true
  {
    FreshOk(d.header);
    var p := Piece(d.header.fragOff, d.body);
    HoldsMore(before[q % FLIGHT], start, ps, p);
    assert SlotOr(before, d.header) == if before[q % FLIGHT].Some? then before[q % FLIGHT].value else start;
    assert Taken(before, readSeq, maxLen, encrypted, d.header, d.body)[q % FLIGHT]
        == Some(Absorbed(SlotOr(before, d.header), p.off, p.body));
  }

  lemma HoldsMore(slot: Option<Message>, start: Message, ps: seq<Piece>, p: Piece)
    requires Holds(slot, start, ps) && p.off + |p.body| <= start.len
    ensures var m := if slot.Some? then slot.value else start;
      MessageOk(m) && m.len == start.len && Holds(Some(Absorbed(m, p.off, p.body)), start, ps + [p]) == true
  {
    var qs := ps + [p];
    assert qs[..|ps|] == ps && qs[|ps|] == p;
    assert forall x :: x in qs ==> x in ps || x == p;
    assert TakeIn(start, qs) == Absorbed(TakeIn(start, ps), p.off, p.body);
  }

  /** A fragment of another message does not touch the slot of `q`. */
  lemma OthersKeepSlot(before: Ring, readSeq: nat, maxLen: nat, encrypted: bool, d: Delivery, q: nat)
    requires RingOk(before, readSeq) && |d.body| == d.header.fragLen && readSeq <= q < readSeq + FLIGHT
    requires d.header.seqNo != q
    ensures Taken(before, readSeq, maxLen, encrypted, d.header, d.body)[q % FLIGHT] == before[q % FLIGHT]
  {
    if Judge(d.header, before, readSeq, maxLen, encrypted) == Accepted && d.header.seqNo % FLIGHT == q % FLIGHT {
      SlotDecides(readSeq, d.header.seqNo, q);
    }
  }

  lemma {:induction false} SameIdentity(m: Message, ps: seq<Piece>)
    requires MessageOk(m) && forall p :: p in ps ==> p.off + |p.body| <= m.len
    ensures TakeIn(m, ps).kind == m.kind && TakeIn(m, ps).seqNo == m.seqNo
  {
    if ps != [] { SameIdentity(m, ps[..|ps| - 1]); }
  }

  /** While nothing is refused, a message of the window is complete exactly if a fragment of it has come and its
      fragments cover it, and it is then the message that was sent. */
  lemma SlotComplete(ring: Ring, readSeq: nat, maxLen: nat, encrypted: bool, ds: seq<Delivery>, q: Word16, kind: Byte,
                     body: seq<Byte>)
    requires RingOk(ring, readSeq) && Sized(ds) && Genuine(ds, q, kind, body)
    requires Delivered(ring, readSeq, maxLen, encrypted, ds).1.None?
    requires readSeq <= q < readSeq + FLIGHT && ring[q % FLIGHT].None? && |body| < 0x100_0000
    ensures CompleteIffCovered(Delivered(ring, readSeq, maxLen, encrypted, ds).0, ds, q, kind, body)
  {
    SlotFollows(ring, readSeq, maxLen, encrypted, ds, q, kind, body);
    var m, ps := Fresh(HeaderOf(q, kind, |body|)), PiecesOf(ds, q);
    FreshOk(HeaderOf(q, kind, |body|));
    PiecesAreGenuine(ds, q, kind, body);
    SameIdentity(m, ps);
    if |body| > 0 {
      Reassembly(m, body, ps);
    } else {
      EmptyStays(m, ps);
    }
  }

  ghost predicate CompleteIffCovered(ring: Ring, ds: seq<Delivery>, q: nat, kind: Byte, body: seq<Byte>)
    requires |ring| == FLIGHT
  {
    var slot := ring[q % FLIGHT];
    && (slot.Some? && Complete(slot.value) <==>
          PiecesOf(ds, q) != [] && forall j: nat :: j < |body| ==> Covers(PiecesOf(ds, q), j))
    && (slot.Some? && Complete(slot.value) ==> slot.value.data == body && slot.value.kind == kind && slot.value.seqNo == q)
  }

  // ---- Messages of one script ----

  /** The messages of a handshake by their numbers. */
  type Script = map<nat, (Byte, seq<Byte>)>

  /** Every fragment is one of a message of the script, none too long and none the next after the window; and once
      records are encrypted, of the message whose turn it is. */
  ghost predicate AllGenuine(ds: seq<Delivery>, script: Script, readSeq: nat, maxLen: nat, encrypted: bool) {
    forall d :: d in ds ==>
      && d.header.seqNo in script && d.header.kind == script[d.header.seqNo].0
      && d.header.msgLen == |script[d.header.seqNo].1| <= maxLen
      && PieceOf(Piece(d.header.fragOff, d.body), script[d.header.seqNo].1)
      && d.header.seqNo != readSeq + FLIGHT && (encrypted ==> d.header.seqNo == readSeq)
  }

  /** What the slots hold are messages of the script. */
  ghost predicate RingFollows(ring: Ring, script: Script) {
    forall i :: 0 <= i < |ring| && ring[i].Some? ==>
      var m := ring[i].value;
      m.seqNo in script && m.kind == script[m.seqNo].0 && m.len == |script[m.seqNo].1|
  }

  lemma GenuineIsAcceptable(ring: Ring, readSeq: nat, maxLen: nat, encrypted: bool, ds: seq<Delivery>, script: Script)
    requires RingOk(ring, readSeq) && Sized(ds) && AllGenuine(ds, script, readSeq, maxLen, encrypted) && RingFollows(ring, script)
    ensures Acceptable(ring, readSeq, maxLen, encrypted, ds)
  {
    forall d | d in ds ensures AgreesWithSlot(d.header, ring, readSeq) {
      var h := d.header;
      if InWindow(h, readSeq) && ring[h.seqNo % FLIGHT].Some? {
        SlotDecides(readSeq, ring[h.seqNo % FLIGHT].value.seqNo, h.seqNo);
      }
    }
  }

  /** Section 4.2.3 of RFC 6347: fragments of the messages of a handshake may be delivered in any order, lost,
      overlapping or repeated.  None is refused, and a message of the window is complete exactly if a fragment of it
      has come and its fragments cover it, and it is then the message that was sent. */
  lemma AnyOrder(ring: Ring, readSeq: nat, maxLen: nat, encrypted: bool, ds: seq<Delivery>, script: Script, q: Word16)
    requires RingOk(ring, readSeq) && Sized(ds) && AllGenuine(ds, script, readSeq, maxLen, encrypted) && RingFollows(ring, script)
    requires readSeq <= q < readSeq + FLIGHT && ring[q % FLIGHT].None? && q in script && |script[q].1| < 0x100_0000
    ensures Delivered(ring, readSeq, maxLen, encrypted, ds).1 == None
    ensures CompleteIffCovered(Delivered(ring, readSeq, maxLen, encrypted, ds).0, ds, q, script[q].0, script[q].1)
  {
    GenuineIsAcceptable(ring, readSeq, maxLen, encrypted, ds, script);
    NeverRefused(ring, readSeq, maxLen, encrypted, ds);
    SlotComplete(ring, readSeq, maxLen, encrypted, ds, q, script[q].0, script[q].1);
  }

  // ---- Records ----

  /** The fragments of a record, and whether it is made of fragments to its end. */
  function FragmentsOf(record: seq<Byte>): (r: (seq<Delivery>, bool))
    ensures Sized(r.0)
    decreases |record|
  {
    if record == [] then ([], true)
    else
      match ParseFragment(record)
      case Malformed => ([], false)
      case Fragment(h, body, rest) =>
        var (ds, whole) := FragmentsOf(rest);
        ([Delivery(h, body)] + ds, whole)
  }

  /** A record is taken in as its fragments are delivered, and what is left over that is no fragment is refused. */
  lemma {:induction false} RecordDelivers(ring: Ring, readSeq: nat, maxLen: nat, encrypted: bool, record: seq<Byte>)
    requires RingOk(ring, readSeq)
    ensures var (ds, whole) := FragmentsOf(record);
      var r := Delivered(ring, readSeq, maxLen, encrypted, ds);
      Opened(ring, readSeq, maxLen, encrypted, record) == if r.1.None? && !whole then (r.0, Some(DecodeError)) else r
    decreases |record|
  {
    if record != [] {
      var parsed := ParseFragment(record);
      if parsed.Fragment? {
        var d, more := Delivery(parsed.header, parsed.body), FragmentsOf(parsed.rest).0;
        TakenOk(ring, readSeq, maxLen, encrypted, d.header, d.body);
        DeliveredTwice(ring, readSeq, maxLen, encrypted, [d], more);
        DeliveredOne(ring, readSeq, maxLen, encrypted, d);
        RecordDelivers(Taken(ring, readSeq, maxLen, encrypted, d.header, d.body), readSeq, maxLen, encrypted, parsed.rest);
      }
    }
  }

  lemma DeliveredOne(ring: Ring, readSeq: nat, maxLen: nat, encrypted: bool, d: Delivery)
    requires RingOk(ring, readSeq) && |d.body| == d.header.fragLen
    ensures Delivered(ring, readSeq, maxLen, encrypted, [d]) == OneMore(ring, readSeq, maxLen, encrypted, d)
  {
    assert [d][..0] == [];
  }

  /** The ring after records have been opened one by one, until one is refused. */
  ghost function OpenedAll(ring: Ring, readSeq: nat, maxLen: nat, encrypted: bool, records: seq<seq<Byte>>): (r: (Ring, Option<Alert>))
    requires RingOk(ring, readSeq)
    ensures RingOk(r.0, readSeq)
  {
    if records == [] then (ring, None)
    else
      var (before, alert) := OpenedAll(ring, readSeq, maxLen, encrypted, records[..|records| - 1]);
      if alert.Some? then (before, alert)
      else
        OpenedOk(before, readSeq, maxLen, encrypted, records[|records| - 1]);
        Opened(before, readSeq, maxLen, encrypted, records[|records| - 1])
  }

  lemma {:induction false} OpenedOk(ring: Ring, readSeq: nat, maxLen: nat, encrypted: bool, record: seq<Byte>)
    requires RingOk(ring, readSeq)
    ensures RingOk(Opened(ring, readSeq, maxLen, encrypted, record).0, readSeq)
  {
    RecordDelivers(ring, readSeq, maxLen, encrypted, record);
  }

  /** All fragments of well-formed records, in order. */
  function AllFragments(records: seq<seq<Byte>>): (ds: seq<Delivery>)
    ensures Sized(ds)
  {
    if records == [] then []
    else AllFragments(records[..|records| - 1]) + FragmentsOf(records[|records| - 1]).0
  }

  /** Opening records is delivering their fragments, however these are spread over the records. */
  lemma {:induction false} RecordsDeliver(ring: Ring, readSeq: nat, maxLen: nat, encrypted: bool, records: seq<seq<Byte>>)
    requires RingOk(ring, readSeq) && forall r :: r in records ==> FragmentsOf(r).1
    ensures OpenedAll(ring, readSeq, maxLen, encrypted, records)
            == Delivered(ring, readSeq, maxLen, encrypted, AllFragments(records))
  {
    if records != [] {
      var n := |records| - 1;
      var last := records[n];
      assert last in records;
      RecordsDeliver(ring, readSeq, maxLen, encrypted, records[..n]);
      var before := OpenedAll(ring, readSeq, maxLen, encrypted, records[..n]);
      RecordDelivers(before.0, readSeq, maxLen, encrypted, last);
      DeliveredTwice(ring, readSeq, maxLen, encrypted, AllFragments(records[..n]), FragmentsOf(last).0);
    }
  }

  lemma {:induction false} EmptyStays(m: Message, ps: seq<Piece>)
    requires MessageOk(m) && Complete(m) && forall p :: p in ps ==> p.off + |p.body| <= m.len
    ensures TakeIn(m, ps) == m
  {
    if ps != [] { EmptyStays(m, ps[..|ps| - 1]); }
  }
}
