/** Byte order, and the short keys put between and after others (util/comparator, db/dbformat). */
module Comparators {
  import opened Coding

  // ---- Bytewise order ----

  predicate Below(a: seq<Byte>, b: seq<Byte>) {
    b != [] && (a == [] || a[0] < b[0] || (a[0] == b[0] && Below(a[1..], b[1..])))
  }

  lemma {:induction false} Irreflexive(a: seq<Byte>)
    ensures !Below(a, a)
  {
    if a != [] { Irreflexive(a[1..]); }
  }

  lemma {:induction false} Transitive(a: seq<Byte>, b: seq<Byte>, c: seq<Byte>)
    requires Below(a, b) && Below(b, c)
    ensures Below(a, c)
  {
    if a != [] && a[0] == b[0] == c[0] { Transitive(a[1..], b[1..], c[1..]); }
  }

  lemma {:induction false} Total(a: seq<Byte>, b: seq<Byte>)
    ensures a == b || Below(a, b) || Below(b, a)
  {
    if a != [] && b != [] && a[0] == b[0] {
      Total(a[1..], b[1..]);
      if a[1..] == b[1..] {
        assert a == [a[0]] + a[1..] && b == [b[0]] + b[1..];
      }
    }
  }

  /** The first difference decides. */
  lemma {:induction false} FirstDifference(a: seq<Byte>, b: seq<Byte>, d: nat)
    requires d <= |a| && d < |b| && a[..d] == b[..d]
    requires d == |a| || a[d] < b[d]
    ensures Below(a, b)
  {
    if d > 0 {
      assert a[0] == a[..d][0] && b[0] == b[..d][0];
      assert a[1..][..d - 1] == a[..d][1..] && b[1..][..d - 1] == b[..d][1..];
      FirstDifference(a[1..], b[1..], d - 1);
    }
  }

  /** Negative, zero or positive, as the source's comparators answer. */
  method Compare(a: seq<Byte>, b: seq<Byte>) returns (r: int)
    ensures r < 0 <==> Below(a, b)
    ensures r == 0 <==> a == b
    ensures r > 0 <==> Below(b, a)
  {
    var minLength, i := if |a| < |b| then |a| else |b|, 0;
    while i < minLength && a[i] == b[i]
      invariant i <= minLength && a[..i] == b[..i]
    {
      i := i + 1;
    }
    Irreflexive(a);
    Irreflexive(b);
    if i < minLength {
      var x: int, z: int := a[i], b[i];
      r := x - z;
      if a[i] < b[i] { FirstDifference(a, b, i); NotBoth(a, b); } else { FirstDifference(b, a, i); NotBoth(b, a); }
    } else {
      r := |a| - |b|;
      assert a[..i] == b[..i];
      if |a| < |b| { FirstDifference(a, b, i); NotBoth(a, b); }
      if |b| < |a| { FirstDifference(b, a, i); NotBoth(b, a); }
      if |a| == |b| { assert a == a[..i] == b[..i] == b; }
    }
  }

  lemma NotBoth(a: seq<Byte>, b: seq<Byte>)
    requires Below(a, b)
    ensures !Below(b, a) && a != b
  {
    Irreflexive(a);
    if Below(b, a) { Transitive(a, b, a); }
  }

  // ---- Short keys ----

  /** How long the prefix is that two strings share. */
  function Shared(a: seq<Byte>, b: seq<Byte>): (d: nat)
    ensures d <= |a| && d <= |b| && a[..d] == b[..d]
    ensures d < |a| && d < |b| ==> a[d] != b[d]
  {
    if a == [] || b == [] || a[0] != b[0] then 0
    else
      var d := Shared(a[1..], b[1..]);
      assert a[..d + 1] == [a[0]] + a[1..][..d] && b[..d + 1] == [b[0]] + b[1..][..d];
      1 + d
  }

  /** A string at or after `start` and before `limit`, shorter if there is an obvious one (comparator.cc:29-50). */
  function Separator(start: seq<Byte>, limit: seq<Byte>): seq<Byte> {
    var d := Shared(start, limit);
    if d < |start| && d < |limit| && start[d] < 0xff && start[d] + 1 < limit[d] then start[..d] + [start[d] + 1]
    else start
  }

  /** Where two strings first differ, both going on. */
  ghost predicate DifferAt(a: seq<Byte>, b: seq<Byte>, d: nat) {
    d < |a| && d < |b| && a[..d] == b[..d] && a[d] != b[d]
  }

  /** It is cut behind the first difference where the byte there can be raised and stay below, and only there. */
  lemma SeparatorExact(start: seq<Byte>, limit: seq<Byte>)
    ensures var s := Separator(start, limit);
            && ((forall d: nat :: !DifferAt(start, limit, d)) ==> s == start)
            && (forall d: nat :: DifferAt(start, limit, d) ==>
                  s == if start[d] < 0xff && start[d] + 1 < limit[d] then start[..d] + [start[d] + 1] else start)
  {
    var c := Shared(start, limit);
    assert c < |start| && c < |limit| ==> DifferAt(start, limit, c);
    forall d: nat | DifferAt(start, limit, d) ensures d == c {
      SharedIs(start, limit, d);
    }
  }

  lemma SeparatorBetween(start: seq<Byte>, limit: seq<Byte>)
    ensures var s := Separator(start, limit);
            s == start || (Below(start, s) && Below(s, limit) && |s| <= |start|)
  {
    var d := Shared(start, limit);
    var s := Separator(start, limit);
    if s != start {
      assert s[..d] == start[..d] && s[d] == start[d] + 1;
      FirstDifference(start, s, d);
      FirstDifference(s, limit, d);
    }
  }

  method FindShortestSeparator(start: seq<Byte>, limit: seq<Byte>) returns (s: seq<Byte>)
    ensures s == Separator(start, limit)
  {
    var minLength := if |start| < |limit| then |start| else |limit|;
    var diffIndex := 0;
    while diffIndex < minLength && start[diffIndex] == limit[diffIndex]
      invariant diffIndex <= minLength && start[..diffIndex] == limit[..diffIndex]
    {
      diffIndex := diffIndex + 1;
    }
    SharedIs(start, limit, diffIndex);
    s := start;
    if diffIndex < minLength {
      var diffByte := start[diffIndex];
      if diffByte < 0xff && diffByte + 1 < limit[diffIndex] {
        s := s[diffIndex := diffByte + 1];
        s := s[..diffIndex + 1];
      }
    }
  }

  lemma {:induction false} SharedIs(a: seq<Byte>, b: seq<Byte>, d: nat)
    requires d <= |a| && d <= |b| && a[..d] == b[..d]
    requires d < |a| && d < |b| ==> a[d] != b[d]
    ensures Shared(a, b) == d
  {
    if d > 0 {
      assert a[0] == a[..d][0] == b[..d][0] == b[0];
      assert a[1..][..d - 1] == a[..d][1..] && b[1..][..d - 1] == b[..d][1..];
      SharedIs(a[1..], b[1..], d - 1);
    }
  }

  /** A string at or after `key`: its first byte that can be is incremented, and the rest dropped. */
  function Successor(key: seq<Byte>): seq<Byte> {
    if key == [] then []
    else if key[0] != 0xff then [key[0] + 1]
    else [key[0]] + Successor(key[1..])
  }

  lemma {:induction false} SuccessorAfter(key: seq<Byte>)
    ensures Successor(key) == key || Below(key, Successor(key))
  {
    if key != [] && key[0] == 0xff {
      SuccessorAfter(key[1..]);
      var t := Successor(key[1..]);
      assert ([key[0]] + t)[1..] == t;
      if t == key[1..] { assert key == [key[0]] + t; }
    }
  }

  /** The first byte below 0xff is raised and what follows it is cut off; a string of 0xff stays as it is. */
  lemma {:induction false} SuccessorExact(key: seq<Byte>, d: nat)
    requires d <= |key| && forall i :: 0 <= i < d ==> key[i] == 0xff
    ensures d == |key| ==> Successor(key) == key
    ensures d < |key| && key[d] != 0xff ==> Successor(key) == key[..d] + [key[d] + 1]
  {
    if d > 0 {
      SuccessorExact(key[1..], d - 1);
      assert key == [key[0]] + key[1..];
      assert d < |key| ==> key[..d] + [key[d]] == [key[0]] + (key[1..][..d - 1] + [key[d]]);
      assert key[..d] == [key[0]] + key[1..][..d - 1];
    }
  }

  method FindShortSuccessor(key: seq<Byte>) returns (s: seq<Byte>)
    ensures s == Successor(key)
  {
    for i := 0 to |key|
      invariant Successor(key) == key[..i] + Successor(key[i..])
    {
      if key[i] != 0xff {
        s := key[i := key[i] + 1];
        return s[..i + 1];
      }
      assert key[i..][1..] == key[i + 1..];
      assert key[..i + 1] == key[..i] + [key[i]];
      assert Successor(key[i..]) == [key[i]] + Successor(key[i + 1..]);
    }
    s := key;
  }

  // ---- Internal keys ----

  /** A user key and the packed sequence number and type behind it. */
  datatype IKey = IKey(user: seq<Byte>, tag: nat)

  const MAX_TAG: nat := 0xff_ffff_ffff_ffff * 256 + 1

  predicate Less(a: IKey, b: IKey) {
    Below(a.user, b.user) || (a.user == b.user && a.tag > b.tag)
  }

  predicate AtMost(a: IKey, b: IKey) {
    a == b || Less(a, b)
  }

  lemma LessTransitive(a: IKey, b: IKey, c: IKey)
    requires Less(a, b) && Less(b, c)
    ensures Less(a, c)
  {
    if Below(a.user, b.user) && Below(b.user, c.user) { Transitive(a.user, b.user, c.user); }
  }

  lemma LessIrreflexive(a: IKey)
    ensures !Less(a, a)
  {
    Irreflexive(a.user);
  }

  lemma LessTotal(a: IKey, b: IKey)
    ensures a == b || Less(a, b) || Less(b, a)
  {
    Total(a.user, b.user);
  }

  /** dbformat.cc:69-86 */
  function InternalSeparator(start: IKey, limit: IKey): IKey {
    var tmp := Separator(start.user, limit.user);
    if |tmp| < |start.user| && Below(start.user, tmp) then IKey(tmp, MAX_TAG) else start
  }

  /** The separator is the key itself, or its user key lies strictly between those of the two keys. */
  lemma InternalSeparatorBetween(start: IKey, limit: IKey)
    ensures var s := InternalSeparator(start, limit);
            s == start || (Below(start.user, s.user) && Below(s.user, limit.user) && s.tag == MAX_TAG)
    ensures Less(start, limit) ==> AtMost(start, InternalSeparator(start, limit)) && Less(InternalSeparator(start, limit), limit)
    // it is shorter whenever the user keys have a shorter one between them
    ensures var tmp := Separator(start.user, limit.user);
            InternalSeparator(start, limit) == if |tmp| < |start.user| then IKey(tmp, MAX_TAG) else start
  {
    SeparatorBetween(start.user, limit.user);
  }

  /** dbformat.cc:88-101 */
  function InternalSuccessor(key: IKey): IKey {
    var tmp := Successor(key.user);
    if |tmp| < |key.user| && Below(key.user, tmp) then IKey(tmp, MAX_TAG) else key
  }

  lemma InternalSuccessorAfter(key: IKey)
    ensures AtMost(key, InternalSuccessor(key))
    ensures var tmp := Successor(key.user);
            InternalSuccessor(key) == if |tmp| < |key.user| then IKey(tmp, MAX_TAG) else key
  {
    SuccessorAfter(key.user);
  }
}
