/** Which files a compaction takes (db/version_set GetOverlappingInputs, AddBoundaryInputs,
    SetupOtherInputs). */
module CompactionInputs {
  import opened Options
  import opened InternalKeys
  import opened Versions

  // ---- GetOverlappingInputs ----

  function Overlapping(fs: seq<FileMeta>, begin: Option<UserKey>, end: Option<UserKey>): seq<FileMeta> {
    if fs == [] then []
    else
      var n := |fs| - 1;
      Overlapping(fs[..n], begin, end) + if Overlaps(fs[n], begin, end) then [fs[n]] else []
  }

  lemma {:induction false} OverlappingMembers(fs: seq<FileMeta>, begin: Option<UserKey>, end: Option<UserKey>)
    ensures forall f :: f in Overlapping(fs, begin, end) <==> f in fs && Overlaps(f, begin, end)
  {
    if fs != [] {
      var n := |fs| - 1;
      OverlappingMembers(fs[..n], begin, end);
      assert forall f :: f in fs <==> f in fs[..n] || f == fs[n];
    }
  }

  ghost predicate Within(f: FileMeta, begin: Option<UserKey>, end: Option<UserKey>) {
    && (begin.Some? ==> begin.value <= f.smallest.user)
    && (end.Some? ==> f.largest.user <= end.value)
  }

  /** The second range contains the first, open ends staying open. */
  ghost predicate Expands(begin: Option<UserKey>, end: Option<UserKey>,
                          begin': Option<UserKey>, end': Option<UserKey>) {
    && (begin.None? <==> begin'.None?) && (end.None? <==> end'.None?)
    && (begin.Some? ==> begin'.value <= begin.value)
    && (end.Some? ==> end.value <= end'.value)
  }

  /** No file straddles an end of the range. */
  ghost predicate ClosedRange(fs: seq<FileMeta>, begin: Option<UserKey>, end: Option<UserKey>) {
    forall f :: f in fs && Overlaps(f, begin, end) ==> Within(f, begin, end)
  }

  ghost function Straddling(fs: seq<FileMeta>, begin: Option<UserKey>, end: Option<UserKey>): nat {
    if fs == [] then 0
    else Straddling(fs[1..], begin, end)
         + (if begin.Some? && fs[0].smallest.user < begin.value then 1 else 0)
         + (if end.Some? && end.value < fs[0].largest.user then 1 else 0)
  }

  lemma {:induction false} StraddlingShrinks(fs: seq<FileMeta>, begin: Option<UserKey>, end: Option<UserKey>,
                                             begin': Option<UserKey>, end': Option<UserKey>)
    requires Expands(begin, end, begin', end')
    ensures Straddling(fs, begin', end') <= Straddling(fs, begin, end)
    ensures (exists f :: f in fs && begin.Some? && begin'.value <= f.smallest.user < begin.value)
            || (exists f :: f in fs && end.Some? && end.value < f.largest.user <= end'.value)
            ==> Straddling(fs, begin', end') < Straddling(fs, begin, end)
  {
    if fs != [] {
      StraddlingShrinks(fs[1..], begin, end, begin', end');
      assert forall f :: f in fs <==> f == fs[0] || f in fs[1..];
    }
  }

  /** Every closed range that contains the first range contains the second. */
  ghost predicate LeastClosed(fs: seq<FileMeta>, begin: Option<UserKey>, end: Option<UserKey>,
                              begin': Option<UserKey>, end': Option<UserKey>) {
    forall b, e :: Expands(begin, end, b, e) && ClosedRange(fs, b, e) ==> Expands(begin', end', b, e)
  }

  /** How far the range has been grown. */
  ghost predicate Grown(level: nat, fs: seq<FileMeta>, begin: Option<UserKey>, end: Option<UserKey>,
                        begin': Option<UserKey>, end': Option<UserKey>) {
    && Expands(begin, end, begin', end') && LeastClosed(fs, begin, end, begin', end') == true
    && (level > 0 ==> begin' == begin && end' == end)
  }

  /** Growing the range to take in a straddling file is forced, and makes progress. */
  lemma GrowRange(fs: seq<FileMeta>, begin: Option<UserKey>, end: Option<UserKey>,
                  ub: Option<UserKey>, ue: Option<UserKey>, f: FileMeta,
                  ub': Option<UserKey>, ue': Option<UserKey>)
    requires Grown(0, fs, begin, end, ub, ue) && f in fs && ValidFile(f) && Overlaps(f, ub, ue)
    requires || (ub.Some? && f.smallest.user < ub.value && ub' == Some(f.smallest.user) && ue' == ue)
             || (ue.Some? && ue.value < f.largest.user && ue' == Some(f.largest.user) && ub' == ub)
    ensures Grown(0, fs, begin, end, ub', ue') == true
    ensures Straddling(fs, ub', ue') < Straddling(fs, ub, ue)
  {
    StraddlingShrinks(fs, ub, ue, ub', ue');
    forall b, e | Expands(begin, end, b, e) && ClosedRange(fs, b, e) ensures Expands(ub', ue', b, e) {
      assert Expands(ub, ue, b, e);
      assert Overlaps(f, b, e);
      assert Within(f, b, e);
    }
  }

  /** What the scan has established after the first `i` files. */
  ghost predicate Scanned(level: nat, fs: seq<FileMeta>, i: nat, ub: Option<UserKey>, ue: Option<UserKey>,
                          inputs: seq<FileMeta>)
    requires i <= |fs|
  {
    && inputs == Overlapping(fs[..i], ub, ue)
    && (level == 0 ==> ClosedRange(fs[..i], ub, ue))
  }

  lemma StartScan(level: nat, fs: seq<FileMeta>, ub: Option<UserKey>, ue: Option<UserKey>)
    ensures Scanned(level, fs, 0, ub, ue, []) == true && Grown(level, fs, ub, ue, ub, ue) == true
  {}

  lemma ScanOne(level: nat, fs: seq<FileMeta>, i: nat, ub: Option<UserKey>, ue: Option<UserKey>,
                inputs: seq<FileMeta>)
    requires i < |fs| && Scanned(level, fs, i, ub, ue, inputs)
    requires level == 0 && Overlaps(fs[i], ub, ue) ==> Within(fs[i], ub, ue)
    ensures Scanned(level, fs, i + 1, ub, ue, if Overlaps(fs[i], ub, ue) then inputs + [fs[i]] else inputs) == true
  {
    assert fs[..i + 1][..i] == fs[..i];
    assert forall f :: f in fs[..i + 1] <==> f in fs[..i] || f == fs[i];
  }

  /** The range whose files are taken: the one asked for, or at level 0 the least one around it that no file straddles. */
  ghost predicate RangeTaken(level: nat, fs: seq<FileMeta>, begin: Option<UserKey>, end: Option<UserKey>,
                             begin': Option<UserKey>, end': Option<UserKey>) {
    && Expands(begin, end, begin', end')
    && (level > 0 ==> begin' == begin && end' == end)
    && (level == 0 ==> ClosedRange(fs, begin', end') && LeastClosed(fs, begin, end, begin', end'))
  }

  /** All files of a level that overlap the range; at level 0 the range is first grown until no file
      straddles it, by restarting the scan (version_set.cc:519-559).  The grown range is the least
      closed range containing the one asked for. */
  method GetOverlappingInputs(level: nat, fs: seq<FileMeta>, begin: Option<UserKey>, end: Option<UserKey>)
    returns (inputs: seq<FileMeta>, ghost begin': Option<UserKey>, ghost end': Option<UserKey>)
    requires ValidFiles(fs)
    ensures inputs == Overlapping(fs, begin', end')
    ensures RangeTaken(level, fs, begin, end, begin', end')
  {
    inputs := [];
    var userBegin, userEnd := begin, end;
    var i := 0;
    StartScan(level, fs, begin, end);
    while i < |fs|
      invariant i <= |fs|
      invariant Grown(level, fs, begin, end, userBegin, userEnd) == true
      invariant Scanned(level, fs, i, userBegin, userEnd, inputs) == true
      decreases Straddling(fs, userBegin, userEnd), |fs| - i
    {
      var f := fs[i];
      i := i + 1;
      if begin.Some? && f.largest.user < userBegin.value {
        ScanOne(level, fs, i - 1, userBegin, userEnd, inputs);
      } else if end.Some? && f.smallest.user > userEnd.value {
        ScanOne(level, fs, i - 1, userBegin, userEnd, inputs);
      } else if level == 0 && begin.Some? && f.smallest.user < userBegin.value {
        GrowRange(fs, begin, end, userBegin, userEnd, f, Some(f.smallest.user), userEnd);
        userBegin := Some(f.smallest.user);
        inputs, i := [], 0;
        StartScan(level, fs, userBegin, userEnd);
      } else if level == 0 && end.Some? && f.largest.user > userEnd.value {
        GrowRange(fs, begin, end, userBegin, userEnd, f, userBegin, Some(f.largest.user));
        userEnd := Some(f.largest.user);
        inputs, i := [], 0;
        StartScan(level, fs, userBegin, userEnd);
      } else {
        ScanOne(level, fs, i - 1, userBegin, userEnd, inputs);
        inputs := inputs + [f];
      }
    }
    assert fs[..|fs|] == fs;
    begin', end' := userBegin, userEnd;
  }

  /** On a sorted level what a range ends before, it ends before from there on; what it starts after, it starts
      after up to there. */
  lemma StaysOutside(fs: seq<FileMeta>, begin: Option<UserKey>, end: Option<UserKey>, i: nat, j: nat)
    requires ValidFiles(fs) && LevelSorted(fs) && i <= j < |fs|
    ensures BeforeFile(end, fs[i]) ==> BeforeFile(end, fs[j])
    ensures AfterFile(begin, fs[j]) ==> AfterFile(begin, fs[i])
  {
    LevelBounds(fs, i, j);
  }

  ghost predicate IsSlice(fs: seq<FileMeta>, begin: Option<UserKey>, end: Option<UserKey>, n: nat, lo: nat, hi: nat)
    requires n <= |fs|
  {
    && lo <= hi <= n && Overlapping(fs[..n], begin, end) == fs[lo..hi]
    && (lo == hi || hi == n || BeforeFile(end, fs[hi]))
    && (lo < hi ==> Overlaps(fs[lo], begin, end))
  }

  lemma SliceStep(fs: seq<FileMeta>, begin: Option<UserKey>, end: Option<UserKey>, n: nat, lo: nat, hi: nat)
    requires ValidFiles(fs) && LevelSorted(fs) && n < |fs| && IsSlice(fs, begin, end, n, lo, hi)
    ensures IsSlice(fs, begin, end, n + 1,
                    if lo == hi && Overlaps(fs[n], begin, end) then n else lo,
                    if Overlaps(fs[n], begin, end) then n + 1 else hi)
  {
    assert fs[..n + 1][..n] == fs[..n];
    if lo < hi {
      StaysOutside(fs, begin, end, lo, n);
      if hi < n {
        StaysOutside(fs, begin, end, hi, n);
      } else {
        assert fs[lo..n] + [fs[n]] == fs[lo..n + 1];
      }
    }
  }

  /** On a sorted level the overlapping files are consecutive. */
  lemma {:induction false} OverlappingIsSlice(fs: seq<FileMeta>, begin: Option<UserKey>, end: Option<UserKey>, n: nat)
    returns (lo: nat, hi: nat)
    requires ValidFiles(fs) && LevelSorted(fs) && n <= |fs|
    ensures IsSlice(fs, begin, end, n, lo, hi) == true
  {
    if n == 0 { return 0, 0; }
    lo, hi := OverlappingIsSlice(fs, begin, end, n - 1);
    SliceStep(fs, begin, end, n - 1, lo, hi);
    if Overlaps(fs[n - 1], begin, end) {
      lo, hi := if lo == hi then n - 1 else lo, n;
    }
  }

  // ---- AddBoundaryInputs ----

  function SmallestKey(fs: seq<FileMeta>): InternalKey
    requires fs != []
  {
    var n := |fs| - 1;
    if n == 0 then fs[0].smallest
    else
      var k := SmallestKey(fs[..n]);
      if Less(fs[n].smallest, k) then fs[n].smallest else k
  }

  function LargestKey(fs: seq<FileMeta>): InternalKey
    requires fs != []
  {
    var n := |fs| - 1;
    if n == 0 then fs[0].largest
    else
      var k := LargestKey(fs[..n]);
      if Less(k, fs[n].largest) then fs[n].largest else k
  }

  lemma {:induction false} RangeOf(fs: seq<FileMeta>)
    requires fs != []
    ensures exists f :: f in fs && f.smallest == SmallestKey(fs)
    ensures exists f :: f in fs && f.largest == LargestKey(fs)
    ensures forall f :: f in fs ==> !Less(f.smallest, SmallestKey(fs)) && !Less(LargestKey(fs), f.largest)
  {
    var n := |fs| - 1;
    assert fs[n] in fs;
    if n > 0 {
      RangeOf(fs[..n]);
      var f :| f in fs[..n] && f.smallest == SmallestKey(fs[..n]);
      var g :| g in fs[..n] && g.largest == LargestKey(fs[..n]);
      assert f in fs && g in fs;
      assert forall f :: f in fs <==> f in fs[..n] || f == fs[n];
    }
  }

  /** Both ends of the range a list of files covers (version_set.cc:1204-1224). */
  method GetRange(fs: seq<FileMeta>) returns (smallest: InternalKey, largest: InternalKey)
    requires fs != []
    ensures smallest == SmallestKey(fs) && largest == LargestKey(fs)
  {
    smallest, largest := fs[0].smallest, fs[0].largest;
    for i := 1 to |fs|
      invariant smallest == SmallestKey(fs[..i]) && largest == LargestKey(fs[..i])
    {
      assert fs[..i + 1][..i] == fs[..i] && fs[..i + 1][i] == fs[i];
      if Less(fs[i].smallest, smallest) { smallest := fs[i].smallest; }
      if Less(largest, fs[i].largest) { largest := fs[i].largest; }
    }
    assert fs[..|fs|] == fs;
  }

  predicate IsBoundary(f: FileMeta, k: InternalKey) {
    Less(k, f.smallest) && f.smallest.user == k.user
  }

  ghost predicate SmallestBoundary(fs: seq<FileMeta>, k: InternalKey, f: FileMeta) {
    f in fs && IsBoundary(f, k) && forall g :: g in fs && IsBoundary(g, k) ==> !Less(g.smallest, f.smallest)
  }

  /** The file that starts soonest after `k` with `k`'s user key (version_set.cc:1344-1362). */
  method FindSmallestBoundaryFile(fs: seq<FileMeta>, k: InternalKey) returns (r: Option<FileMeta>)
    ensures match r
            case Some(f) => SmallestBoundary(fs, k, f)
            case None => forall f :: f in fs ==> !IsBoundary(f, k)
  {
    r := None;
    for i := 0 to |fs|
      invariant match r
                case Some(f) => SmallestBoundary(fs[..i], k, f)
                case None => forall f :: f in fs[..i] ==> !IsBoundary(f, k)
    {
      assert fs[..i + 1] == fs[..i] + [fs[i]];
      var f := fs[i];
      if IsBoundary(f, k) {
        if r.None? || Less(f.smallest, r.value.smallest) {
          r := Some(f);
        }
      }
    }
    assert fs[..|fs|] == fs;
  }

  /** Every file past the first `n` is the boundary file of the files before it. */
  ghost predicate BoundaryChain(fs: seq<FileMeta>, files: seq<FileMeta>, n: nat) {
    forall k :: 0 < n <= k < |files| ==> SmallestBoundary(fs, LargestKey(files[..k]), files[k])
  }

  ghost predicate NoBoundary(fs: seq<FileMeta>, files: seq<FileMeta>) {
    files != [] ==> forall f :: f in fs ==> !IsBoundary(f, LargestKey(files))
  }

  ghost function StartingAfter(fs: seq<FileMeta>, k: InternalKey): nat {
    if fs == [] then 0 else StartingAfter(fs[1..], k) + if Less(k, fs[0].smallest) then 1 else 0
  }

  lemma {:induction false} StartingAfterShrinks(fs: seq<FileMeta>, k: InternalKey, k': InternalKey)
    requires !Less(k', k)
    ensures StartingAfter(fs, k') <= StartingAfter(fs, k)
    ensures (exists f :: f in fs && Less(k, f.smallest) && !Less(k', f.smallest))
            ==> StartingAfter(fs, k') < StartingAfter(fs, k)
  {
    if fs != [] {
      StartingAfterShrinks(fs[1..], k, k');
      assert forall f :: f in fs <==> f == fs[0] || f in fs[1..];
    }
  }

  /** The second list is the first one and, one after the other, the files that continue its last user key. */
  ghost predicate BoundaryClosure(fs: seq<FileMeta>, files: seq<FileMeta>, files': seq<FileMeta>) {
    files <= files' && BoundaryChain(fs, files', |files|) && NoBoundary(fs, files')
  }

  /** Keep adding the file that continues the last user key (version_set.cc:1378-1401). */
  method AddBoundaryInputs(fs: seq<FileMeta>, files: seq<FileMeta>) returns (files': seq<FileMeta>)
    requires ValidFiles(fs)
    ensures BoundaryClosure(fs, files, files')
  {
    files' := files;
    if files == [] { return; }
    var _, largestKey := GetRange(files);
    var continueSearching := true;
    while continueSearching
      invariant files <= files' && BoundaryChain(fs, files', |files|)
      invariant largestKey == LargestKey(files')
      invariant !continueSearching ==> NoBoundary(fs, files')
      decreases continueSearching, StartingAfter(fs, largestKey)
    {
      var boundary := FindSmallestBoundaryFile(fs, largestKey);
      if boundary.Some? {
        var f := boundary.value;
        FileOrdered(f);
        StartingAfterShrinks(fs, largestKey, f.largest);
        ghost var was := files';
        files' := files' + [f];
        assert files'[..|was|] == was;
        assert forall k :: |files| <= k < |was| ==> files'[..k] == was[..k];
        largestKey := f.largest;
      } else {
        continueSearching := false;
      }
    }
  }

  // ---- What a set of inputs at one level must look like ----

  predicate ShareUserKeys(f: FileMeta, g: FileMeta) {
    f.smallest.user <= g.largest.user && g.smallest.user <= f.largest.user
  }

  /** At level 0, no file outside overlaps a file inside; deeper, a consecutive stretch of files. */
  ghost predicate Chosen(level: nat, fs: seq<FileMeta>, in0: seq<FileMeta>) {
    && in0 != []
    && if level == 0 then
         && (forall f :: f in in0 ==> f in fs)
         && forall f, g :: f in fs && f !in in0 && g in in0 ==> !ShareUserKeys(f, g)
       else exists lo, hi :: 0 <= lo < hi <= |fs| && in0 == fs[lo..hi]
  }

  /** Moreover, deeper than level 0, the next file starts at a new user key. */
  ghost predicate Selected(level: nat, fs: seq<FileMeta>, in0: seq<FileMeta>) {
    && in0 != []
    && if level == 0 then Chosen(0, fs, in0)
       else exists lo, hi :: CutsCleanly(fs, lo, hi) && in0 == fs[lo..hi]
  }

  ghost predicate CutsCleanly(fs: seq<FileMeta>, lo: int, hi: int) {
    && 0 <= lo < hi <= |fs|
    && (hi == |fs| || fs[hi].smallest.user != fs[hi - 1].largest.user)
  }

  lemma OverlappingIsChosen(level: nat, fs: seq<FileMeta>, begin: Option<UserKey>, end: Option<UserKey>)
    requires ValidFiles(fs) && (level > 0 ==> LevelSorted(fs))
    requires level == 0 ==> ClosedRange(fs, begin, end)
    requires Overlapping(fs, begin, end) != []
    ensures Chosen(level, fs, Overlapping(fs, begin, end))
  {
    if level > 0 {
      var lo, hi := OverlappingIsSlice(fs, begin, end, |fs|);
      assert fs[..|fs|] == fs;
    } else {
      OverlappingMembers(fs, begin, end);
      forall f, g | f in fs && !Overlaps(f, begin, end) && g in fs && Overlaps(g, begin, end)
        ensures !ShareUserKeys(f, g)
      {
        assert Within(g, begin, end);
      }
    }
  }

  /** The first `m` files are the consecutive files of the level from `lo` on. */
  ghost predicate Tracks(fs: seq<FileMeta>, lo: nat, files: seq<FileMeta>, m: nat) {
    lo + m <= |fs| && m <= |files| && forall k :: 0 <= k < m ==> files[k] == fs[lo + k]
  }

  lemma {:induction false} LargestOfRun(fs: seq<FileMeta>, lo: nat, files: seq<FileMeta>, m: nat)
    requires ValidFiles(fs) && LevelSorted(fs) && 0 < m && Tracks(fs, lo, files, m)
    ensures LargestKey(files[..m]) == fs[lo + m - 1].largest
  {
    if 1 < m {
      LargestOfRun(fs, lo, files, m - 1);
      assert files[..m][..m - 1] == files[..m - 1];
      LevelBounds(fs, lo + m - 2, lo + m - 1);
      assert files[..m][m - 1] == fs[lo + m - 1];
      LevelBounds(fs, lo + m - 1, lo + m - 1);
      assert Less(fs[lo + m - 2].largest, fs[lo + m - 1].smallest);
    }
  }

  /** On a sorted level boundary files are just the next files in order. */
  lemma {:induction false} ChainTracks(fs: seq<FileMeta>, lo: nat, n: nat, files: seq<FileMeta>, m: nat)
    requires ValidFiles(fs) && LevelSorted(fs) && 0 < n <= m <= |files|
    requires Tracks(fs, lo, files, n) && BoundaryChain(fs, files, n)
    ensures Tracks(fs, lo, files, m)
  {
    if n < m {
      ChainTracks(fs, lo, n, files, m - 1);
      assert SmallestBoundary(fs, LargestKey(files[..m - 1]), files[m - 1]);
      ChainStep(fs, lo, files, m - 1);
    }
  }

  lemma ChainStep(fs: seq<FileMeta>, lo: nat, files: seq<FileMeta>, m: nat)
    requires ValidFiles(fs) && LevelSorted(fs) && 0 < m < |files|
    requires Tracks(fs, lo, files, m) && SmallestBoundary(fs, LargestKey(files[..m]), files[m])
    ensures Tracks(fs, lo, files, m + 1)
  {
    LargestOfRun(fs, lo, files, m);
    BoundaryIsNext(fs, lo + m, files[m]);
  }

  lemma BoundaryIsNext(fs: seq<FileMeta>, n: nat, g: FileMeta)
    requires ValidFiles(fs) && LevelSorted(fs) && 0 < n <= |fs|
    requires SmallestBoundary(fs, fs[n - 1].largest, g)
    ensures n < |fs| && g == fs[n]
  {
    var k := fs[n - 1].largest;
    var j :| 0 <= j < |fs| && fs[j] == g;
    forall i | 0 <= i < n ensures !Less(k, fs[i].smallest) {
      LevelBounds(fs, i, n - 1);
    }
    assert n <= j;
    if n < j {
      LevelBounds(fs, n, j);
      assert Less(fs[n - 1].largest, fs[n].smallest);
      assert fs[n] in fs && IsBoundary(fs[n], k);
      assert Less(fs[n].largest, fs[j].smallest);
      LevelBounds(fs, n, n);
      assert Less(fs[n].smallest, g.smallest);
    }
  }

  /** AddBoundaryInputs turns any choice into a clean one. */
  lemma BoundariesSelect(level: nat, fs: seq<FileMeta>, files: seq<FileMeta>, files': seq<FileMeta>)
    requires ValidFiles(fs) && (level > 0 ==> LevelSorted(fs))
    requires Chosen(level, fs, files) && BoundaryClosure(fs, files, files')
    ensures Selected(level, fs, files')
  {
    if level == 0 {
      NothingAddedAtLevel0(fs, files, files');
    } else {
      var lo, hi :| 0 <= lo < hi <= |fs| && files == fs[lo..hi];
      ChainEndsCleanly(fs, lo, hi - lo, files');
    }
  }

  lemma ChainEndsCleanly(fs: seq<FileMeta>, lo: nat, n: nat, files': seq<FileMeta>)
    requires ValidFiles(fs) && LevelSorted(fs)
    requires 0 < n <= |files'| && Tracks(fs, lo, files', n)
    requires BoundaryChain(fs, files', n) && NoBoundary(fs, files')
    ensures CutsCleanly(fs, lo, lo + |files'|) && files' == fs[lo..lo + |files'|]
  {
    var m := |files'|;
    ChainTracks(fs, lo, n, files', m);
    LargestOfRun(fs, lo, files', m);
    assert files'[..m] == files';
    if lo + m < |fs| {
      assert fs[lo + m] in fs && Less(fs[lo + m - 1].largest, fs[lo + m].smallest);
    }
  }

  lemma NothingAddedAtLevel0(fs: seq<FileMeta>, files: seq<FileMeta>, files': seq<FileMeta>)
    requires ValidFiles(fs) && Chosen(0, fs, files) && files <= files' && BoundaryChain(fs, files', |files|)
    ensures files' == files
  {
    NoBoundaryAtLevel0(fs, files);
    assert files'[..|files|] == files;
    assert |files| < |files'| ==> SmallestBoundary(fs, LargestKey(files), files'[|files|]);
  }

  lemma NoBoundaryAtLevel0(fs: seq<FileMeta>, files: seq<FileMeta>)
    requires ValidFiles(fs) && Chosen(0, fs, files)
    ensures forall f :: f in fs ==> !IsBoundary(f, LargestKey(files))
  {
    RangeOf(files);
    var g :| g in files && g.largest == LargestKey(files);
    FileOrdered(g);
    forall f | f in fs ensures !IsBoundary(f, LargestKey(files)) {
      FileOrdered(f);
      assert f in files || !ShareUserKeys(f, g);
    }
  }

  function TotalFileSize(fs: seq<FileMeta>): nat {
    if fs == [] then 0 else TotalFileSize(fs[..|fs| - 1]) + fs[|fs| - 1].size
  }

  ghost function Parents(v: Version, level: nat, in0: seq<FileMeta>): seq<FileMeta>
    requires level + 1 < |v| && in0 != []
  {
    Overlapping(v[level + 1], Some(SmallestKey(in0).user), Some(LargestKey(in0).user))
  }

  lemma SelectedMembers(level: nat, fs: seq<FileMeta>, in0: seq<FileMeta>)
    requires Selected(level, fs, in0)
    ensures forall f :: f in in0 ==> f in fs
  {}

  /** All files of the level in the range that `all` covers, closed over boundary files. */
  ghost predicate Widened(level: nat, fs: seq<FileMeta>, all: seq<FileMeta>, wide: seq<FileMeta>)
    requires all != []
  {
    exists begin, end ::
      && RangeTaken(level, fs, Some(SmallestKey(all).user), Some(LargestKey(all).user), begin, end)
      && BoundaryClosure(fs, Overlapping(fs, begin, end), wide)
  }

  method ExpandInputs(level: nat, fs: seq<FileMeta>, in0: seq<FileMeta>, all: seq<FileMeta>)
    returns (expanded: seq<FileMeta>)
    requires ValidFiles(fs) && (level > 0 ==> LevelSorted(fs))
    requires Selected(level, fs, in0) && forall f :: f in in0 ==> f in all
    ensures all != [] && Widened(level, fs, all, expanded) == true
    ensures Selected(level, fs, expanded)
    ensures forall f :: f in in0 ==> f in expanded
  {
    SelectedMembers(level, fs, in0);
    assert in0[0] in in0;
    var allStart, allLimit := GetRange(all);
    RangeOf(all);
    var found, b, e := GetOverlappingInputs(level, fs, Some(allStart.user), Some(allLimit.user));
    OverlappingMembers(fs, b, e);
    forall f | f in in0 ensures f in found {
      FileOrdered(f);
    }
    assert found != [];
    OverlappingIsChosen(level, fs, b, e);
    expanded := AddBoundaryInputs(fs, found);
    BoundariesSelect(level, fs, found, expanded);
  }

  /** The next level's files whose user range meets the range of the inputs. */
  method ParentInputs(v: Version, level: nat, in0: seq<FileMeta>) returns (in1: seq<FileMeta>)
    requires level + 1 < |v| && ValidFiles(v[level + 1]) && in0 != []
    ensures in1 == Parents(v, level, in0)
  {
    var smallest, largest := GetRange(in0);
    ghost var b, e;
    in1, b, e := GetOverlappingInputs(level + 1, v[level + 1], Some(smallest.user), Some(largest.user));
  }

  /** A range that contains another meets no fewer files, and the same ones if it meets as many. */
  lemma {:induction false} WiderMeetsMore(fs: seq<FileMeta>, begin: Option<UserKey>, end: Option<UserKey>,
                                          begin': Option<UserKey>, end': Option<UserKey>)
    requires Expands(begin, end, begin', end')
    ensures |Overlapping(fs, begin, end)| <= |Overlapping(fs, begin', end')|
    ensures |Overlapping(fs, begin, end)| == |Overlapping(fs, begin', end')| ==>
              Overlapping(fs, begin, end) == Overlapping(fs, begin', end')
  {
    if fs != [] {
      WiderMeetsMore(fs[..|fs| - 1], begin, end, begin', end');
    }
  }

  /** What SetupOtherInputs makes of the boundary closure `base` of the files it starts from: the upper inputs grow to
      `wide` when that takes in more files, is not too large, and meets as many files below. */
  ghost predicate SetUp(v: Version, level: nat, limit: nat, base: seq<FileMeta>, wide: seq<FileMeta>,
                        in0: seq<FileMeta>, in1: seq<FileMeta>)
    requires level + 1 < |v|
  {
    && base != [] && in1 == Parents(v, level, base)
    && if in1 == [] then in0 == base
       else
         && wide != [] && Widened(level, v[level], base + in1, wide) == true
         && in0 == if |wide| > |base| && TotalFileSize(in1) + TotalFileSize(wide) < limit && |Parents(v, level, wide)| == |in1|
                   then wide else base
  }

  lemma GrowingKeepsParents(v: Version, level: nat, base: seq<FileMeta>, wide: seq<FileMeta>)
    requires level + 1 < |v| && base != [] && wide != [] && forall f :: f in base ==> f in wide
    requires |Parents(v, level, wide)| == |Parents(v, level, base)|
    ensures Parents(v, level, wide) == Parents(v, level, base)
  {
    RangeOf(base);
    RangeOf(wide);
    WiderMeetsMore(v[level + 1], Some(SmallestKey(base).user), Some(LargestKey(base).user),
                   Some(SmallestKey(wide).user), Some(LargestKey(wide).user));
  }

  /** Complete the inputs of a compaction (version_set.cc:1403-1462).  `limit` is
      ExpandedCompactionByteSizeLimit. */
  method SetupOtherInputs(v: Version, level: nat, inputs0: seq<FileMeta>, limit: nat)
    returns (in0: seq<FileMeta>, in1: seq<FileMeta>, ghost base: seq<FileMeta>, ghost wide: seq<FileMeta>)
    requires ValidVersion(v) && level + 1 < NUM_LEVELS && Chosen(level, v[level], inputs0)
    ensures Selected(level, v[level], in0) && in1 == Parents(v, level, in0)
    ensures BoundaryClosure(v[level], inputs0, base) == true && SetUp(v, level, limit, base, wide, in0, in1) == true
    ensures forall f :: f in inputs0 ==> f in in0
  {
    var fs := v[level];
    in0 := AddBoundaryInputs(fs, inputs0);
    BoundariesSelect(level, fs, inputs0, in0);
    in1 := ParentInputs(v, level, in0);
    base, wide := in0, [];
    if in1 != [] {
      var expanded0 := ExpandInputs(level, fs, in0, in0 + in1);
      wide := expanded0;
      if |expanded0| > |in0| && TotalFileSize(in1) + TotalFileSize(expanded0) < limit {
        var expanded1 := ParentInputs(v, level, expanded0);
        if |expanded1| == |in1| {
          GrowingKeepsParents(v, level, in0, expanded0);
          in0, in1 := expanded0, expanded1;
        }
      }
    }
  }

  // ---- Where a compaction starts ----

  /** Deeper than level 0 the file alone; at level 0 the files of the least closed range around it. */
  ghost predicate Picked(level: nat, fs: seq<FileMeta>, f: FileMeta, inputs: seq<FileMeta>) {
    if level > 0 then inputs == [f]
    else exists begin, end ::
      && RangeTaken(0, fs, Some(f.smallest.user), Some(f.largest.user), begin, end)
      && inputs == Overlapping(fs, begin, end)
  }

  /** PickCompaction: one file, and at level 0 every file its user range reaches
      (version_set.cc:1284-1317). */
  method PickInputs(level: nat, fs: seq<FileMeta>, f: FileMeta) returns (inputs: seq<FileMeta>)
    requires ValidFiles(fs) && f in fs && (level > 0 ==> LevelSorted(fs))
    ensures Picked(level, fs, f, inputs) && Chosen(level, fs, inputs) && f in inputs
  {
    inputs := [f];
    if level == 0 {
      FileOrdered(f);
      var found, b, e := GetOverlappingInputs(0, fs, Some(f.smallest.user), Some(f.largest.user));
      OverlappingMembers(fs, b, e);
      assert f in found;
      OverlappingIsChosen(0, fs, b, e);
      inputs := found;
    } else {
      var i :| 0 <= i < |fs| && fs[i] == f;
      assert inputs == fs[i..i + 1];
    }
  }

  /** Nothing is in the range taken exactly if nothing meets the range asked for. */
  lemma EmptyRange(level: nat, fs: seq<FileMeta>, begin: Option<UserKey>, end: Option<UserKey>,
                   begin': Option<UserKey>, end': Option<UserKey>)
    requires RangeTaken(level, fs, begin, end, begin', end')
    ensures Overlapping(fs, begin', end') == [] <==> forall f :: f in fs ==> !Overlaps(f, begin, end)
  {
    var found := Overlapping(fs, begin', end');
    OverlappingMembers(fs, begin', end');
    if found == [] {
      forall f | f in fs ensures !Overlaps(f, begin, end) {
        assert f !in found;
      }
    } else {
      assert found[0] in found;
      assert Expands(begin, end, begin, end) && (ClosedRange(fs, begin, end) ==> begin' == begin && end' == end);
    }
  }

  /** The first files of the list, up to the one that reaches the limit; all of them if none does. */
  ghost predicate CutAtLimit(found: seq<FileMeta>, limit: nat, inputs: seq<FileMeta>) {
    && inputs <= found
    && (|inputs| > 1 ==> TotalFileSize(inputs[..|inputs| - 1]) < limit)
    && (inputs != found ==> inputs != [] && TotalFileSize(inputs) >= limit)
  }

  lemma CutHere(found: seq<FileMeta>, limit: nat, i: nat)
    requires i < |found| && (i > 0 ==> TotalFileSize(found[..i]) < limit)
    requires i + 1 == |found| || TotalFileSize(found[..i + 1]) >= limit
    ensures CutAtLimit(found, limit, found[..i + 1])
  {
    assert found[..i + 1][..i] == found[..i];
    assert found[..|found|] == found;
  }

  /** Cut the list right after the file with which the sizes reach the limit. */
  method CutShort(found: seq<FileMeta>, limit: nat) returns (inputs: seq<FileMeta>)
    requires found != []
    ensures CutAtLimit(found, limit, inputs) == true && inputs != []
  {
    var total, i := 0, 0;
    while i < |found|
      invariant i <= |found| && total == TotalFileSize(found[..i]) && (i > 0 ==> total < limit)
    {
      assert found[..i + 1][..i] == found[..i];
      total := total + found[i].size;
      if total >= limit {
        CutHere(found, limit, i);
        return found[..i + 1];
      }
      i := i + 1;
    }
    assert found[..i] == found && found[..i][..i - 1] == found[..i - 1];
    CutHere(found, limit, i - 1);
    inputs := found;
  }

  lemma CutIsChosen(level: nat, fs: seq<FileMeta>, found: seq<FileMeta>, limit: nat, inputs: seq<FileMeta>)
    requires level > 0 && Chosen(level, fs, found) && CutAtLimit(found, limit, inputs) && inputs != []
    ensures Chosen(level, fs, inputs)
  {
    var lo, hi :| 0 <= lo < hi <= |fs| && found == fs[lo..hi];
    assert inputs == fs[lo..lo + |inputs|];
  }

  /** CompactRange: the files in the range, cut short deeper than level 0 once `limit` bytes are in
      (version_set.cc:1464-1495). */
  method ManualInputs(level: nat, fs: seq<FileMeta>, begin: Option<UserKey>, end: Option<UserKey>, limit: nat)
    returns (inputs: seq<FileMeta>, ghost begin': Option<UserKey>, ghost end': Option<UserKey>)
    requires ValidFiles(fs) && (level > 0 ==> LevelSorted(fs))
    ensures RangeTaken(level, fs, begin, end, begin', end') == true
    ensures inputs == [] <==> forall f :: f in fs ==> !Overlaps(f, begin, end)
    ensures level == 0 ==> inputs == Overlapping(fs, begin', end')
    ensures level > 0 ==> CutAtLimit(Overlapping(fs, begin', end'), limit, inputs) == true
    ensures inputs != [] ==> Chosen(level, fs, inputs)
  {
    var found;
    found, begin', end' := GetOverlappingInputs(level, fs, begin, end);
    EmptyRange(level, fs, begin, end, begin', end');
    inputs := found;
    if inputs == [] { return; }
    OverlappingIsChosen(level, fs, begin', end');
    if level > 0 {
      inputs := CutShort(found, limit);
      CutIsChosen(level, fs, found, limit, inputs);
    }
  }
}
