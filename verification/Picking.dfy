/** Choosing the inputs of a compaction (GetOverlappingInputs, AddBoundaryInputs,
    SetupOtherInputs, PickCompaction and CompactRange of db/version_set.cc). */
module Picking {
  import opened DbFormat
  import opened Mvcc
  import opened Version

  // ---------- ranges of user keys, an absent end is unbounded ----------

  predicate AtMost(x: Option<UserKey>, k: UserKey) { x.None? || x.value <= k }
  predicate AtLeast(y: Option<UserKey>, k: UserKey) { y.None? || y.value >= k }

  /** The file lies inside the range. */
  predicate Inside(f: File, lo: Option<UserKey>, hi: Option<UserKey>) {
    AtMost(lo, Smallest(f).user) && AtLeast(hi, Largest(f).user)
  }

  /** The range [x, y] includes the range [lo, hi]. */
  predicate Wider(x: Option<UserKey>, y: Option<UserKey>, lo: Option<UserKey>, hi: Option<UserKey>) {
    && (x.None? || (lo.Some? && x.value <= lo.value))
    && (y.None? || (hi.Some? && y.value >= hi.value))
  }

  /** No file of the level sticks out of the range. */
  ghost predicate Closed(level: Level, lo: Option<UserKey>, hi: Option<UserKey>) {
    forall f {:trigger f in level, Overlaps(f, lo, hi)} {:trigger f in level, Inside(f, lo, hi)} ::
      f in level && Overlaps(f, lo, hi) ==> Inside(f, lo, hi)
  }

  function Overlapping(level: Level, lo: Option<UserKey>, hi: Option<UserKey>): seq<File> {
    if level == [] then []
    else
      var f := level[|level| - 1];
      Overlapping(level[..|level| - 1], lo, hi) + if Overlaps(f, lo, hi) then [f] else []
  }

  lemma {:induction false} OverlappingMembers(level: Level, lo: Option<UserKey>, hi: Option<UserKey>)
    ensures forall f {:trigger f in Overlapping(level, lo, hi)} {:trigger f in level, Overlaps(f, lo, hi)} ::
              f in Overlapping(level, lo, hi) <==> f in level && Overlaps(f, lo, hi)
  {
    if level != [] {
      OverlappingMembers(level[..|level| - 1], lo, hi);
      assert level == level[..|level| - 1] + [level[|level| - 1]];
    }
  }

  lemma OverlappingStep(level: Level, i: nat, lo: Option<UserKey>, hi: Option<UserKey>)
    requires i < |level|
    ensures Overlapping(level[..i + 1], lo, hi)
         == Overlapping(level[..i], lo, hi) + if Overlaps(level[i], lo, hi) then [level[i]] else []
  {
    assert level[..i + 1][..i] == level[..i];
  }

  lemma ClosedStep(level: Level, i: nat, lo: Option<UserKey>, hi: Option<UserKey>)
    requires i < |level| && Closed(level[..i], lo, hi)
    requires Overlaps(level[i], lo, hi) ==> Inside(level[i], lo, hi)
    ensures Closed(level[..i + 1], lo, hi)
  {
    assert level[..i + 1] == level[..i] + [level[i]];
  }

  /** Files reaching below the range plus files reaching above it. */
  ghost function Outliers(level: Level, lo: Option<UserKey>, hi: Option<UserKey>): nat {
    if level == [] then 0 else
      Outliers(level[1..], lo, hi)
      + (if AtMost(lo, Smallest(level[0]).user) then 0 else 1)
      + (if AtLeast(hi, Largest(level[0]).user) then 0 else 1)
  }

  lemma {:induction false} OutliersShrink(level: Level, lo: Option<UserKey>, hi: Option<UserKey>,
                                          x: Option<UserKey>, y: Option<UserKey>, f: File)
    requires Wider(x, y, lo, hi)
    ensures Outliers(level, x, y) <= Outliers(level, lo, hi)
    ensures f in level && !AtMost(lo, Smallest(f).user) && AtMost(x, Smallest(f).user)
            ==> Outliers(level, x, y) < Outliers(level, lo, hi)
    ensures f in level && !AtLeast(hi, Largest(f).user) && AtLeast(y, Largest(f).user)
            ==> Outliers(level, x, y) < Outliers(level, lo, hi)
  {
    if level != [] {
      OutliersShrink(level[1..], lo, hi, x, y, f);
    }
  }

  /** The user key lies within the end points of one of the files. */
  ghost predicate InSome(files: seq<File>, x: UserKey) {
    exists f :: f in files && Overlaps(f, Some(x), Some(x))
  }

  /** Every key of the bounded range lies in one of the files that overlap the range. */
  ghost predicate Filled(files: seq<File>, lo: Option<UserKey>, hi: Option<UserKey>) {
    && lo.Some? && hi.Some?
    && forall x: UserKey {:trigger InSome(files, x)} :: lo.value <= x <= hi.value ==> InSome(files, x)
  }

  lemma FilledWider(files: seq<File>, lo: Option<UserKey>, hi: Option<UserKey>, f: File)
    requires Filled(files, lo, hi) && f in files && Overlaps(f, lo, hi)
    ensures Smallest(f).user <= lo.value ==> Filled(files, Some(Smallest(f).user), hi)
    ensures Largest(f).user >= hi.value ==> Filled(files, lo, Some(Largest(f).user))
  {
    forall x: UserKey | Smallest(f).user <= x <= Largest(f).user ensures InSome(files, x) {
      assert Overlaps(f, Some(x), Some(x));
    }
  }

  /** [x, y] includes [lo, hi], and every closed range that does so includes [x, y]. */
  ghost predicate Forced(level: Level, lo: Option<UserKey>, hi: Option<UserKey>,
                         x: Option<UserKey>, y: Option<UserKey>) {
    && Wider(x, y, lo, hi)
    && forall a, b {:trigger Closed(level, a, b)} ::
         Wider(a, b, lo, hi) && Closed(level, a, b) ==> Wider(a, b, x, y)
  }

  /** What level 0 demands of the widened range: it is the least range around [lo, hi] that no
      overlapping file sticks out of. */
  ghost predicate LeastClosed(level: Level, lo: Option<UserKey>, hi: Option<UserKey>,
                              x: Option<UserKey>, y: Option<UserKey>) {
    Forced(level, lo, hi, x, y) && Closed(level, x, y)
  }

  /** The files a level yields for a range: those that meet it, over level 0 once it is closed. */
  ghost predicate Selected(level: Level, level0: bool, begin: Option<UserKey>, end: Option<UserKey>, files: seq<File>) {
    exists lo, hi :: SelectedBy(level, level0, begin, end, lo, hi, files)
  }

  ghost predicate SelectedBy(level: Level, level0: bool, begin: Option<UserKey>, end: Option<UserKey>,
                             lo: Option<UserKey>, hi: Option<UserKey>, files: seq<File>) {
    && files == Overlapping(level, lo, hi)
    && if level0 then LeastClosed(level, begin, end, lo, hi) else lo == begin && hi == end
  }

  /** A file that overlaps the range so far forces the range to its own end points. */
  lemma ForcedStep(level: Level, lo: Option<UserKey>, hi: Option<UserKey>,
                   x: Option<UserKey>, y: Option<UserKey>, f: File)
    requires Forced(level, lo, hi, x, y) && f in level && Overlaps(f, x, y)
    ensures x.Some? && Smallest(f).user < x.value ==> Forced(level, lo, hi, Some(Smallest(f).user), y)
    ensures y.Some? && Largest(f).user > y.value ==> Forced(level, lo, hi, x, Some(Largest(f).user))
  {
    forall a, b | Wider(a, b, lo, hi) && Closed(level, a, b) ensures Wider(a, b, x, y) && Inside(f, a, b) {
      assert Overlaps(f, a, b);
    }
  }

  /** Files overlapping a range. Over level 0 the range grows, restarting the scan, until the
      files it meets lie inside it. */
  method GetOverlappingInputs(level: Level, level0: bool, begin: Option<UserKey>, end: Option<UserKey>,
                              ghost extra: seq<File>)
    returns (inputs: seq<File>, ghost lo: Option<UserKey>, ghost hi: Option<UserKey>)
    ensures inputs == Overlapping(level, lo, hi)
    ensures !level0 ==> lo == begin && hi == end
    ensures level0 ==> LeastClosed(level, begin, end, lo, hi)
    ensures level0 && Filled(level + extra, begin, end) ==> Filled(level + extra, lo, hi)
  {
    var userBegin, userEnd := begin, end;
    inputs := [];
    var i := 0;
    while i < |level|
      invariant 0 <= i <= |level|
      invariant inputs == Overlapping(level[..i], userBegin, userEnd)
      invariant !level0 ==> userBegin == begin && userEnd == end
      invariant Forced(level, begin, end, userBegin, userEnd)
      invariant level0 ==> Closed(level[..i], userBegin, userEnd)
      invariant Filled(level + extra, begin, end) ==> Filled(level + extra, userBegin, userEnd)
      decreases Outliers(level, userBegin, userEnd), |level| - i
    {
      var f := level[i];
      ghost var x, y := userBegin, userEnd;
      OverlappingStep(level, i, x, y);
      i := i + 1;
      if userBegin.Some? && Largest(f).user < userBegin.value {
        if level0 { ClosedStep(level, i - 1, x, y); }
      } else if userEnd.Some? && Smallest(f).user > userEnd.value {
        if level0 { ClosedStep(level, i - 1, x, y); }
      } else {
        inputs := inputs + [f];
        if level0 {
          ForcedStep(level, begin, end, x, y, f);
          if Filled(level + extra, begin, end) { FilledWider(level + extra, x, y, f); }
          if userBegin.Some? && Smallest(f).user < userBegin.value {
            userBegin := Some(Smallest(f).user);
            inputs := [];
            i := 0;
            OutliersShrink(level, x, y, userBegin, userEnd, f);
          } else if userEnd.Some? && Largest(f).user > userEnd.value {
            userEnd := Some(Largest(f).user);
            inputs := [];
            i := 0;
            OutliersShrink(level, x, y, userBegin, userEnd, f);
          } else {
            ClosedStep(level, i - 1, x, y);
          }
        }
      }
    }
    lo, hi := userBegin, userEnd;
    assert level[..i] == level;
  }

  // ---------- boundary files ----------

  ghost predicate IsLargestKey(files: seq<File>, key: InternalKey) {
    (exists f :: f in files && Largest(f) == key) && forall f :: f in files ==> !Less(key, Largest(f))
  }

  /** The file starts with older versions of the user key that `key` ends with. */
  predicate IsBoundary(f: File, key: InternalKey) {
    Less(key, Smallest(f)) && Smallest(f).user == key.user
  }

  /** No file of the level continues the last user key of the chosen files. */
  ghost predicate BoundaryClosed(level: Level, files: seq<File>) {
    forall f, key {:trigger IsLargestKey(files, key), IsBoundary(f, key)} ::
      f in level && IsLargestKey(files, key) ==> !IsBoundary(f, key)
  }

  ghost predicate Subset(files: seq<File>, level: Level) {
    forall f {:trigger f in files} :: f in files ==> f in level
  }

  ghost predicate Distinct(files: seq<File>) {
    forall i, j :: 0 <= i < j < |files| ==> files[i] != files[j]
  }

  /** The chosen files leave no file of the level out between two of them. */
  ghost predicate Contiguous(level: Level, files: seq<File>) {
    forall f, g, h {:trigger Before(f, h), Before(h, g)} ::
      f in files && g in files && h in level && Before(f, h) && Before(h, g) ==> h in files
  }

  method FindLargestKey(files: seq<File>) returns (key: InternalKey)
    requires files != []
    ensures IsLargestKey(files, key)
  {
    key := Largest(files[0]);
    for i := 1 to |files|
      invariant IsLargestKey(files[..i], key)
    {
      assert files[..i + 1] == files[..i] + [files[i]];
      assert files[i] in files[..i + 1];
      assert forall f :: f in files[..i] ==> f in files[..i + 1];
      if Less(key, Largest(files[i])) {
        key := Largest(files[i]);
      }
    }
    assert files[..|files|] == files;
  }

  method FindSmallestBoundaryFile(level: Level, key: InternalKey) returns (r: Option<File>)
    ensures r.None? ==> forall f :: f in level ==> !IsBoundary(f, key)
    ensures r.Some? ==> r.value in level && IsBoundary(r.value, key)
    ensures r.Some? ==> forall f :: f in level && IsBoundary(f, key) ==> !Less(Smallest(f), Smallest(r.value))
  {
    r := None;
    for i := 0 to |level|
      invariant r.None? ==> forall j :: 0 <= j < i ==> !IsBoundary(level[j], key)
      invariant r.Some? ==> r.value in level && IsBoundary(r.value, key)
      invariant r.Some? ==> forall j :: 0 <= j < i && IsBoundary(level[j], key)
                                        ==> !Less(Smallest(level[j]), Smallest(r.value))
    {
      var f := level[i];
      if Less(key, Smallest(f)) && Smallest(f).user == key.user {
        if r.None? || Less(Smallest(f), Smallest(r.value)) {
          r := Some(f);
        }
      }
    }
  }

  ghost function FilesAfter(level: Level, key: InternalKey): nat {
    if level == [] then 0 else FilesAfter(level[1..], key) + if Less(key, Smallest(level[0])) then 1 else 0
  }

  lemma {:induction false} FilesAfterShrinks(level: Level, key: InternalKey, key': InternalKey, f: File)
    requires Less(key, key')
    ensures FilesAfter(level, key') <= FilesAfter(level, key)
    ensures f in level && Less(key, Smallest(f)) && !Less(key', Smallest(f))
            ==> FilesAfter(level, key') < FilesAfter(level, key)
  {
    if level != [] {
      FilesAfterShrinks(level[1..], key, key', f);
      if Less(key', Smallest(level[0])) { LessTrans(key, key', Smallest(level[0])); }
    }
  }

  /** A boundary file directly follows the largest chosen file of its level. */
  lemma BoundaryContiguous(level: Level, files: seq<File>, key: InternalKey, b: File)
    requires Apart(level) && Contiguous(level, files) && Subset(files, level)
    requires IsLargestKey(files, key) && b in level && IsBoundary(b, key)
    requires forall f :: f in level && IsBoundary(f, key) ==> !Less(Smallest(f), Smallest(b))
    ensures Contiguous(level, files + [b])
  {
    forall f, g, h | f in files + [b] && g in files + [b] && h in level && Before(f, h) && Before(h, g)
      ensures h in files + [b]
    {
      NotBeforeBoth(f, h);
      NotBeforeBoth(h, g);
      if g != b {
        if f == b {
          BeforeLargest(files, key, g, b);
        }
      } else {
        NoneBetween(level, key, b, h);
        var top :| top in files && Largest(top) == key;
        assert !Before(top, h);
        assert h == top || Before(h, top);
      }
    }
  }

  lemma NoneBetween(level: Level, key: InternalKey, b: File, h: File)
    requires b in level && IsBoundary(b, key)
    requires forall f :: f in level && IsBoundary(f, key) ==> !Less(Smallest(f), Smallest(b))
    requires h in level && Less(Smallest(h), Smallest(b))
    ensures !Less(key, Smallest(h))
  {
    assert !IsBoundary(h, key);
  }

  lemma BeforeLargest(files: seq<File>, key: InternalKey, g: File, b: File)
    requires IsLargestKey(files, key) && g in files && Less(key, Smallest(b))
    ensures !Less(Smallest(b), Smallest(g))
  {
    Bounds(g, g.entries[0]);
    if Less(Smallest(b), Smallest(g)) {
      LessTrans(key, Smallest(b), Smallest(g));
    }
  }

  /** `b` is the first boundary file after the chosen files. */
  ghost predicate NextBoundary(level: Level, files: seq<File>, key: InternalKey, b: File) {
    && IsLargestKey(files, key) && b in level && IsBoundary(b, key)
    && forall f :: f in level && IsBoundary(f, key) ==> !Less(Smallest(f), Smallest(b))
  }

  /** `r` is the chosen files followed by one boundary file after another. */
  ghost predicate Chain(level: Level, files: seq<File>, r: seq<File>) {
    r == files ||
    (|r| > |files| && Chain(level, files, r[..|r| - 1]) &&
     Continues(level, r[..|r| - 1], r[|r| - 1]))
  }

  ghost predicate Continues(level: Level, files: seq<File>, b: File) {
    exists key :: NextBoundary(level, files, key, b)
  }

  lemma ChainStep(level: Level, files: seq<File>, r: seq<File>, key: InternalKey, b: File)
    requires Chain(level, files, r) && |r| >= |files| && NextBoundary(level, r, key, b)
    ensures Chain(level, files, r + [b])
  {
    assert (r + [b])[..|r|] == r;
  }

  /** The chosen files together with every boundary file that follows them. */
  method AddBoundaryInputs(level: Level, files: seq<File>) returns (r: seq<File>)
    ensures Chain(level, files, r) && BoundaryClosed(level, r)
  {
    r := files;
    if files == [] {
      return;
    }
    var key := FindLargestKey(files);
    var searching := true;
    while searching
      invariant |r| >= |files| && Chain(level, files, r) && IsLargestKey(r, key)
      invariant !searching ==> forall f :: f in level ==> !IsBoundary(f, key)
      decreases searching, FilesAfter(level, key)
    {
      var b := FindSmallestBoundaryFile(level, key);
      if b.Some? {
        ChainStep(level, files, r, key, b.value);
        BoundaryIsNew(r, key, b.value);
        FilesAfterShrinks(level, key, Largest(b.value), b.value);
        r := r + [b.value];
        key := Largest(b.value);
      } else {
        searching := false;
      }
    }
    forall f, k | f in level && IsLargestKey(r, k) ensures !IsBoundary(f, k) {
      assert k == key;
    }
  }

  /** The chain adds files of the level only, none twice, and leaves none out in between. */
  lemma {:induction false} ChainFacts(level: Level, files: seq<File>, r: seq<File>)
    requires Chain(level, files, r) && Subset(files, level)
    ensures files <= r && Subset(r, level)
    ensures Distinct(files) ==> Distinct(r)
    ensures Apart(level) && Contiguous(level, files) ==> Contiguous(level, r)
    decreases |r|
  {
    if r != files {
      var q, b := r[..|r| - 1], r[|r| - 1];
      assert r == q + [b];
      ChainFacts(level, files, q);
      var key :| NextBoundary(level, q, key, b);
      BoundaryIsNew(q, key, b);
      if Apart(level) && Contiguous(level, files) { BoundaryContiguous(level, q, key, b); }
    }
  }

  lemma {:induction false} ChainClosed(level: Level, files: seq<File>, r: seq<File>)
    requires Chain(level, files, r) && BoundaryClosed(level, files)
    ensures r == files
    decreases |r|
  {
    if r != files {
      ChainClosed(level, files, r[..|r| - 1]);
    }
  }

  lemma {:induction false} ChainCovered(level: Level, files: seq<File>, r: seq<File>, other: seq<File>)
    requires Chain(level, files, r) && Covered(files + other)
    ensures Covered(r + other)
    decreases |r|
  {
    if r != files {
      var q, b := r[..|r| - 1], r[|r| - 1];
      assert r == q + [b];
      ChainCovered(level, files, q, other);
      var key :| NextBoundary(level, q, key, b);
      BoundaryCovered(q, key, b, other);
    }
  }

  lemma BoundaryIsNew(files: seq<File>, key: InternalKey, b: File)
    requires IsLargestKey(files, key) && IsBoundary(b, key)
    ensures b !in files && IsLargestKey(files + [b], Largest(b))
    ensures Less(key, Largest(b)) && !Less(Largest(b), Smallest(b))
  {
    Bounds(b, b.entries[0]);
    forall f | f in files + [b] ensures !Less(Largest(b), Largest(f)) {
      if f in files && Less(Largest(b), Largest(f)) { LessTrans(key, Largest(b), Largest(f)); }
    }
    assert b in files + [b];
  }

  // ---------- covered sets of files ----------

  ghost predicate Reaches(files: seq<File>, x: UserKey) {
    && (exists f :: f in files && Smallest(f).user <= x)
    && (exists f :: f in files && x <= Largest(f).user)
  }

  /** The files leave no gap: every user key between the least and the greatest lies in one. */
  ghost predicate Covered(files: seq<File>) {
    forall x: UserKey {:trigger InSome(files, x)} :: Reaches(files, x) ==> InSome(files, x)
  }

  /** The file meets the stretch from the least to the greatest key of the files. */
  ghost predicate Meets(files: seq<File>, g: File) {
    && (exists f :: f in files && Smallest(f).user <= Largest(g).user)
    && (exists f :: f in files && Smallest(g).user <= Largest(f).user)
  }

  lemma MeetsAt(files: seq<File>, g: File, x: UserKey)
    requires Meets(files, g) && !Reaches(files, x)
    requires Smallest(g).user <= x || x <= Largest(g).user
    requires (exists f :: f in files && Smallest(f).user <= x) ==> x <= Largest(g).user
    requires (exists f :: f in files && x <= Largest(f).user) ==> Smallest(g).user <= x
    ensures Overlaps(g, Some(x), Some(x))
  {
  }

  /** Adding files that meet the covered stretch keeps it covered. */
  lemma CoveredGrow(files: seq<File>, more: seq<File>)
    requires Covered(files)
    requires forall g :: g in more ==> Meets(files, g)
    ensures Covered(files + more)
  {
    forall x: UserKey | Reaches(files + more, x) ensures InSome(files + more, x) {
      if Reaches(files, x) {
        assert InSome(files, x);
        var f :| f in files && Overlaps(f, Some(x), Some(x));
        assert f in files + more;
      } else if f :| f in files && Smallest(f).user <= x {
        var g :| g in files + more && x <= Largest(g).user;
        assert g in more;
        MeetsAt(files, g, x);
      } else {
        var g :| g in files + more && Smallest(g).user <= x;
        assert g in more;
        MeetsAt(files, g, x);
      }
    }
  }

  lemma BoundaryCovered(r: seq<File>, key: InternalKey, b: File, other: seq<File>)
    requires IsLargestKey(r, key) && IsBoundary(b, key) && Covered(r + other)
    ensures Covered(r + [b] + other)
  {
    var top :| top in r && Largest(top) == key;
    assert top in r + other;
    Bounds(top, top.entries[0]);
    Bounds(b, b.entries[0]);
    CoveredGrow(r + other, [b]);
    CoveredMembers(r + other + [b], r + [b] + other);
  }

  lemma CoveredMembers(files: seq<File>, same: seq<File>)
    requires Covered(files) && forall f :: f in files <==> f in same
    ensures Covered(same)
  {
    forall x: UserKey | Reaches(same, x) ensures InSome(same, x) {
      assert Reaches(files, x) && InSome(files, x);
    }
  }

  // ---------- the inputs of a compaction ----------

  predicate UserBefore(f: File, g: File) { Largest(f).user < Smallest(g).user }

  /** The file shares no user key with `in0` and lies, with respect to all the inputs, on one side. */
  ghost predicate Clear(g: File, in0: seq<File>, in1: seq<File>) {
    || ((forall f :: f in in0 ==> UserBefore(g, f)) && (forall f :: f in in1 ==> Before(g, f)))
    || ((forall f :: f in in0 ==> UserBefore(f, g)) && (forall f :: f in in1 ==> Before(f, g)))
  }

  /** Inputs of a compaction of `level`: the files left behind in the level hold newer versions only. */
  ghost predicate TakesFrom(v: Version, level: nat, in0: seq<File>, in1: seq<File>) {
    && level + 1 < |v|
    && in0 != [] && Subset(in0, v[level]) && Distinct(in0)
    && Subset(in1, v[level + 1]) && Distinct(in1)
    && (forall h, f {:trigger NewerThan(h, f)} :: h in v[level] && h !in in0 && f in in0 ==> NewerThan(h, f))
  }

  /** What a compaction needs of its inputs, whatever it drops: the files left in the next level do
      not interleave with them either. */
  ghost predicate GoodPick(v: Version, level: nat, in0: seq<File>, in1: seq<File>) {
    && TakesFrom(v, level, in0, in1)
    && (forall g {:trigger Clear(g, in0, in1)} :: g in v[level + 1] && g !in in1 ==> Clear(g, in0, in1))
  }

  /** Files a selection may start from. */
  ghost predicate Seed(level: Level, level0: bool, files: seq<File>) {
    && files != [] && Subset(files, level) && Distinct(files)
    && (level0 ==> exists lo, hi :: Closed(level, lo, hi) && forall f :: f in files <==> f in level && Overlaps(f, lo, hi))
    && (!level0 ==> Contiguous(level, files))
  }

  lemma {:induction false} OverlappingOrdered(level: Level, lo: Option<UserKey>, hi: Option<UserKey>)
    requires Ordered(level)
    ensures Ordered(Overlapping(level, lo, hi))
  {
    if level != [] {
      var front, f := level[..|level| - 1], level[|level| - 1];
      assert forall i, j :: 0 <= i < j < |front| ==> BySmallest(level[i], level[j]);
      OverlappingOrdered(front, lo, hi);
      OverlappingMembers(front, lo, hi);
      forall g | g in front ensures BySmallest(g, f) {
        var i :| 0 <= i < |front| && front[i] == g;
        assert BySmallest(level[i], level[|level| - 1]);
      }
      var rest := Overlapping(front, lo, hi);
      forall i | 0 <= i < |rest| ensures BySmallest(rest[i], f) { assert rest[i] in rest; }
    }
  }

  lemma OverlappingDistinct(level: Level, lo: Option<UserKey>, hi: Option<UserKey>)
    requires Ordered(level)
    ensures Distinct(Overlapping(level, lo, hi))
  {
    OverlappingOrdered(level, lo, hi);
    var r := Overlapping(level, lo, hi);
    forall i, j | 0 <= i < j < |r| ensures r[i] != r[j] { assert BySmallest(r[i], r[j]); }
  }

  lemma OverlappingContiguous(level: Level, lo: Option<UserKey>, hi: Option<UserKey>)
    ensures Contiguous(level, Overlapping(level, lo, hi))
  {
    OverlappingMembers(level, lo, hi);
    var files := Overlapping(level, lo, hi);
    forall f, g, h | f in files && g in files && h in level && Before(f, h) && Before(h, g) ensures h in files {
      NotBeforeBoth(f, h);
      NotBeforeBoth(h, g);
    }
  }

  /** Closing a seed under boundary files leaves only newer versions behind in its level. */
  lemma SeedLeavesNewer(level: Level, level0: bool, files: seq<File>, in0: seq<File>, h: File, f: File)
    requires Seed(level, level0, files) && (!level0 ==> Apart(level)) && Functional(LevelContents(level))
    requires Chain(level, files, in0) && BoundaryClosed(level, in0)
    requires h in level && h !in in0 && f in in0
    ensures NewerThan(h, f)
  {
    if level0 {
      var lo, hi :| Closed(level, lo, hi) && forall g :: g in files <==> g in level && Overlaps(g, lo, hi);
      ClosedIsBoundaryClosed(level, files, lo, hi);
      ChainClosed(level, files, in0);
      forall d, e | d in h.entries && e in f.entries ensures d.ik.user != e.ik.user {
        Bounds(h, d);
        Bounds(f, e);
      }
    } else {
      ChainFacts(level, files, in0);
      assert Before(f, h) || Before(h, f);
      forall d, e | d in h.entries && e in f.entries && d.ik.user == e.ik.user ensures d.ik.num > e.ik.num {
        if Before(f, h) {
          BehindSharesNothing(level, in0, h, f, d, e);
        } else {
          BeforeEntries(h, f, d, e);
          assert d in LevelContents(level) && e in LevelContents(level);
        }
      }
    }
  }

  lemma ClosedIsBoundaryClosed(level: Level, files: seq<File>, lo: Option<UserKey>, hi: Option<UserKey>)
    requires Closed(level, lo, hi) && forall g :: g in files <==> g in level && Overlaps(g, lo, hi)
    ensures BoundaryClosed(level, files)
  {
    forall f, key | f in level && IsLargestKey(files, key) ensures !IsBoundary(f, key) {
      var top :| top in files && Largest(top) == key;
      Bounds(f, f.entries[0]);
      Bounds(top, top.entries[0]);
      if Smallest(f).user == key.user {
        assert Overlaps(f, lo, hi);
        assert f in files;
      }
    }
  }

  lemma BehindSharesNothing(level: Level, in0: seq<File>, h: File, f: File, d: Entry, e: Entry)
    requires Apart(level) && Subset(in0, level) && Contiguous(level, in0) && BoundaryClosed(level, in0)
    requires h in level && h !in in0 && f in in0 && Before(f, h)
    requires d in h.entries && e in f.entries
    ensures d.ik.user != e.ik.user
  {
    Bounds(h, d);
    Bounds(f, e);
    var top := TopFile(in0);
    assert Before(top, h) || Before(h, top);
    assert !IsBoundary(h, Largest(top));
  }

  lemma {:induction false} TopFile(files: seq<File>) returns (top: File)
    requires files != []
    ensures top in files && IsLargestKey(files, Largest(top))
  {
    top := files[0];
    if |files| > 1 {
      var rest := TopFile(files[1..]);
      assert files == [files[0]] + files[1..];
      if Less(Largest(top), Largest(rest)) {
        top := rest;
      }
    }
  }

  ghost predicate IsSmallestKey(files: seq<File>, key: InternalKey) {
    (exists f :: f in files && Smallest(f) == key) && forall f :: f in files ==> !Less(Smallest(f), key)
  }

  /** The least range of internal keys around the files. */
  method GetRange(files: seq<File>) returns (smallest: InternalKey, largest: InternalKey)
    requires files != []
    ensures IsSmallestKey(files, smallest) && IsLargestKey(files, largest)
  {
    smallest := Smallest(files[0]);
    for i := 1 to |files|
      invariant IsSmallestKey(files[..i], smallest)
    {
      assert files[..i + 1] == files[..i] + [files[i]];
      assert files[i] in files[..i + 1];
      assert forall f :: f in files[..i] ==> f in files[..i + 1];
      if Less(Smallest(files[i]), smallest) {
        smallest := Smallest(files[i]);
      }
    }
    assert files[..|files|] == files;
    largest := FindLargestKey(files);
  }

  function TotalFileSize(files: seq<File>): nat {
    if files == [] then 0 else TotalFileSize(files[..|files| - 1]) + files[|files| - 1].size
  }

  lemma {:induction false} TotalAdds(a: seq<File>, b: seq<File>)
    ensures TotalFileSize(a + b) == TotalFileSize(a) + TotalFileSize(b)
  {
    if b == [] {
      assert a + b == a;
    } else {
      TotalAdds(a, b[..|b| - 1]);
      assert (a + b)[..|a + b| - 1] == a + b[..|b| - 1];
    }
  }

  lemma TotalOfOne(f: File)
    ensures TotalFileSize([f]) == f.size
  {
    assert [f][..0] == [];
  }

  /** The total lies between so many times the least and so many times the greatest size. */
  lemma {:induction false} TotalBetween(files: seq<File>, least: nat, most: nat)
    requires forall f :: f in files ==> least <= f.size <= most
    ensures |files| * least <= TotalFileSize(files) <= |files| * most
  {
    if files != [] {
      var front, n := files[..|files| - 1], |files| - 1;
      TotalBetween(front, least, most);
      assert files[n] in files;
      assert (n + 1) * least == n * least + least && (n + 1) * most == n * most + most;
    }
  }

  /** `in1` holds the files of the next level that meet the user key range of `in0`. */
  ghost predicate NextInputs(next: Level, in0: seq<File>, in1: seq<File>) {
    exists smallest, largest {:trigger IsSmallestKey(in0, smallest), IsLargestKey(in0, largest)} ::
      && IsSmallestKey(in0, smallest) && IsLargestKey(in0, largest)
      && in1 == Overlapping(next, Some(smallest.user), Some(largest.user))
  }

  /** `files` is what the level yields for the range of `all`, closed under boundary files. */
  ghost predicate Widened(v: Version, level: nat, all: seq<File>, files: seq<File>)
    requires level < |v|
  {
    exists seed :: RangeOf(v, level, all, seed) && Chain(v[level], seed, files) && BoundaryClosed(v[level], files)
  }

  ghost predicate RangeOf(v: Version, level: nat, all: seq<File>, seed: seq<File>)
    requires level < |v|
  {
    exists start, limit {:trigger IsSmallestKey(all, start), IsLargestKey(all, limit)} ::
      && IsSmallestKey(all, start) && IsLargestKey(all, limit)
      && Selected(v[level], level == 0, Some(start.user), Some(limit.user), seed)
  }

  /** The inputs of both levels after the attempt to widen: it succeeds if the level then has more
      inputs, they are not too large together, and they do not drag in more of the next level. */
  ghost predicate Expanded(v: Version, level: nat, in0: seq<File>, in1: seq<File>, byteLimit: nat,
                           r0: seq<File>, r1: seq<File>)
    requires level + 1 < |v|
  {
    exists e0, e1 {:trigger Widened(v, level, in0 + in1, e0), NextInputs(v[level + 1], e0, e1)} ::
      && Widened(v, level, in0 + in1, e0) && NextInputs(v[level + 1], e0, e1)
      && (if |e0| > |in0| && TotalFileSize(in1) + TotalFileSize(e0) < byteLimit && |e1| == |in1|
          then r0 == e0 && r1 == e1 else r0 == in0 && r1 == in1)
  }

  /** The inputs that a seed leads to: boundary files, the next level's files in the range, and the
      widening if the next level has any. */
  ghost predicate SetUp(v: Version, level: nat, seed: seq<File>, byteLimit: nat, in0: seq<File>, in1: seq<File>)
    requires level + 1 < |v|
  {
    exists a0, a1 {:trigger Chain(v[level], seed, a0), NextInputs(v[level + 1], a0, a1)} ::
      && Chain(v[level], seed, a0) && BoundaryClosed(v[level], a0) && NextInputs(v[level + 1], a0, a1)
      && (if a1 == [] then in0 == a0 && in1 == [] else Expanded(v, level, a0, a1, byteLimit, in0, in1))
  }

  /** The files two levels down that meet the whole range of the inputs. */
  ghost predicate Grandparents(v: Version, level: nat, inputs: seq<File>, files: seq<File>)
    requires level < |v|
  {
    if level + 2 < |v| then NextInputs(v[level + 2], inputs, files) else files == []
  }

  lemma OverlapIsGoodPick(v: Version, level: nat, seed: seq<File>, in0: seq<File>, in1: seq<File>,
                          smallest: InternalKey, largest: InternalKey)
    requires VersionOk(v) && Functional(Contents(v)) && level + 1 < |v|
    requires Seed(v[level], level == 0, seed)
    requires Chain(v[level], seed, in0) && BoundaryClosed(v[level], in0)
    requires IsSmallestKey(in0, smallest) && IsLargestKey(in0, largest)
    requires in1 == Overlapping(v[level + 1], Some(smallest.user), Some(largest.user))
    ensures GoodPick(v, level, in0, in1)
  {
    OverlappingMembers(v[level + 1], Some(smallest.user), Some(largest.user));
    ChainFacts(v[level], seed, in0);
    OverlappingDistinct(v[level + 1], Some(smallest.user), Some(largest.user));
    assert LevelContents(v[level]) <= Contents(v);
    forall h, f | h in v[level] && h !in in0 && f in in0 ensures NewerThan(h, f) {
      SeedLeavesNewer(v[level], level == 0, seed, in0, h, f);
    }
    forall g | g in v[level + 1] && g !in in1 ensures Clear(g, in0, in1) {
      NotOverlappingIsClear(v[level + 1], in0, in1, smallest, largest, g);
    }
  }

  lemma NotOverlappingIsClear(next: Level, in0: seq<File>, in1: seq<File>,
                              smallest: InternalKey, largest: InternalKey, g: File)
    requires Apart(next)
    requires IsSmallestKey(in0, smallest) && IsLargestKey(in0, largest)
    requires in1 == Overlapping(next, Some(smallest.user), Some(largest.user))
    requires g in next && g !in in1
    ensures Clear(g, in0, in1)
  {
    OverlappingMembers(next, Some(smallest.user), Some(largest.user));
    Bounds(g, g.entries[0]);
    if Largest(g).user < smallest.user {
      forall f | f in in1 ensures Before(g, f) {
        if Before(f, g) { NotBeforeBoth(f, g); }
      }
    } else {
      forall f | f in in1 ensures Before(f, g) {
        if Before(g, f) { NotBeforeBoth(g, f); }
      }
    }
  }

  lemma CoveredIsFilled(level: Level, in0: seq<File>, in1: seq<File>, start: InternalKey, limit: InternalKey)
    requires Subset(in0, level) && Covered(in0 + in1)
    requires IsSmallestKey(in0 + in1, start) && IsLargestKey(in0 + in1, limit)
    ensures Filled(level + in1, Some(start.user), Some(limit.user))
  {
    forall x: UserKey | start.user <= x <= limit.user ensures InSome(level + in1, x) {
      assert Reaches(in0 + in1, x);
      assert InSome(in0 + in1, x);
      var f :| f in in0 + in1 && Overlaps(f, Some(x), Some(x));
      assert f in level + in1;
    }
  }

  /** Over level 0 the widened selection, with the next level's inputs, is still without gaps. */
  lemma FilledIsCovered(level: Level, in1: seq<File>, start: InternalKey, limit: InternalKey,
                        lo: Option<UserKey>, hi: Option<UserKey>)
    requires Filled(level + in1, lo, hi) && Closed(level, lo, hi)
    requires Wider(lo, hi, Some(start.user), Some(limit.user))
    requires forall f :: f in in1 ==> Inside(f, Some(start.user), Some(limit.user))
    ensures Covered(Overlapping(level, lo, hi) + in1)
  {
    OverlappingMembers(level, lo, hi);
    var files := Overlapping(level, lo, hi) + in1;
    forall x: UserKey | Reaches(files, x) ensures InSome(files, x) {
      assert lo.value <= x <= hi.value by {
        forall f | f in files ensures lo.value <= Smallest(f).user && Largest(f).user <= hi.value {
          if f in level { assert Overlaps(f, lo, hi); }
        }
      }
      assert InSome(level + in1, x);
      var f :| f in level + in1 && Overlaps(f, Some(x), Some(x));
      assert f in level ==> Overlaps(f, lo, hi);
      assert f in files;
    }
  }

  /** Over the other levels the files meeting the covered stretch extend it. */
  lemma OverlappingIsCovered(level: Level, in0: seq<File>, in1: seq<File>, start: InternalKey, limit: InternalKey)
    requires Subset(in0, level) && Covered(in0 + in1)
    requires IsSmallestKey(in0 + in1, start) && IsLargestKey(in0 + in1, limit)
    ensures Covered(Overlapping(level, Some(start.user), Some(limit.user)) + in1)
  {
    OverlappingMembers(level, Some(start.user), Some(limit.user));
    var more := Overlapping(level, Some(start.user), Some(limit.user));
    var first :| first in in0 + in1 && Smallest(first) == start;
    var last :| last in in0 + in1 && Largest(last) == limit;
    CoveredGrow(in0 + in1, more);
    InsideOwnRange(in0 + in1, start, limit);
    CoveredMembers(in0 + in1 + more, more + in1);
  }

  lemma InsideOwnRange(files: seq<File>, start: InternalKey, limit: InternalKey)
    requires IsSmallestKey(files, start) && IsLargestKey(files, limit)
    ensures forall f :: f in files ==> Inside(f, Some(start.user), Some(limit.user))
    ensures forall f :: f in files ==> Overlaps(f, Some(start.user), Some(limit.user))
  {
    forall f | f in files ensures Smallest(f).user <= Largest(f).user { Bounds(f, f.entries[0]); }
  }

  /** The files of the next level that meet a selection leave it without gaps. */
  lemma NextLevelCovered(in0: seq<File>, in1: seq<File>, next: Level, smallest: InternalKey, largest: InternalKey)
    requires Covered(in0 + in1) && IsSmallestKey(in0, smallest) && IsLargestKey(in0, largest)
    requires forall f :: f in in1 ==> f in Overlapping(next, Some(smallest.user), Some(largest.user))
    ensures Covered(in0 + Overlapping(next, Some(smallest.user), Some(largest.user)))
  {
    OverlappingMembers(next, Some(smallest.user), Some(largest.user));
    var more := Overlapping(next, Some(smallest.user), Some(largest.user));
    var first :| first in in0 && Smallest(first) == smallest;
    var last :| last in in0 && Largest(last) == largest;
    assert first in in0 + in1 && last in in0 + in1;
    CoveredGrow(in0 + in1, more);
    CoveredMembers(in0 + in1 + more, in0 + more);
  }

  /** Files of a level selected by range may seed a compaction. */
  lemma OverlappingIsSeed(level: Level, level0: bool, lo: Option<UserKey>, hi: Option<UserKey>)
    requires Ordered(level) && (level0 ==> Closed(level, lo, hi)) && Overlapping(level, lo, hi) != []
    ensures Seed(level, level0, Overlapping(level, lo, hi))
  {
    OverlappingMembers(level, lo, hi);
    OverlappingDistinct(level, lo, hi);
    OverlappingContiguous(level, lo, hi);
  }

  /** The wider selection still covers, given that the one before did. */
  lemma ExpandCovered(v: Version, level: nat, in0: seq<File>, in1: seq<File>, start: InternalKey, limit: InternalKey,
                      seed: seq<File>, lo: Option<UserKey>, hi: Option<UserKey>, e0: seq<File>)
    requires level + 1 < |v| && Subset(in0, v[level]) && Covered(in0 + in1)
    requires IsSmallestKey(in0 + in1, start) && IsLargestKey(in0 + in1, limit)
    requires seed == Overlapping(v[level], lo, hi) && Chain(v[level], seed, e0)
    requires level > 0 ==> lo == Some(start.user) && hi == Some(limit.user)
    requires level == 0 ==> LeastClosed(v[level], Some(start.user), Some(limit.user), lo, hi)
    requires level == 0 && Filled(v[level] + in1, Some(start.user), Some(limit.user)) ==> Filled(v[level] + in1, lo, hi)
    ensures Covered(e0 + in1)
  {
    if level == 0 {
      CoveredIsFilled(v[level], in0, in1, start, limit);
      InsideOwnRange(in0 + in1, start, limit);
      FilledIsCovered(v[level], in1, start, limit, lo, hi);
    } else {
      OverlappingIsCovered(v[level], in0, in1, start, limit);
    }
    ChainCovered(v[level], seed, e0, in1);
  }

  lemma WiderRange(in0: seq<File>, e0: seq<File>, smallest: InternalKey, largest: InternalKey,
                   start: InternalKey, limit: InternalKey)
    requires Subset(in0, e0) && IsSmallestKey(in0, smallest) && IsLargestKey(in0, largest)
    requires IsSmallestKey(e0, start) && IsLargestKey(e0, limit)
    ensures start.user <= smallest.user && largest.user <= limit.user
  {
    var f :| f in in0 && Smallest(f) == smallest;
    var g :| g in in0 && Largest(g) == largest;
  }

  lemma ExpandSeed(level: Level, level0: bool, in0: seq<File>, in1: seq<File>, start: InternalKey, limit: InternalKey,
                   lo: Option<UserKey>, hi: Option<UserKey>)
    requires Ordered(level) && in0 != [] && Subset(in0, level)
    requires IsSmallestKey(in0 + in1, start) && IsLargestKey(in0 + in1, limit)
    requires Wider(lo, hi, Some(start.user), Some(limit.user)) && (level0 ==> Closed(level, lo, hi))
    ensures Seed(level, level0, Overlapping(level, lo, hi)) && Subset(in0, Overlapping(level, lo, hi))
  {
    OverlappingMembers(level, lo, hi);
    InsideOwnRange(in0 + in1, start, limit);
    forall f | f in in0 ensures f in Overlapping(level, lo, hi) {
      assert f in in0 + in1;
      assert f in level && Overlaps(f, lo, hi);
    }
    assert in0[0] in Overlapping(level, lo, hi);
    OverlappingIsSeed(level, level0, lo, hi);
  }

  lemma SubsetPrefix(in0: seq<File>, seed: seq<File>, e0: seq<File>)
    requires Subset(in0, seed) && seed <= e0
    ensures Subset(in0, e0)
  {
    assert seed == e0[..|seed|];
    forall f | f in in0 ensures f in e0 { assert f in seed; }
  }

  lemma ExpandNext(next: Level, in0: seq<File>, in1: seq<File>, smallest: InternalKey, largest: InternalKey,
                   e0: seq<File>, start: InternalKey, limit: InternalKey)
    requires Subset(in0, e0) && IsSmallestKey(in0, smallest) && IsLargestKey(in0, largest)
    requires IsSmallestKey(e0, start) && IsLargestKey(e0, limit)
    requires in1 == Overlapping(next, Some(smallest.user), Some(largest.user)) && Covered(e0 + in1)
    ensures Covered(e0 + Overlapping(next, Some(start.user), Some(limit.user)))
  {
    OverlappingMembers(next, Some(smallest.user), Some(largest.user));
    OverlappingMembers(next, Some(start.user), Some(limit.user));
    WiderRange(in0, e0, smallest, largest, start, limit);
    forall f | f in in1 ensures f in Overlapping(next, Some(start.user), Some(limit.user)) {
      assert f in next && Overlaps(f, Some(start.user), Some(limit.user));
    }
    NextLevelCovered(e0, in1, next, start, limit);
  }

  lemma IsWidened(v: Version, level: nat, all: seq<File>, start: InternalKey, limit: InternalKey,
                  lo: Option<UserKey>, hi: Option<UserKey>, seed: seq<File>, files: seq<File>)
    requires level < |v| && IsSmallestKey(all, start) && IsLargestKey(all, limit)
    requires SelectedBy(v[level], level == 0, Some(start.user), Some(limit.user), lo, hi, seed)
    requires Chain(v[level], seed, files) && BoundaryClosed(v[level], files)
    ensures Widened(v, level, all, files)
  {
    assert RangeOf(v, level, all, seed);
  }

  /** The inputs of the level over the range of all the inputs. */
  method Widen(v: Version, level: nat, in0: seq<File>, in1: seq<File>) returns (e0: seq<File>, ghost seed: seq<File>)
    requires VersionOk(v) && level + 1 < |v| && in0 != [] && Subset(in0, v[level])
    ensures Widened(v, level, in0 + in1, e0) && Subset(in0, e0)
    ensures Seed(v[level], level == 0, seed) && Chain(v[level], seed, e0) && BoundaryClosed(v[level], e0)
    ensures Covered(in0 + in1) ==> Covered(e0 + in1)
  {
    var start, limit := GetRange(in0 + in1);
    ghost var lo, hi;
    e0, lo, hi := GetOverlappingInputs(v[level], level == 0, Some(start.user), Some(limit.user), in1);
    seed := e0;
    ExpandSeed(v[level], level == 0, in0, in1, start, limit, lo, hi);
    e0 := AddBoundaryInputs(v[level], e0);
    ChainFacts(v[level], seed, e0);
    IsWidened(v, level, in0 + in1, start, limit, lo, hi, seed, e0);
    SubsetPrefix(in0, seed, e0);
    if Covered(in0 + in1) {
      ExpandCovered(v, level, in0, in1, start, limit, seed, lo, hi, e0);
    }
  }

  /** Tries to grow the level's inputs without changing the number of next-level inputs. */
  method Expand(v: Version, level: nat, in0: seq<File>, in1: seq<File>,
                smallest: InternalKey, largest: InternalKey, byteLimit: nat)
    returns (r0: seq<File>, r1: seq<File>)
    requires VersionOk(v) && Functional(Contents(v)) && GoodPick(v, level, in0, in1)
    requires IsSmallestKey(in0, smallest) && IsLargestKey(in0, largest)
    requires in1 == Overlapping(v[level + 1], Some(smallest.user), Some(largest.user))
    ensures GoodPick(v, level, r0, r1) && Subset(in0, r0)
    ensures Covered(in0 + in1) ==> Covered(r0 + r1)
    ensures Expanded(v, level, in0, in1, byteLimit, r0, r1) && NextInputs(v[level + 1], r0, r1)
    ensures (r0 == in0 && r1 == in1) || (|r0| > |in0| && |r1| == |in1| && TotalFileSize(in1) + TotalFileSize(r0) < byteLimit)
  {
    r0, r1 := in0, in1;
    var e0, seed := Widen(v, level, in0, in1);
    ghost var next := NextOf(v[level + 1], e0);
    if |e0| > |in0| && TotalFileSize(in1) + TotalFileSize(e0) < byteLimit {
      var newStart, newLimit := GetRange(e0);
      ghost var lo, hi;
      var e1;
      e1, lo, hi := GetOverlappingInputs(v[level + 1], false, Some(newStart.user), Some(newLimit.user), []);
      NextInputsUnique(v[level + 1], e0, next, e1);
      if |e1| == |in1| {
        OverlapIsGoodPick(v, level, seed, e0, e1, newStart, newLimit);
        if Covered(in0 + in1) {
          ExpandNext(v[level + 1], in0, in1, smallest, largest, e0, newStart, newLimit);
        }
        r0, r1 := e0, e1;
      }
    }
    assert NextInputs(v[level + 1], e0, next);
  }

  /** The next level's files in the range of the chosen ones. */
  lemma NextOf(next: Level, in0: seq<File>) returns (in1: seq<File>)
    requires in0 != []
    ensures NextInputs(next, in0, in1)
  {
    var top := TopFile(in0);
    var bottom := BottomFile(in0);
    in1 := Overlapping(next, Some(Smallest(bottom).user), Some(Largest(top).user));
  }

  lemma {:induction false} BottomFile(files: seq<File>) returns (bottom: File)
    requires files != []
    ensures bottom in files && IsSmallestKey(files, Smallest(bottom))
  {
    bottom := files[0];
    if |files| > 1 {
      var rest := BottomFile(files[1..]);
      assert files == [files[0]] + files[1..];
      if Less(Smallest(rest), Smallest(bottom)) {
        bottom := rest;
      }
    }
  }

  lemma NextInputsUnique(next: Level, in0: seq<File>, in1: seq<File>, in1': seq<File>)
    requires NextInputs(next, in0, in1) && NextInputs(next, in0, in1')
    ensures in1 == in1'
  {
    forall s, s' | IsSmallestKey(in0, s) && IsSmallestKey(in0, s') ensures s == s' {
    }
    forall l, l' | IsLargestKey(in0, l) && IsLargestKey(in0, l') ensures l == l' {
    }
  }

  lemma SetupCovered(level: Level, next: Level, seed: seq<File>, in0: seq<File>,
                     smallest: InternalKey, largest: InternalKey)
    requires Chain(level, seed, in0) && Covered(seed)
    requires IsSmallestKey(in0, smallest) && IsLargestKey(in0, largest)
    ensures Covered(in0 + Overlapping(next, Some(smallest.user), Some(largest.user)))
  {
    assert seed + [] == seed && in0 + [] == in0;
    ChainCovered(level, seed, in0, []);
    NextLevelCovered(in0, [], next, smallest, largest);
  }

  /** From a seed in one level to the inputs of both levels, the files two levels down that they
      meet, and the next compaction pointer. */
  method SetupOtherInputs(v: Version, level: nat, seed: seq<File>, byteLimit: nat)
    returns (in0: seq<File>, in1: seq<File>, grandparents: seq<File>, pointer: InternalKey)
    requires VersionOk(v) && Functional(Contents(v)) && level + 1 < NUM_LEVELS
    requires Seed(v[level], level == 0, seed)
    ensures SetUp(v, level, seed, byteLimit, in0, in1) && Grandparents(v, level, in0 + in1, grandparents)
    ensures GoodPick(v, level, in0, in1) && Subset(seed, in0) && IsLargestKey(in0, pointer)
    ensures NextInputs(v[level + 1], in0, in1)
    ensures Covered(seed) ==> Covered(in0 + in1)
  {
    in0, in1, pointer := SetupBothInputs(v, level, seed, byteLimit);
    grandparents := [];
    if level + 2 < NUM_LEVELS {
      var start, limit := GetRange(in0 + in1);
      ghost var lo, hi;
      grandparents, lo, hi := GetOverlappingInputs(v[level + 2], false, Some(start.user), Some(limit.user), []);
    }
  }

  /** The inputs before the attempt to widen them. */
  method FirstInputs(v: Version, level: nat, seed: seq<File>)
    returns (in0: seq<File>, in1: seq<File>, smallest: InternalKey, largest: InternalKey)
    requires VersionOk(v) && Functional(Contents(v)) && level + 1 < NUM_LEVELS
    requires Seed(v[level], level == 0, seed)
    ensures Chain(v[level], seed, in0) && BoundaryClosed(v[level], in0) && Subset(seed, in0)
    ensures IsSmallestKey(in0, smallest) && IsLargestKey(in0, largest)
    ensures in1 == Overlapping(v[level + 1], Some(smallest.user), Some(largest.user))
    ensures GoodPick(v, level, in0, in1)
    ensures Covered(seed) ==> Covered(in0 + in1)
  {
    in0 := AddBoundaryInputs(v[level], seed);
    ChainFacts(v[level], seed, in0);
    SubsetPrefix(seed, seed, in0);
    smallest, largest := GetRange(in0);
    ghost var lo, hi;
    in1, lo, hi := GetOverlappingInputs(v[level + 1], false, Some(smallest.user), Some(largest.user), []);
    OverlapIsGoodPick(v, level, seed, in0, in1, smallest, largest);
    if Covered(seed) {
      SetupCovered(v[level], v[level + 1], seed, in0, smallest, largest);
    }
  }

  method SetupBothInputs(v: Version, level: nat, seed: seq<File>, byteLimit: nat)
    returns (in0: seq<File>, in1: seq<File>, pointer: InternalKey)
    requires VersionOk(v) && Functional(Contents(v)) && level + 1 < NUM_LEVELS
    requires Seed(v[level], level == 0, seed)
    ensures SetUp(v, level, seed, byteLimit, in0, in1)
    ensures GoodPick(v, level, in0, in1) && Subset(seed, in0) && IsLargestKey(in0, pointer)
    ensures NextInputs(v[level + 1], in0, in1)
    ensures Covered(seed) ==> Covered(in0 + in1)
  {
    var smallest, largest;
    in0, in1, smallest, largest := FirstInputs(v, level, seed);
    assert NextInputs(v[level + 1], in0, in1);
    if in1 != [] {
      in0, in1 := Expand(v, level, in0, in1, smallest, largest, byteLimit);
    }
    pointer := FindLargestKey(in0);
  }

  lemma SingleContiguous(level: Level, f: File)
    ensures Contiguous(level, [f])
  {
    forall h | h in level && Before(f, h) ensures !Before(h, f) { NotBeforeBoth(f, h); }
  }

  lemma SingleCovered(f: File)
    ensures Covered([f])
  {
    forall x: UserKey | Reaches([f], x) ensures InSome([f], x) {
      assert f in [f] && Overlaps(f, Some(x), Some(x));
    }
  }

  /** The picked file, together with all the level-0 files its range drags in. */
  method SeedFrom(level: Level, level0: bool, f: File) returns (seed: seq<File>)
    requires Ordered(level) && f in level
    ensures if level0 then Selected(level, true, Some(Smallest(f).user), Some(Largest(f).user), seed) else seed == [f]
    ensures Seed(level, level0, seed) && f in seed && Covered(seed)
  {
    seed := [f];
    if level0 {
      var lo, hi := Some(Smallest(f).user), Some(Largest(f).user);
      ghost var x, y;
      seed, x, y := GetOverlappingInputs(level, true, lo, hi, []);
      SeedFromLevel0(level, f, x, y);
      assert SelectedBy(level, true, lo, hi, x, y, seed);
    } else {
      SingleCovered(f);
      SingleContiguous(level, f);
    }
  }

  lemma SeedFromLevel0(level: Level, f: File, x: Option<UserKey>, y: Option<UserKey>)
    requires Ordered(level) && f in level
    requires LeastClosed(level, Some(Smallest(f).user), Some(Largest(f).user), x, y)
    requires Filled(level + [], Some(Smallest(f).user), Some(Largest(f).user)) ==> Filled(level + [], x, y)
    ensures Seed(level, true, Overlapping(level, x, y)) && f in Overlapping(level, x, y)
    ensures Covered(Overlapping(level, x, y))
  {
    Bounds(f, f.entries[0]);
    assert f in Overlapping(level, x, y) by {
      OverlappingMembers(level, x, y);
      assert Overlaps(f, x, y);
    }
    OverlappingIsSeed(level, true, x, y);
    OwnRangeFilled(level + [], f);
    assert Covered(Overlapping(level, x, y) + []) by {
      FilledIsCovered(level, [], Smallest(f), Largest(f), x, y);
    }
    assert Overlapping(level, x, y) + [] == Overlapping(level, x, y);
  }

  lemma OwnRangeFilled(files: seq<File>, f: File)
    requires f in files
    ensures Filled(files, Some(Smallest(f).user), Some(Largest(f).user))
  {
    forall k: UserKey | Smallest(f).user <= k <= Largest(f).user ensures InSome(files, k) {
      assert Overlaps(f, Some(k), Some(k));
    }
  }

  /** The first file that ends after the compaction pointer, or the first of all if there is none. */
  ghost predicate IsNext(files: Level, pointer: Option<InternalKey>, f: File) {
    && files != []
    && if pointer.None? then f == files[0]
       else
         || (exists i :: 0 <= i < |files| && files[i] == f && Less(pointer.value, Largest(f))
               && forall j :: 0 <= j < i ==> !Less(pointer.value, Largest(files[j])))
         || (f == files[0] && forall j :: 0 <= j < |files| ==> !Less(pointer.value, Largest(files[j])))
  }

  method NextFile(files: Level, pointer: Option<InternalKey>) returns (f: File)
    requires files != []
    ensures f in files && IsNext(files, pointer, f)
  {
    for i := 0 to |files|
      invariant forall j :: 0 <= j < i ==> pointer.Some? && !Less(pointer.value, Largest(files[j]))
    {
      if pointer.None? || Less(pointer.value, Largest(files[i])) {
        return files[i];
      }
    }
    f := files[0];
  }

  /** What PickCompaction makes of the file it starts from. */
  ghost predicate PickedFrom(v: Version, level: nat, f: File, byteLimit: nat, in0: seq<File>, in1: seq<File>)
    requires level + 1 < |v|
  {
    exists seed {:trigger SetUp(v, level, seed, byteLimit, in0, in1)} ::
      && (if level == 0 then Selected(v[0], true, Some(Smallest(f).user), Some(Largest(f).user), seed) else seed == [f])
      && SetUp(v, level, seed, byteLimit, in0, in1)
  }

  /** The part of PickCompaction that follows the choice of a level: the file after the compaction
      pointer, wrapping around, or the file charged with too many seeks. The inputs it ends with
      have no gap. */
  method PickInputs(v: Version, level: nat, pointer: Option<InternalKey>, charged: Option<File>, byteLimit: nat)
    returns (in0: seq<File>, in1: seq<File>, grandparents: seq<File>, next: InternalKey)
    requires VersionOk(v) && Functional(Contents(v)) && level + 1 < NUM_LEVELS
    requires if charged.Some? then charged.value in v[level] else v[level] != []
    ensures GoodPick(v, level, in0, in1) && IsLargestKey(in0, next)
    ensures Covered(in0 + in1) && Grandparents(v, level, in0 + in1, grandparents)
    ensures exists f :: && f in in0 && (if charged.Some? then f == charged.value else IsNext(v[level], pointer, f))
                        && PickedFrom(v, level, f, byteLimit, in0, in1)
  {
    var f: File;
    if charged.Some? {
      f := charged.value;
    } else {
      f := NextFile(v[level], pointer);
    }
    var seed := SeedFrom(v[level], level == 0, f);
    in0, in1, grandparents, next := SetupOtherInputs(v, level, seed, byteLimit);
    assert f in in0;
    assert PickedFrom(v, level, f, byteLimit, in0, in1);
  }

  lemma PrefixIsSeed(level: Level, files: seq<File>, n: nat)
    requires Ordered(files) && Apart(level) && Seed(level, false, files) && 0 < n <= |files|
    ensures Seed(level, false, files[..n])
  {
    forall f, g, h | f in files[..n] && g in files[..n] && h in level && Before(f, h) && Before(h, g)
      ensures h in files[..n]
    {
      assert h in files;
      var i :| 0 <= i < |files| && files[i] == h;
      var j :| 0 <= j < n && files[j] == g;
      NotBeforeBoth(h, g);
      assert i < j ==> BySmallest(files[i], files[j]);
      assert j < i ==> BySmallest(files[j], files[i]);
      assert i < n ==> files[..n][i] == h;
    }
    assert Subset(files[..n], level) by { forall f | f in files[..n] ensures f in level { assert f in files; } }
  }

  lemma RangeMissesAll(level: Level, level0: bool, begin: Option<UserKey>, end: Option<UserKey>,
                       lo: Option<UserKey>, hi: Option<UserKey>)
    requires if level0 then LeastClosed(level, begin, end, lo, hi) else lo == begin && hi == end
    ensures Overlapping(level, lo, hi) == [] <==> forall f :: f in level ==> !Overlaps(f, begin, end)
  {
    OverlappingMembers(level, lo, hi);
    var r := Overlapping(level, lo, hi);
    if f :| f in level && Overlaps(f, begin, end) {
      assert Overlaps(f, lo, hi);
      assert f in r;
    } else if r != [] {
      var f := r[0];
      assert f in r;
      assert Closed(level, begin, end);
      assert Wider(begin, end, begin, end);
    }
  }

  /** The first `n` files are as many as it takes to reach the limit, or all of them. */
  ghost predicate UpToLimit(files: seq<File>, n: nat, limit: nat) {
    && 0 < n <= |files|
    && (n < |files| ==> TotalFileSize(files[..n]) >= limit)
    && forall m :: 0 < m < n ==> TotalFileSize(files[..m]) < limit
  }

  method CutAtLimit(files: seq<File>, limit: nat) returns (n: nat)
    requires files != []
    ensures UpToLimit(files, n, limit)
  {
    var total := 0;
    n := 0;
    while n < |files|
      invariant 0 <= n <= |files| && total == TotalFileSize(files[..n])
      invariant forall m :: 0 < m <= n ==> TotalFileSize(files[..m]) < limit
    {
      assert files[..n + 1][..n] == files[..n];
      total := total + files[n].size;
      n := n + 1;
      if total >= limit {
        return;
      }
    }
  }

  /** The files in the range: over level 0 all of them, elsewhere the first ones up to the limit. */
  ghost predicate CutFrom(v: Version, level: nat, begin: Option<UserKey>, end: Option<UserKey>, maxBytes: nat, seed: seq<File>)
    requires level < |v|
  {
    exists files :: SelectedAt(v, level, begin, end, files) && Cut(level == 0, files, maxBytes, seed)
  }

  ghost predicate SelectedAt(v: Version, level: nat, begin: Option<UserKey>, end: Option<UserKey>, files: seq<File>)
    requires level < |v|
  {
    Selected(v[level], level == 0, begin, end, files) && files != []
  }

  ghost predicate Cut(all: bool, files: seq<File>, maxBytes: nat, seed: seq<File>) {
    if all then seed == files else exists n: nat :: UpToLimit(files, n, maxBytes) && seed == files[..n]
  }

  /** What CompactRange makes of a range. */
  ghost predicate RangePick(v: Version, level: nat, begin: Option<UserKey>, end: Option<UserKey>,
                            maxBytes: nat, byteLimit: nat, in0: seq<File>, in1: seq<File>)
    requires level + 1 < |v|
  {
    exists seed :: CutFrom(v, level, begin, end, maxBytes, seed) && SetUp(v, level, seed, byteLimit, in0, in1)
  }

  /** The files a manual compaction starts from, none if nothing meets the range. */
  method RangeSeed(v: Version, level: nat, begin: Option<UserKey>, end: Option<UserKey>, maxBytes: nat)
    returns (seed: seq<File>)
    requires VersionOk(v) && level < NUM_LEVELS
    ensures seed == [] <==> forall f :: f in v[level] ==> !Overlaps(f, begin, end)
    ensures seed != [] ==> Seed(v[level], level == 0, seed) && CutFrom(v, level, begin, end, maxBytes, seed)
  {
    ghost var lo, hi;
    seed, lo, hi := GetOverlappingInputs(v[level], level == 0, begin, end, []);
    RangeMissesAll(v[level], level == 0, begin, end, lo, hi);
    if seed == [] {
      return;
    }
    OverlappingIsSeed(v[level], level == 0, lo, hi);
    assert SelectedBy(v[level], level == 0, begin, end, lo, hi, seed);
    assert SelectedAt(v, level, begin, end, seed);
    if level > 0 {
      OverlappingOrdered(v[level], lo, hi);
      var n := CutAtLimit(seed, maxBytes);
      PrefixIsSeed(v[level], seed, n);
      seed := seed[..n];
    }
  }

  /** CompactRange: the files of a level over a manual range, cut off once they are large. */
  method CompactRange(v: Version, level: nat, begin: Option<UserKey>, end: Option<UserKey>, maxBytes: nat, byteLimit: nat)
    returns (in0: seq<File>, in1: seq<File>, grandparents: seq<File>)
    requires VersionOk(v) && Functional(Contents(v)) && level + 1 < NUM_LEVELS
    ensures in0 == [] <==> forall f :: f in v[level] ==> !Overlaps(f, begin, end)
    ensures in0 != [] ==> GoodPick(v, level, in0, in1) && Grandparents(v, level, in0 + in1, grandparents)
    ensures in0 != [] ==> RangePick(v, level, begin, end, maxBytes, byteLimit, in0, in1)
  {
    var seed := RangeSeed(v, level, begin, end, maxBytes);
    if seed == [] {
      return [], [], [];
    }
    var pointer;
    in0, in1, grandparents, pointer := SetupOtherInputs(v, level, seed, byteLimit);
  }
}
