/** Two states that satisfy the level invariant and in which a compaction goes wrong. In both, every
    result of the code's own selection is shown to be the bad one; they are why the engine's steps
    carry side conditions. */
module Hazards {
  import opened DbFormat
  import opened Mvcc
  import opened Version
  import opened Picking
  import opened Compaction
  import opened Edits

  function E(user: UserKey, num: nat, kind: Kind, value: Value): Entry {
    Entry(InternalKey(user, num, kind), value)
  }

  function One(number: nat, e: Entry): (f: File)
    requires e.ik.num <= MAX_SEQUENCE
    ensures f.number == number && f.entries == [e] && Smallest(f) == Largest(f) == e.ik
  {
    FileData(number, 1, [e])
  }

  function Two(number: nat, d: Entry, e: Entry): (f: File)
    requires d.ik.num <= MAX_SEQUENCE && e.ik.num <= MAX_SEQUENCE && Less(d.ik, e.ik)
    ensures f.number == number && f.entries == [d, e] && Smallest(f) == d.ik && Largest(f) == e.ik
  {
    FileData(number, 1, [d, e])
  }

  // ---------- a deletion marker dropped although an older value stays behind ----------

  const newest := E(0.0, 7, Put, "b")
  const older := E(0.0, 3, Put, "a")
  const marker := E(1.0, 4, Deletion, "")
  const buried := E(1.0, 2, Put, "old")

  function Upper(): File { One(13, newest) }
  function Picked(): File { Two(12, older, marker) }
  function Unpicked(): File { One(11, buried) }

  /** Key 1.0 straddles two files of level 2; the file in level 1 meets only the first of them. */
  function Straddling(): Version {
    [[], [Upper()], [Picked(), Unpicked()], [], [], [], []]
  }

  lemma StraddlingFiles(l: nat, f: File)
    requires l < 7 && f in Straddling()[l]
    ensures (l == 1 && f == Upper()) || (l == 2 && (f == Picked() || f == Unpicked()))
  {
  }

  lemma StraddlingShape()
    ensures forall l :: 0 <= l < 7 ==> Ordered(Straddling()[l]) && Apart(Straddling()[l])
    ensures Recent(Straddling()[0]) && Numbered(Straddling())
  {
    var v := Straddling();
    assert Before(Picked(), Unpicked());
    forall l | 0 <= l < 7 ensures Ordered(v[l]) && Apart(v[l]) {
      forall i, j | 0 <= i < j < |v[l]| ensures BySmallest(v[l][i], v[l][j]) {
        StraddlingFiles(l, v[l][i]);
      }
      forall f, g | f in v[l] && g in v[l] && f != g ensures Before(f, g) || Before(g, f) {
        StraddlingFiles(l, f);
        StraddlingFiles(l, g);
      }
    }
    forall l, m, f, g | 0 <= l < 7 && 0 <= m < 7 && f in v[l] && g in v[m] && SameNumber(f, g) ensures l == m && f == g {
      StraddlingFiles(l, f);
      StraddlingFiles(m, g);
    }
  }

  lemma StraddlingOk()
    ensures VersionOk(Straddling())
  {
    var v := Straddling();
    StraddlingShape();
    forall l, m, f, g | 0 <= l < m < 7 && f in v[l] && g in v[m] ensures NewerThan(f, g) {
      StraddlingFiles(l, f);
      StraddlingFiles(m, g);
    }
  }

  lemma StraddlingContents(e: Entry)
    requires e in Contents(Straddling())
    ensures e == newest || e == older || e == marker || e == buried
  {
    var l, f := WhereIs(Straddling(), e);
    StraddlingFiles(l, f);
  }

  lemma StraddlingPick()
    ensures Overlapping(Straddling()[2], Some(0.0), Some(0.0)) == [Picked()]
    ensures GoodPick(Straddling(), 1, [Upper()], [Picked()])
  {
    var level := Straddling()[2];
    assert level[..1] == [Picked()] && [Picked()][..0] == [];
    assert Overlapping([Picked()], Some(0.0), Some(0.0)) == [Picked()];
    assert Clear(Unpicked(), [Upper()], [Picked()]);
  }

  lemma OneIsBoundaryClosed(f: File)
    ensures BoundaryClosed([f], [f])
  {
    Bounds(f, f.entries[0]);
  }

  lemma UpperAlone(a0: seq<File>)
    requires Chain(Straddling()[1], [Upper()], a0)
    ensures a0 == [Upper()]
  {
    OneIsBoundaryClosed(Upper());
    ChainClosed(Straddling()[1], [Upper()], a0);
  }

  lemma RangeOfOne(f: File, smallest: InternalKey, largest: InternalKey)
    requires IsSmallestKey([f], smallest) && IsLargestKey([f], largest)
    ensures smallest == Smallest(f) && largest == Largest(f)
  {
  }

  lemma OverlappingOne(f: File, lo: Option<UserKey>, hi: Option<UserKey>)
    ensures Overlapping([f], lo, hi) == if Overlaps(f, lo, hi) then [f] else []
  {
    assert [f][..0] == [];
    assert Overlapping([], lo, hi) == [];
  }

  lemma StraddlingRange(all: seq<File>, seed: seq<File>)
    requires RangeOf(Straddling(), 1, all, seed)
    ensures seed == [] || seed == [Upper()]
  {
    var start, limit :| IsSmallestKey(all, start) && IsLargestKey(all, limit)
      && Selected(Straddling()[1], false, Some(start.user), Some(limit.user), seed);
    OverlappingOne(Upper(), Some(start.user), Some(limit.user));
  }

  /** Level 1 has no other file, so nothing can widen the inputs. */
  lemma StraddlingNotWidened(all: seq<File>, e0: seq<File>)
    requires Widened(Straddling(), 1, all, e0)
    ensures |e0| <= 1
  {
    var seed :| RangeOf(Straddling(), 1, all, seed) && Chain(Straddling()[1], seed, e0);
    StraddlingRange(all, seed);
    if seed == [] { ChainClosed(Straddling()[1], [], e0); } else { UpperAlone(e0); }
  }

  lemma StraddlingFirst(a0: seq<File>, a1: seq<File>)
    requires Chain(Straddling()[1], [Upper()], a0) && NextInputs(Straddling()[2], a0, a1)
    ensures a0 == [Upper()] && a1 == [Picked()]
  {
    UpperAlone(a0);
    var smallest, largest :| IsSmallestKey(a0, smallest) && IsLargestKey(a0, largest)
      && a1 == Overlapping(Straddling()[2], Some(smallest.user), Some(largest.user));
    RangeOfOne(Upper(), smallest, largest);
    StraddlingPick();
  }

  lemma StraddlingNotGrown(a1: seq<File>, byteLimit: nat, in0: seq<File>, in1: seq<File>)
    requires Expanded(Straddling(), 1, [Upper()], a1, byteLimit, in0, in1)
    ensures in0 == [Upper()] && in1 == a1
  {
    var e0, e1 :| Widened(Straddling(), 1, [Upper()] + a1, e0) && NextInputs(Straddling()[2], e0, e1)
      && (if |e0| > |[Upper()]| && TotalFileSize(a1) + TotalFileSize(e0) < byteLimit && |e1| == |a1|
          then in0 == e0 && in1 == e1 else in0 == [Upper()] && in1 == a1);
    StraddlingNotWidened([Upper()] + a1, e0);
  }

  /** Whatever SetupOtherInputs makes of the file in level 1, it is this pair of inputs. */
  lemma StraddlingChosen(byteLimit: nat, in0: seq<File>, in1: seq<File>)
    requires SetUp(Straddling(), 1, [Upper()], byteLimit, in0, in1)
    ensures in0 == [Upper()] && in1 == [Picked()]
  {
    var a0, a1 :| Chain(Straddling()[1], [Upper()], a0) && BoundaryClosed(Straddling()[1], a0)
      && NextInputs(Straddling()[2], a0, a1)
      && (if a1 == [] then in0 == a0 && in1 == [] else Expanded(Straddling(), 1, a0, a1, byteLimit, in0, in1));
    StraddlingFirst(a0, a1);
    StraddlingNotGrown(a1, byteLimit, in0, in1);
  }

  lemma UpperInRange()
    ensures RangeOf(Straddling(), 1, [Upper()] + [Picked()], [Upper()])
  {
    var all := [Upper()] + [Picked()];
    assert Upper() in all && Picked() in all;
    assert IsSmallestKey(all, newest.ik);
    assert IsLargestKey(all, marker.ik);
    OverlappingOne(Upper(), Some(0.0), Some(1.0));
    assert SelectedBy(Straddling()[1], false, Some(0.0), Some(1.0), Some(0.0), Some(1.0), [Upper()]);
  }

  lemma StraddlingWidened()
    ensures Widened(Straddling(), 1, [Upper()] + [Picked()], [Upper()])
  {
    UpperInRange();
    OneIsBoundaryClosed(Upper());
    assert Chain(Straddling()[1], [Upper()], [Upper()]);
  }

  lemma StraddlingSetUp(byteLimit: nat)
    ensures SetUp(Straddling(), 1, [Upper()], byteLimit, [Upper()], [Picked()])
  {
    var v := Straddling();
    StraddlingPick();
    StraddlingWidened();
    assert Upper() in [Upper()] && IsSmallestKey([Upper()], newest.ik) && IsLargestKey([Upper()], newest.ik);
    assert NextInputs(v[2], [Upper()], [Picked()]);
    assert Expanded(v, 1, [Upper()], [Picked()], byteLimit, [Upper()], [Picked()]);
    assert Chain(v[1], [Upper()], [Upper()]) && BoundaryClosed(v[1], [Upper()]);
  }

  lemma StraddlingNotClosed()
    ensures !BoundaryClosed(Straddling()[2], [Picked()])
  {
    assert IsLargestKey([Picked()], marker.ik) by { assert Picked() in [Picked()]; }
    assert IsBoundary(Unpicked(), marker.ik) && Unpicked() in Straddling()[2];
  }

  lemma StraddlingExactly()
    ensures forall byteLimit, in0, in1 :: SetUp(Straddling(), 1, [Upper()], byteLimit, in0, in1)
              <==> in0 == [Upper()] && in1 == [Picked()]
  {
    forall byteLimit, in0, in1
      ensures SetUp(Straddling(), 1, [Upper()], byteLimit, in0, in1) <==> in0 == [Upper()] && in1 == [Picked()]
    {
      StraddlingSetUp(byteLimit);
      if SetUp(Straddling(), 1, [Upper()], byteLimit, in0, in1) { StraddlingChosen(byteLimit, in0, in1); }
    }
  }

  /** SetupOtherInputs never looks for boundary files in the next level, so this compaction drops
      the marker of key 1.0 and its buried value can be read again. */
  lemma CompactionResurrects()
    ensures forall byteLimit, in0, in1 :: SetUp(Straddling(), 1, [Upper()], byteLimit, in0, in1)
              <==> in0 == [Upper()] && in1 == [Picked()]
    ensures var v := Straddling();
      var inputs := InputEntries([Upper()], [Picked()]);
      && VersionOk(v) && GoodPick(v, 1, [Upper()], [Picked()]) && !BoundaryClosed(v[2], [Picked()])
      && Resurrects(Contents(v), inputs, v, 1, 7, 1.0)
      && exists snap :: snap >= 7 && Read(Contents(v), 1.0, snap) != Read(Compacted(Contents(v), inputs, v, 1, 7), 1.0, snap)
  {
    StraddlingOk();
    StraddlingPick();
    StraddlingNotClosed();
    StraddlingResurrects();
    StraddlingExactly();
    var v := Straddling();
    var inputs := InputEntries([Upper()], [Picked()]);
    InputsInContents(v, 1, [Upper()], [Picked()]);
    forall d, e | d in Contents(v) && e in Contents(v) && d.ik.num == e.ik.num ensures d == e {
      StraddlingContents(d);
      StraddlingContents(e);
    }
    ReadsPreservedExactly(Contents(v), inputs, v, 1, 7, 1.0);
  }

  lemma StraddlingResurrects()
    ensures Resurrects(Contents(Straddling()), InputEntries([Upper()], [Picked()]), Straddling(), 1, 7, 1.0)
  {
    var v := Straddling();
    var inputs := InputEntries([Upper()], [Picked()]);
    assert marker in inputs by { assert Picked() in [Picked()] && marker in Picked().entries; }
    assert Picked() in v[2] && marker in Picked().entries;
    Holds(v, 2, Picked(), marker);
    assert Unpicked() in v[2] && buried in Unpicked().entries;
    Holds(v, 2, Unpicked(), buried);
    assert buried !in inputs;
    forall e | e in Contents(v) && e.ik.user == 1.0 ensures e == marker || e == buried {
      StraddlingContents(e);
    }
    assert Newest(Contents(v), 1.0, 7, marker);
    assert forall l :: 3 <= l < |v| ==> v[l] == [];
    assert Obsolete(v, 1, 7, marker);
    assert Newest(Contents(v) - inputs, 1.0, 4, buried);
  }

  // ---------- a table flushed into a gap between manual compaction inputs ----------

  function Left(): File { One(21, E(1.0, 2, Put, "l")) }
  function Right(): File { One(22, E(9.0, 3, Put, "r")) }
  function Deep(): File { One(20, E(5.0, 1, Put, "d")) }
  function Flushed(): File { One(23, E(5.0, 4, Put, "m")) }
  function Merged(): File { Two(24, E(1.0, 2, Put, "l"), E(9.0, 3, Put, "r")) }

  /** Two level-0 files far apart; level 2 keeps a flush of key 5.0 from sinking below level 1. */
  function Gapped(): Version {
    [[Left(), Right()], [], [Deep()], [], [], [], []]
  }

  /** A manual compaction of level 0 takes exactly these two files; a memtable flushed meanwhile goes
      to level 1, between them, and the output then overlaps it there. */
  lemma FlushIntoGap()
    ensures VersionOk(Gapped())
    ensures forall maxBytes, byteLimit, in0, in1 :: RangePick(Gapped(), 0, None, None, maxBytes, byteLimit, in0, in1)
              <==> in0 == [Left(), Right()] && in1 == []
    ensures forall maxGrandparentBytes: nat, level: nat :: maxGrandparentBytes > 0 ==>
              (RestsAt(Gapped(), Flushed(), maxGrandparentBytes, level) <==> level == 1)
    ensures GoodPick(Gapped(), 0, [Left(), Right()], []) && !Covered([Left(), Right()] + [])
    ensures CanPlace(Gapped(), 1, Flushed()) && !Clear(Flushed(), [Left(), Right()], [])
    ensures !Apart(Replace(AddAt(Gapped(), 1, Flushed()), 0, [Left(), Right()], [], [Merged()])[1])
  {
    GappedOk();
    GapPick();
    GapPlace();
    GapNotCovered();
    GapOverlap();
    GapExactly();
    forall maxGrandparentBytes: nat, level: nat | maxGrandparentBytes > 0
      ensures RestsAt(Gapped(), Flushed(), maxGrandparentBytes, level) <==> level == 1
    {
      FlushedRests(maxGrandparentBytes, level);
    }
  }

  lemma GapSeed(maxBytes: nat, seed: seq<File>)
    ensures CutFrom(Gapped(), 0, None, None, maxBytes, seed) <==> seed == [Left(), Right()]
  {
    var level := Gapped()[0];
    BothOverlap();
    if CutFrom(Gapped(), 0, None, None, maxBytes, seed) {
      var files :| SelectedAt(Gapped(), 0, None, None, files) && Cut(true, files, maxBytes, seed);
      var lo, hi :| SelectedBy(level, true, None, None, lo, hi, files);
    } else {
      assert SelectedBy(level, true, None, None, None, None, [Left(), Right()]);
      assert SelectedAt(Gapped(), 0, None, None, [Left(), Right()]);
    }
  }

  lemma BothOverlap()
    ensures Overlapping([Left(), Right()], None, None) == [Left(), Right()]
    ensures Closed([Left(), Right()], None, None)
  {
    assert [Left(), Right()][..1] == [Left()];
    OverlappingOne(Left(), None, None);
  }

  lemma GapSetUp(byteLimit: nat, in0: seq<File>, in1: seq<File>)
    ensures SetUp(Gapped(), 0, [Left(), Right()], byteLimit, in0, in1) <==> in0 == [Left(), Right()] && in1 == []
  {
    var v, both := Gapped(), [Left(), Right()];
    BothOverlap();
    OverlappingMembers(both, None, None);
    ClosedIsBoundaryClosed(both, both, None, None);
    var none := NextOf(v[1], both);
    if SetUp(v, 0, both, byteLimit, in0, in1) {
      var a0, a1 :| Chain(v[0], both, a0) && BoundaryClosed(v[0], a0) && NextInputs(v[1], a0, a1)
        && (if a1 == [] then in0 == a0 && in1 == [] else Expanded(v, 0, a0, a1, byteLimit, in0, in1));
      ChainClosed(both, both, a0);
    } else {
      assert Chain(v[0], both, both);
    }
  }

  lemma GapExactly()
    ensures forall maxBytes, byteLimit, in0, in1 :: RangePick(Gapped(), 0, None, None, maxBytes, byteLimit, in0, in1)
              <==> in0 == [Left(), Right()] && in1 == []
  {
    forall maxBytes, byteLimit, in0, in1
      ensures RangePick(Gapped(), 0, None, None, maxBytes, byteLimit, in0, in1) <==> in0 == [Left(), Right()] && in1 == []
    {
      GapSeed(maxBytes, [Left(), Right()]);
      GapSetUp(byteLimit, in0, in1);
      forall seed | CutFrom(Gapped(), 0, None, None, maxBytes, seed) ensures seed == [Left(), Right()] {
        GapSeed(maxBytes, seed);
      }
    }
  }

  lemma FlushedMeets()
    ensures Collides(Gapped()[2], Flushed()) && !Collides(Gapped()[0], Flushed()) && !Collides(Gapped()[1], Flushed())
    ensures !CanPlace(Gapped(), 2, Flushed())
  {
    assert Deep() in Gapped()[2] && !Separate(Flushed(), Deep());
  }

  lemma FlushedIsLight(maxGrandparentBytes: nat)
    requires maxGrandparentBytes > 0
    ensures !Heavy(Gapped()[2], Flushed(), maxGrandparentBytes)
  {
    OverlappingOne(Deep(), Some(5.0), Some(5.0));
    assert [Deep()][..0] == [];
    assert TotalFileSize([Deep()]) == 1;
  }

  lemma RestsAtOne(v: Version, f: File, maxGrandparentBytes: nat, level: nat)
    requires |v| == NUM_LEVELS && CanPlace(v, 1, f) && !CanPlace(v, 2, f)
    requires !Collides(v[0], f) && !Collides(v[1], f) && Collides(v[2], f) && !Heavy(v[2], f, maxGrandparentBytes)
    ensures RestsAt(v, f, maxGrandparentBytes, level) <==> level == 1
  {
  }

  lemma FlushedRests(maxGrandparentBytes: nat, level: nat)
    requires maxGrandparentBytes > 0
    ensures RestsAt(Gapped(), Flushed(), maxGrandparentBytes, level) <==> level == 1
  {
    FlushedMeets();
    FlushedIsLight(maxGrandparentBytes);
    GapPlace();
    RestsAtOne(Gapped(), Flushed(), maxGrandparentBytes, level);
  }

  lemma GappedFiles(l: nat, f: File)
    requires l < 7 && f in Gapped()[l]
    ensures (l == 0 && (f == Left() || f == Right())) || (l == 2 && f == Deep())
  {
  }

  lemma GappedPair(l: nat, m: nat, f: File, g: File)
    requires l < 7 && m < 7 && f in Gapped()[l] && g in Gapped()[m]
    ensures SameNumber(f, g) ==> l == m && f == g
    ensures f != g && f.number > g.number ==> NewerThan(f, g)
    ensures l < m ==> NewerThan(f, g)
  {
    GappedFiles(l, f);
    GappedFiles(m, g);
  }

  lemma GappedShape()
    ensures forall l :: 0 <= l < 7 ==> Ordered(Gapped()[l])
    ensures forall l :: 1 <= l < 7 ==> Apart(Gapped()[l])
  {
    var v := Gapped();
    assert v[0] == [Left(), Right()] && v[2] == [Deep()];
    assert v[1] == v[3] == v[4] == v[5] == v[6] == [];
    assert BySmallest(Left(), Right());
  }

  lemma GappedOk()
    ensures VersionOk(Gapped())
  {
    var v := Gapped();
    GappedShape();
    assert Recent(v[0]) by {
      forall f: File, g: File | f in v[0] && g in v[0] && f.number > g.number ensures NewerThan(f, g) { GappedPair(0, 0, f, g); }
    }
    assert Numbered(v) by {
      forall l, m, f, g | 0 <= l < |v| && 0 <= m < |v| && f in v[l] && g in v[m] && SameNumber(f, g) ensures l == m && f == g {
        GappedPair(l, m, f, g);
      }
    }
    assert Layered(v) by {
      forall l, m, f, g | 0 <= l < m < |v| && f in v[l] && g in v[m] ensures NewerThan(f, g) { GappedPair(l, m, f, g); }
    }
  }

  lemma GapPick()
    ensures GoodPick(Gapped(), 0, [Left(), Right()], [])
  {
    assert Gapped()[0] == [Left(), Right()] && Gapped()[1] == [];
  }

  lemma GapPlace()
    ensures CanPlace(Gapped(), 1, Flushed()) && !Clear(Flushed(), [Left(), Right()], [])
  {
    assert Left() in [Left(), Right()] && Right() in [Left(), Right()];
    forall l, g | 0 <= l <= 1 && g in Gapped()[l] ensures Separate(Flushed(), g) { GappedFiles(l, g); }
  }

  lemma GapOverlap()
    ensures !Apart(Replace(AddAt(Gapped(), 1, Flushed()), 0, [Left(), Right()], [], [Merged()])[1])
  {
    var w := AddAt(Gapped(), 1, Flushed());
    assert w[1] == [Flushed()];
    var level := Replace(w, 0, [Left(), Right()], [], [Merged()])[1];
    WithoutFacts(w[1], Numbers([]));
    PlaceAllFacts(Without(w[1], Numbers([])), [Merged()]);
    assert Merged() in [Merged()] && Flushed() in [Flushed()];
    assert Merged() in level && Flushed() in level;
    assert !Before(Flushed(), Merged()) && !Before(Merged(), Flushed());
  }

  lemma GapNotCovered()
    ensures !Covered([Left(), Right()] + [])
  {
    var files := [Left(), Right()] + [];
    assert Left() in files && Right() in files;
    assert Reaches(files, 5.0);
    assert !InSome(files, 5.0);
  }
}
