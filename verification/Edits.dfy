/** Installing a version edit (VersionSet::Builder) and why flushes, trivial moves and compactions
    keep the level invariant. */
module Edits {
  import opened DbFormat
  import opened Mvcc
  import opened Version
  import opened Picking

  // ---------- Builder::SaveTo on one level ----------

  function Without(level: Level, deleted: set<nat>): Level {
    if level == [] then []
    else Without(level[..|level| - 1], deleted)
         + if level[|level| - 1].number in deleted then [] else [level[|level| - 1]]
  }

  /** Puts the file in front of the first file that sorts after it. */
  function Place(level: Level, f: File): Level {
    if level == [] || BySmallest(f, level[0]) then [f] + level
    else [level[0]] + Place(level[1..], f)
  }

  function PlaceAll(level: Level, added: seq<File>): Level {
    if added == [] then level else Place(PlaceAll(level, added[..|added| - 1]), added[|added| - 1])
  }

  ghost function Numbers(files: seq<File>): (r: set<nat>)
    ensures forall f :: f in files ==> f.number in r
    ensures forall n :: n in r ==> exists f :: f in files && f.number == n
  {
    set f | f in files :: f.number
  }

  lemma {:induction false} WithoutFacts(level: Level, deleted: set<nat>)
    ensures forall f :: f in Without(level, deleted) <==> f in level && f.number !in deleted
    ensures Ordered(level) ==> Ordered(Without(level, deleted))
  {
    if level != [] {
      var front, f := level[..|level| - 1], level[|level| - 1];
      assert level == front + [f];
      WithoutFacts(front, deleted);
      var r := Without(front, deleted);
      if Ordered(level) {
        assert forall i, j :: 0 <= i < j < |front| ==> BySmallest(level[i], level[j]);
        forall i | 0 <= i < |r| ensures BySmallest(r[i], f) {
          assert r[i] in r;
          var j :| 0 <= j < |front| && front[j] == r[i];
          assert BySmallest(level[j], level[|level| - 1]);
        }
      }
    }
  }

  lemma OrderedCons(f: File, level: Level)
    requires Ordered(level) && forall g :: g in level ==> BySmallest(f, g)
    ensures Ordered([f] + level)
  {
    var r := [f] + level;
    forall i, j | 0 <= i < j < |r| ensures BySmallest(r[i], r[j]) {
      if i == 0 { assert level[j - 1] in level; } else { assert BySmallest(level[i - 1], level[j - 1]); }
    }
  }

  lemma OrderedTail(level: Level)
    requires Ordered(level) && level != []
    ensures Ordered(level[1..]) && forall g :: g in level[1..] ==> BySmallest(level[0], g)
  {
    var rest := level[1..];
    forall i, j | 0 <= i < j < |rest| ensures BySmallest(rest[i], rest[j]) {
      assert BySmallest(level[i + 1], level[j + 1]);
    }
    forall g | g in rest ensures BySmallest(level[0], g) {
      var j :| 0 <= j < |rest| && rest[j] == g;
      assert BySmallest(level[0], level[j + 1]);
    }
  }

  lemma {:induction false} PlaceMembers(level: Level, f: File)
    ensures forall g :: g in Place(level, f) <==> g in level || g == f
  {
    if level != [] && !BySmallest(f, level[0]) {
      PlaceMembers(level[1..], f);
      assert level == [level[0]] + level[1..];
    }
  }

  lemma {:induction false} PlaceOrdered(level: Level, f: File)
    requires Ordered(level) && forall g :: g in level ==> BySmallest(f, g) || BySmallest(g, f)
    ensures Ordered(Place(level, f))
  {
    if level == [] {
    } else if BySmallest(f, level[0]) {
      OrderedTail(level);
      forall g | g in level ensures BySmallest(f, g) {
        assert level == [level[0]] + level[1..];
        if g in level[1..] { BySmallestTrans(f, level[0], g); }
      }
      OrderedCons(f, level);
    } else {
      OrderedTail(level);
      PlaceOrdered(level[1..], f);
      PlaceMembers(level[1..], f);
      assert BySmallest(level[0], f);
      OrderedCons(level[0], Place(level[1..], f));
    }
  }

  lemma PlaceFacts(level: Level, f: File)
    ensures forall g :: g in Place(level, f) <==> g in level || g == f
    ensures Ordered(level) && (forall g :: g in level ==> !SameNumber(f, g)) ==> Ordered(Place(level, f))
  {
    PlaceMembers(level, f);
    if Ordered(level) && (forall g :: g in level ==> !SameNumber(f, g)) {
      forall g | g in level ensures BySmallest(f, g) || BySmallest(g, f) { NumbersDecide(f, g); }
      PlaceOrdered(level, f);
    }
  }

  /** Files with different numbers are ordered one way or the other. */
  lemma NumbersDecide(f: File, g: File)
    requires !SameNumber(f, g)
    ensures BySmallest(f, g) || BySmallest(g, f)
  {
  }

  lemma BySmallestTrans(f: File, g: File, h: File)
    requires BySmallest(f, g) && BySmallest(g, h)
    ensures BySmallest(f, h)
  {
  }

  ghost predicate FreshNumbers(level: Level, added: seq<File>) {
    && (forall f, g {:trigger SameNumber(f, g)} :: f in added && g in level ==> !SameNumber(f, g))
    && (forall i, j :: 0 <= i < j < |added| ==> added[i].number != added[j].number)
  }

  lemma {:induction false} PlaceAllFacts(level: Level, added: seq<File>)
    ensures forall g :: g in PlaceAll(level, added) <==> g in level || g in added
    ensures Ordered(level) && FreshNumbers(level, added) ==> Ordered(PlaceAll(level, added))
  {
    if added != [] {
      var front, f := added[..|added| - 1], added[|added| - 1];
      assert added == front + [f];
      PlaceAllFacts(level, front);
      var r := PlaceAll(level, front);
      PlaceFacts(r, f);
      if Ordered(level) && FreshNumbers(level, added) {
        assert FreshNumbers(level, front);
        forall g | g in r ensures !SameNumber(f, g) {
          if g in front {
            var i :| 0 <= i < |front| && front[i] == g;
            assert added[i].number != added[|added| - 1].number;
          }
        }
      }
    }
  }

  // ---------- flush ----------

  function AddAt(v: Version, level: nat, f: File): Version
    requires level < |v|
  {
    v[level := Place(v[level], f)]
  }

  /** Where PickLevelForMemTableOutput may put a flushed table. */
  ghost predicate CanPlace(v: Version, level: nat, f: File) {
    && level <= MAX_MEM_COMPACT_LEVEL
    && (level > 0 ==> forall l, g {:trigger g in v[l]} :: 0 <= l <= level && l < |v| && g in v[l] ==> Separate(f, g))
  }

  /** The user key ranges of the files do not meet. */
  predicate Separate(f: File, g: File) { UserBefore(f, g) || UserBefore(g, f) }

  lemma SeparateSharesNothing(f: File, g: File)
    requires Separate(f, g)
    ensures NewerThan(f, g) && NewerThan(g, f) && (Before(f, g) || Before(g, f))
  {
    forall d, e | d in f.entries && e in g.entries ensures d.ik.user != e.ik.user {
      Bounds(f, d);
      Bounds(g, e);
    }
  }

  lemma SeparateIsNoOverlap(f: File, g: File)
    ensures Separate(f, g) <==> !Overlaps(g, Some(Smallest(f).user), Some(Largest(f).user))
  {
  }

  /** Some file of the level meets the table's key range; such files add up to more than a limit. */
  ghost predicate Collides(level: Level, f: File) {
    exists g :: g in level && Overlaps(g, Some(Smallest(f).user), Some(Largest(f).user))
  }

  predicate Heavy(level: Level, f: File, limit: nat) {
    TotalFileSize(Overlapping(level, Some(Smallest(f).user), Some(Largest(f).user))) > limit
  }

  /** The level a flushed table is put into: it meets nothing down to there and not too much two
      levels below any level it passes, and one level further this would fail. */
  ghost predicate RestsAt(v: Version, f: File, maxGrandparentBytes: nat, level: nat)
    requires |v| == NUM_LEVELS
  {
    && CanPlace(v, level, f)
    && (forall l :: 2 <= l < level + 2 ==> !Heavy(v[l], f, maxGrandparentBytes))
    && (level < MAX_MEM_COMPACT_LEVEL ==>
          (level == 0 && Collides(v[0], f)) || Collides(v[level + 1], f) || Heavy(v[level + 2], f, maxGrandparentBytes))
  }

  /** The table may be pushed below `level`. */
  method CanPush(v: Version, f: File, level: nat, maxGrandparentBytes: nat) returns (push: bool)
    requires VersionOk(v) && level < MAX_MEM_COMPACT_LEVEL
    ensures push <==> !Collides(v[level + 1], f) && !Heavy(v[level + 2], f, maxGrandparentBytes)
  {
    var lo, hi := Some(Smallest(f).user), Some(Largest(f).user);
    var overlap := SomeFileOverlapsRange(true, v[level + 1], lo, hi);
    if overlap {
      return false;
    }
    if level + 2 < NUM_LEVELS {
      var overlaps, _, _ := GetOverlappingInputs(v[level + 2], level + 2 == 0, lo, hi, []);
      if TotalFileSize(overlaps) > maxGrandparentBytes {
        return false;
      }
    }
    return true;
  }

  /** PickLevelForMemTableOutput: push the table down while it overlaps nothing on the way and not
      too much two levels below. */
  method PickLevelForMemTableOutput(v: Version, f: File, maxGrandparentBytes: nat) returns (level: nat)
    requires VersionOk(v)
    ensures RestsAt(v, f, maxGrandparentBytes, level)
  {
    level := 0;
    var overlap := SomeFileOverlapsRange(false, v[0], Some(Smallest(f).user), Some(Largest(f).user));
    if !overlap {
      while level < MAX_MEM_COMPACT_LEVEL
        invariant level <= MAX_MEM_COMPACT_LEVEL
        invariant forall l :: 0 <= l <= level ==> !Collides(v[l], f)
        invariant forall l :: 2 <= l < level + 2 ==> !Heavy(v[l], f, maxGrandparentBytes)
      {
        var push := CanPush(v, f, level, maxGrandparentBytes);
        if !push { break; }
        level := level + 1;
      }
      forall l, g | 0 <= l <= level && g in v[l] ensures Separate(f, g) {
        assert !Collides(v[l], f);
        SeparateIsNoOverlap(f, g);
      }
    }
  }

  ghost predicate NewestFile(v: Version, f: File) {
    && (forall l, g {:trigger g in v[l], NewerThan(f, g)} :: 0 <= l < |v| && g in v[l] ==> NewerThan(f, g))
    && (forall l, g {:trigger g in v[l]} :: 0 <= l < |v| && g in v[l] ==> g.number < f.number)
  }

  lemma AddAtMembers(v: Version, level: nat, f: File)
    requires level < |v|
    ensures |AddAt(v, level, f)| == |v|
    ensures forall l, g {:trigger g in AddAt(v, level, f)[l]} :: 0 <= l < |v| ==>
              (g in AddAt(v, level, f)[l] <==> g in v[l] || (l == level && g == f))
  {
    PlaceFacts(v[level], f);
  }

  /** A flushed table, newer than everything and placed where it overlaps nothing above or beside
      it, keeps the level invariant. */
  lemma FlushKeepsVersion(v: Version, level: nat, f: File)
    requires VersionOk(v) && NewestFile(v, f) && CanPlace(v, level, f)
    ensures VersionOk(AddAt(v, level, f))
    ensures Contents(AddAt(v, level, f)) == Contents(v) + SetOf(f.entries)
  {
    var w := AddAt(v, level, f);
    AddAtMembers(v, level, f);
    PlaceFacts(v[level], f);
    forall l | 0 <= l < |w| ensures Ordered(w[l]) {
      if l == level { assert forall g :: g in v[level] ==> !SameNumber(f, g); }
    }
    forall l | 1 <= l < |w| ensures Apart(w[l]) {
      if l == level {
        forall g | g in v[l] ensures Before(f, g) || Before(g, f) { SeparateSharesNothing(f, g); }
        AddApart(v[l], w[l], f);
      }
    }
    assert Recent(w[0]) by { FlushRecent(v, w, level, f); }
    assert Numbered(w);
    assert Layered(w) by { FlushLayered(v, w, level, f); }
    AddContents(v, level, f);
  }

  lemma AddApart(was: Level, level: Level, f: File)
    requires Apart(was) && (forall g :: g in was ==> Before(f, g) || Before(g, f))
    requires forall g :: g in level ==> g in was || g == f
    ensures Apart(level)
  {
  }

  lemma FlushRecent(v: Version, w: Version, level: nat, f: File)
    requires VersionOk(v) && NewestFile(v, f) && |w| == |v|
    requires forall g :: g in w[0] ==> g in v[0] || g == f
    ensures Recent(w[0])
  {
    forall g, h | g in w[0] && h in w[0] && g.number > h.number ensures NewerThan(g, h) {
      if g == f { assert h in v[0]; } else { assert g in v[0]; }
    }
  }

  lemma FlushLayered(v: Version, w: Version, level: nat, f: File)
    requires VersionOk(v) && NewestFile(v, f) && CanPlace(v, level, f) && |w| == |v|
    requires forall l, g {:trigger g in w[l]} :: 0 <= l < |v| && g in w[l] ==> g in v[l] || (l == level && g == f)
    ensures Layered(w)
  {
    forall l, m, g, h | 0 <= l < m < |w| && g in w[l] && h in w[m] ensures NewerThan(g, h) {
      if g == f && l == level {
        if h in v[m] { assert NewerThan(f, h); }
      } else if h == f && m == level {
        assert g in v[l];
        SeparateSharesNothing(f, g);
      } else {
        assert g in v[l] && h in v[m];
      }
    }
  }

  lemma AddContents(v: Version, level: nat, f: File)
    requires level < |v|
    ensures Contents(AddAt(v, level, f)) == Contents(v) + SetOf(f.entries)
  {
    var w := AddAt(v, level, f);
    AddAtMembers(v, level, f);
    forall e | e in Contents(w) ensures e in Contents(v) + SetOf(f.entries) {
      var l, g := WhereIs(w, e);
      if g in v[l] { Holds(v, l, g, e); }
    }
    forall e | e in Contents(v) + SetOf(f.entries) ensures e in Contents(w) {
      if e in Contents(v) {
        var l, g := WhereIs(v, e);
        Holds(w, l, g, e);
      } else {
        Holds(w, level, f, e);
      }
    }
  }

  // ---------- compaction and trivial move ----------

  /** The version after the inputs of a compaction were replaced by its outputs. */
  ghost function Replace(v: Version, level: nat, in0: seq<File>, in1: seq<File>, outs: seq<File>): Version
    requires level + 1 < |v|
  {
    v[level := Without(v[level], Numbers(in0))]
     [level + 1 := PlaceAll(Without(v[level + 1], Numbers(in1)), outs)]
  }

  /** The outputs repartition input entries, in order, under unused file numbers. */
  ghost predicate GoodOutputs(v: Version, in0: seq<File>, in1: seq<File>, outs: seq<File>) {
    && (forall i, j :: 0 <= i < j < |outs| ==> Before(outs[i], outs[j]) && outs[i].number != outs[j].number)
    && (forall o, e {:trigger e in o.entries, o in outs} :: o in outs && e in o.entries ==> FromInputs(in0, in1, e))
    && (forall l, g, o {:trigger g in v[l], SameNumber(o, g)} ::
          0 <= l < |v| && g in v[l] && g !in in0 && g !in in1 && o in outs ==> !SameNumber(o, g))
  }

  ghost predicate FromInputs(in0: seq<File>, in1: seq<File>, e: Entry) {
    exists f :: (f in in0 || f in in1) && e in f.entries
  }

  /** Which files each level holds after the replacement. */
  lemma ReplaceMembers(v: Version, level: nat, in0: seq<File>, in1: seq<File>, outs: seq<File>)
    requires VersionOk(v) && level + 1 < |v| && Subset(in0, v[level]) && Subset(in1, v[level + 1])
    ensures var w := Replace(v, level, in0, in1, outs);
      && |w| == |v|
      && (forall g :: g in w[level] <==> g in v[level] && g !in in0)
      && (forall g :: g in w[level + 1] <==> (g in v[level + 1] && g !in in1) || g in outs)
      && (forall l :: 0 <= l < |v| && l != level && l != level + 1 ==> w[l] == v[l])
  {
    WithoutFacts(v[level], Numbers(in0));
    WithoutFacts(v[level + 1], Numbers(in1));
    PlaceAllFacts(Without(v[level + 1], Numbers(in1)), outs);
    NumbersIdentify(v, level, in0);
    NumbersIdentify(v, level + 1, in1);
  }

  lemma NumbersIdentify(v: Version, level: nat, files: seq<File>)
    requires Numbered(v) && level < |v| && Subset(files, v[level])
    ensures forall g :: g in v[level] ==> (g.number in Numbers(files) <==> g in files)
  {
    forall g | g in v[level] && g.number in Numbers(files) ensures g in files {
      var f :| f in files && f.number == g.number;
      assert SameNumber(f, g);
    }
  }

  lemma InputAfter(g: File, in0: seq<File>, in1: seq<File>, e: Entry)
    requires (forall f :: f in in0 ==> UserBefore(g, f)) && (forall f :: f in in1 ==> Before(g, f))
    requires FromInputs(in0, in1, e)
    ensures Less(Largest(g), e.ik)
  {
    var f :| (f in in0 || f in in1) && e in f.entries;
    Bounds(f, e);
  }

  lemma InputBefore(g: File, in0: seq<File>, in1: seq<File>, e: Entry)
    requires (forall f :: f in in0 ==> UserBefore(f, g)) && (forall f :: f in in1 ==> Before(f, g))
    requires FromInputs(in0, in1, e)
    ensures Less(e.ik, Smallest(g))
  {
    var f :| (f in in0 || f in in1) && e in f.entries;
    Bounds(f, e);
  }

  lemma OutputApart(g: File, in0: seq<File>, in1: seq<File>, o: File)
    requires Clear(g, in0, in1) && forall e :: e in o.entries ==> FromInputs(in0, in1, e)
    ensures Before(g, o) || Before(o, g)
  {
    var first, last := o.entries[0], o.entries[|o.entries| - 1];
    if (forall f :: f in in0 ==> UserBefore(g, f)) && (forall f :: f in in1 ==> Before(g, f)) {
      InputAfter(g, in0, in1, first);
    } else {
      InputBefore(g, in0, in1, last);
    }
  }

  /** No output interleaves with a file left in the output level. */
  ghost predicate FitsIn(next: Level, in1: seq<File>, outs: seq<File>) {
    forall g, o {:trigger Before(g, o)} {:trigger Before(o, g)} ::
      g in next && g !in in1 && o in outs ==> Before(g, o) || Before(o, g)
  }

  lemma GoodPickFits(v: Version, level: nat, in0: seq<File>, in1: seq<File>, outs: seq<File>)
    requires GoodPick(v, level, in0, in1) && GoodOutputs(v, in0, in1, outs)
    ensures FitsIn(v[level + 1], in1, outs)
  {
    forall g, o | g in v[level + 1] && g !in in1 && o in outs ensures Before(g, o) || Before(o, g) {
      assert Clear(g, in0, in1);
      OutputApart(g, in0, in1, o);
    }
  }

  lemma ReplaceApart(v: Version, w: Version, level: nat, in0: seq<File>, in1: seq<File>, outs: seq<File>)
    requires VersionOk(v) && level + 1 < |v| && FitsIn(v[level + 1], in1, outs)
    requires GoodOutputs(v, in0, in1, outs) && |w| == |v|
    requires forall g :: g in w[level + 1] <==> (g in v[level + 1] && g !in in1) || g in outs
    ensures Apart(w[level + 1])
  {
    forall f, g | f in w[level + 1] && g in w[level + 1] && f != g ensures Before(f, g) || Before(g, f) {
      if f in outs && g in outs {
        var i :| 0 <= i < |outs| && outs[i] == f;
        var j :| 0 <= j < |outs| && outs[j] == g;
        assert i < j || j < i;
      }
    }
  }

  lemma OutputRecency(h: File, in0: seq<File>, in1: seq<File>, o: File)
    requires forall e :: e in o.entries ==> FromInputs(in0, in1, e)
    ensures (forall f :: f in in0 || f in in1 ==> NewerThan(h, f)) ==> NewerThan(h, o)
    ensures (forall f :: f in in0 || f in in1 ==> NewerThan(f, h)) ==> NewerThan(o, h)
  {
  }

  lemma ReplaceLayered(v: Version, w: Version, level: nat, in0: seq<File>, in1: seq<File>, outs: seq<File>)
    requires VersionOk(v) && TakesFrom(v, level, in0, in1) && GoodOutputs(v, in0, in1, outs) && |w| == |v|
    requires forall g :: g in w[level] <==> g in v[level] && g !in in0
    requires forall g :: g in w[level + 1] <==> (g in v[level + 1] && g !in in1) || g in outs
    requires forall l :: 0 <= l < |v| && l != level && l != level + 1 ==> w[l] == v[l]
    ensures Layered(w)
  {
    forall l, m, g, h | 0 <= l < m < |w| && g in w[l] && h in w[m] ensures NewerThan(g, h) {
      if m == level + 1 && h in outs {
        forall f | f in in0 || f in in1 ensures NewerThan(g, f) {
          assert g in v[l];
          if f in in0 { assert f in v[level]; } else { assert f in v[level + 1]; }
        }
        OutputRecency(g, in0, in1, h);
      } else if l == level + 1 && g in outs {
        forall f | f in in0 || f in in1 ensures NewerThan(f, h) {
          assert h in v[m];
          if f in in0 { assert f in v[level]; } else { assert f in v[level + 1]; }
        }
        OutputRecency(h, in0, in1, g);
      } else {
        assert g in v[l] && h in v[m];
      }
    }
  }

  lemma ReplaceNumbered(v: Version, w: Version, level: nat, in0: seq<File>, in1: seq<File>, outs: seq<File>)
    requires VersionOk(v) && TakesFrom(v, level, in0, in1) && GoodOutputs(v, in0, in1, outs) && |w| == |v|
    requires forall g :: g in w[level] <==> g in v[level] && g !in in0
    requires forall g :: g in w[level + 1] <==> (g in v[level + 1] && g !in in1) || g in outs
    requires forall l :: 0 <= l < |v| && l != level && l != level + 1 ==> w[l] == v[l]
    ensures Numbered(w)
  {
    forall l, g | 0 <= l < |w| && g in w[l] && !(l == level + 1 && g in outs) ensures g in v[l] && g !in in0 && g !in in1 {
      assert g in v[l];
      if g in in0 { assert SameNumber(g, g); }
      if g in in1 { assert SameNumber(g, g); }
    }
    forall l, m, f, g | 0 <= l < |w| && 0 <= m < |w| && f in w[l] && g in w[m] && SameNumber(f, g)
      ensures l == m && f == g
    {
      var fo, go := l == level + 1 && f in outs, m == level + 1 && g in outs;
      if fo && go {
        var i :| 0 <= i < |outs| && outs[i] == f;
        var j :| 0 <= j < |outs| && outs[j] == g;
        assert i == j;
      } else {
        var symmetric := SameNumber(g, f);
      }
    }
  }

  /** Outputs that repartition input entries and fit between the files left in their level keep the
      level invariant, whatever was dropped. */
  lemma ReplaceKeepsVersion(v: Version, level: nat, in0: seq<File>, in1: seq<File>, outs: seq<File>)
    requires VersionOk(v) && TakesFrom(v, level, in0, in1) && GoodOutputs(v, in0, in1, outs)
    requires FitsIn(v[level + 1], in1, outs)
    ensures VersionOk(Replace(v, level, in0, in1, outs))
  {
    var w := Replace(v, level, in0, in1, outs);
    ReplaceMembers(v, level, in0, in1, outs);
    ReplaceApart(v, w, level, in0, in1, outs);
    ReplaceLayered(v, w, level, in0, in1, outs);
    ReplaceNumbered(v, w, level, in0, in1, outs);
    ReplaceOrdered(v, level, in0, in1, outs);
    RestApart(v, w, level, in0);
  }

  lemma RestApart(v: Version, w: Version, level: nat, in0: seq<File>)
    requires VersionOk(v) && level < |v| == |w|
    requires forall g :: g in w[level] <==> g in v[level] && g !in in0
    ensures level > 0 ==> Apart(w[level])
    ensures level == 0 ==> Recent(w[0])
  {
    forall f, g | level > 0 && f in w[level] && g in w[level] && f != g ensures Before(f, g) || Before(g, f) {
      assert f in v[level] && g in v[level];
    }
    forall f: File, g: File | level == 0 && f in w[0] && g in w[0] && f.number > g.number ensures NewerThan(f, g) {
      assert f in v[0] && g in v[0];
    }
  }

  /** A compaction or trivial move of a good pick keeps the level invariant. */
  lemma CompactionKeepsVersion(v: Version, level: nat, in0: seq<File>, in1: seq<File>, outs: seq<File>)
    requires VersionOk(v) && GoodPick(v, level, in0, in1) && GoodOutputs(v, in0, in1, outs)
    ensures VersionOk(Replace(v, level, in0, in1, outs))
  {
    GoodPickFits(v, level, in0, in1, outs);
    ReplaceKeepsVersion(v, level, in0, in1, outs);
  }

  lemma ReplaceOrdered(v: Version, level: nat, in0: seq<File>, in1: seq<File>, outs: seq<File>)
    requires VersionOk(v) && TakesFrom(v, level, in0, in1) && GoodOutputs(v, in0, in1, outs)
    ensures forall l :: 0 <= l < |v| ==> Ordered(Replace(v, level, in0, in1, outs)[l])
  {
    WithoutFacts(v[level], Numbers(in0));
    WithoutFacts(v[level + 1], Numbers(in1));
    NumbersIdentify(v, level + 1, in1);
    var base := Without(v[level + 1], Numbers(in1));
    forall f, g | f in outs && g in base ensures !SameNumber(f, g) {
      assert g in v[level + 1] && g !in in1;
      if g in in0 { assert g in v[level]; assert SameNumber(g, g); }
    }
    PlaceAllFacts(base, outs);
  }

  // ---------- contents ----------

  /** Recency and apartness leave every entry in one file only. */
  lemma EntryInOneFile(v: Version, l: nat, m: nat, f: File, g: File, e: Entry)
    requires VersionOk(v) && l <= m < |v| && f in v[l] && g in v[m] && e in f.entries && e in g.entries
    ensures l == m && f == g
  {
    assert l < m ==> NewerThan(f, g);
    assert l == m == 0 && f != g ==> !SameNumber(f, g);
    assert l == m == 0 && f.number > g.number ==> NewerThan(f, g);
    assert l == m == 0 && g.number > f.number ==> NewerThan(g, f);
    if l == m > 0 && f != g {
      if Before(f, g) { BeforeEntries(f, g, e, e); } else { BeforeEntries(g, f, e, e); }
    }
  }

  ghost function InputEntries(in0: seq<File>, in1: seq<File>): set<Entry> {
    LevelContents(in0) + LevelContents(in1)
  }

  lemma InputsInContents(v: Version, level: nat, in0: seq<File>, in1: seq<File>)
    requires GoodPick(v, level, in0, in1)
    ensures InputEntries(in0, in1) <= Contents(v)
  {
    forall e | e in InputEntries(in0, in1) ensures e in Contents(v) {
      if f :| f in in0 && e in f.entries {
        Holds(v, level, f, e);
      } else {
        var g :| g in in1 && e in g.entries;
        Holds(v, level + 1, g, e);
      }
    }
  }

  /** After a replacement the version holds the other files' entries and those of the outputs. */
  lemma ReplaceContents(v: Version, level: nat, in0: seq<File>, in1: seq<File>, outs: seq<File>)
    requires VersionOk(v) && GoodPick(v, level, in0, in1) && GoodOutputs(v, in0, in1, outs)
    ensures Contents(Replace(v, level, in0, in1, outs))
         == (Contents(v) - InputEntries(in0, in1)) + LevelContents(outs)
  {
    var w := Replace(v, level, in0, in1, outs);
    ReplaceMembers(v, level, in0, in1, outs);
    forall e | e in Contents(w) && e !in LevelContents(outs) ensures e in Contents(v) - InputEntries(in0, in1) {
      var l, g := WhereIs(w, e);
      Holds(v, l, g, e);
      LeftBehind(v, level, in0, in1, l, g, e);
    }
    forall e | e in Contents(v) && e !in InputEntries(in0, in1) ensures e in Contents(w) {
      var l, g := WhereIs(v, e);
      assert g in w[l];
      Holds(w, l, g, e);
    }
    forall e | e in LevelContents(outs) ensures e in Contents(w) {
      var o :| o in outs && e in o.entries;
      Holds(w, level + 1, o, e);
    }
  }

  lemma LeftBehind(v: Version, level: nat, in0: seq<File>, in1: seq<File>, l: nat, g: File, e: Entry)
    requires VersionOk(v) && GoodPick(v, level, in0, in1)
    requires l < |v| && g in v[l] && e in g.entries
    requires (l == level ==> g !in in0) && (l == level + 1 ==> g !in in1)
    ensures e !in InputEntries(in0, in1)
  {
    if f :| f in in0 && e in f.entries {
      if l <= level { EntryInOneFile(v, l, level, g, f, e); } else { EntryInOneFile(v, level, l, f, g, e); }
    }
    if f :| f in in1 && e in f.entries {
      if l <= level + 1 { EntryInOneFile(v, l, level + 1, g, f, e); } else { EntryInOneFile(v, level + 1, l, f, g, e); }
    }
  }
}
