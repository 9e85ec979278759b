/** How a running compaction gets on with the files around it: the versions it must not uncover,
    and the tables flushed while it runs. */
module Interleaving {
  import opened DbFormat
  import opened Mvcc
  import opened Version
  import opened Lookup
  import opened Picking
  import opened Compaction
  import opened Edits

  /** Files in the levels below the output level that the input version did not have are newer
      than the inputs. */
  ghost predicate NewBelow(v: Version, base: Version, level: nat, in0: seq<File>, in1: seq<File>) {
    && |base| == |v|
    && forall l, g, f {:trigger g in v[l], NewerThan(g, f)} ::
         level + 2 <= l < |v| && g in v[l] && (f in in0 || f in in1) ==> g in base[l] || NewerThan(g, f)
  }

  /** No file outside the inputs holds an older version of a key that a dropped marker covers. */
  lemma NothingOlder(v: Version, base: Version, level: nat, in0: seq<File>, in1: seq<File>,
                     f: File, t: Entry, l: nat, g: File, x: Entry)
    requires VersionOk(v) && GoodPick(v, level, in0, in1) && NewBelow(v, base, level, in0, in1)
    requires BoundaryClosed(v[level + 1], in1) && IsBase(base, level, t.ik.user)
    requires (f in in0 || f in in1) && t in f.entries
    requires l < |v| && g in v[l] && x in g.entries && x.ik.user == t.ik.user
    requires (l == level ==> g !in in0) && (l == level + 1 ==> g !in in1)
    ensures x.ik.num >= t.ik.num
  {
    if f in in0 { assert f in v[level]; } else { assert f in v[level + 1]; }
    if l <= level {
      assert NewerThan(g, f);
    } else if l == level + 1 {
      assert Clear(g, in0, in1);
      BesideIsNewer(v[level + 1], in0, in1, f, g, t, x);
    } else {
      Bounds(g, x);
      assert NewerThan(g, f);
    }
  }

  lemma OlderInVersion(v: Version, base: Version, level: nat, in0: seq<File>, in1: seq<File>, t: Entry, x: Entry)
    requires VersionOk(v) && GoodPick(v, level, in0, in1) && NewBelow(v, base, level, in0, in1)
    requires BoundaryClosed(v[level + 1], in1) && IsBase(base, level, t.ik.user)
    requires t in InputEntries(in0, in1) && x in Contents(v) && x !in InputEntries(in0, in1) && x.ik.user == t.ik.user
    ensures x.ik.num >= t.ik.num
  {
    var f :| (f in in0 || f in in1) && t in f.entries;
    var l, g := WhereIs(v, x);
    assert g !in in0 && g !in in1;
    NothingOlder(v, base, level, in0, in1, f, t, l, g, x);
  }

  lemma OlderOutside(mem: seq<Entry>, imm: Option<seq<Entry>>, v: Version, base: Version, level: nat,
                     in0: seq<File>, in1: seq<File>, t: Entry, x: Entry)
    requires Stacked(mem, imm, v) && Functional(Store(mem, imm, v))
    requires VersionOk(v) && GoodPick(v, level, in0, in1) && NewBelow(v, base, level, in0, in1)
    requires BoundaryClosed(v[level + 1], in1) && IsBase(base, level, t.ik.user)
    requires t in InputEntries(in0, in1)
    requires x in Store(mem, imm, v) && x !in InputEntries(in0, in1) && x.ik.user == t.ik.user
    ensures x.ik.num > t.ik.num
  {
    InputsInContents(v, level, in0, in1);
    if x in Contents(v) { OlderInVersion(v, base, level, in0, in1, t, x); }
    assert x in Store(mem, imm, v) && t in Store(mem, imm, v);
  }

  /** If the next-level inputs end on a user key boundary, no marker that rule (B) drops leaves an
      older value behind. */
  lemma NothingResurrected(mem: seq<Entry>, imm: Option<seq<Entry>>, v: Version, base: Version, level: nat,
                           in0: seq<File>, in1: seq<File>, smallest: nat)
    requires Stacked(mem, imm, v) && Functional(Store(mem, imm, v))
    requires VersionOk(v) && GoodPick(v, level, in0, in1) && NewBelow(v, base, level, in0, in1)
    requires BoundaryClosed(v[level + 1], in1)
    ensures forall user :: !Resurrects(Store(mem, imm, v), InputEntries(in0, in1), base, level, smallest, user)
  {
    var store, inputs := Store(mem, imm, v), InputEntries(in0, in1);
    forall user ensures !Resurrects(store, inputs, base, level, smallest, user) {
      if Resurrects(store, inputs, base, level, smallest, user) {
        var t, x :| Newest(store, user, smallest, t) && t in inputs && Obsolete(base, level, smallest, t)
          && Newest(store - inputs, user, t.ik.num, x) && x.ik.kind.Put?;
        OlderOutside(mem, imm, v, base, level, in0, in1, t, x);
      }
    }
  }

  lemma BesideIsNewer(next: Level, in0: seq<File>, in1: seq<File>, f: File, g: File, t: Entry, x: Entry)
    requires BoundaryClosed(next, in1) && g in next && Clear(g, in0, in1) && (f in in0 || f in in1)
    requires t in f.entries && x in g.entries && x.ik.user == t.ik.user
    ensures x.ik.num >= t.ik.num
  {
    Bounds(f, t);
    Bounds(g, x);
    if f in in1 {
      if Before(f, g) { BoundaryStops(next, in0, in1, f, g, t, x); } else { BeforeEntries(g, f, x, t); }
    }
  }

  lemma BoundaryStops(next: Level, in0: seq<File>, in1: seq<File>, f: File, g: File, t: Entry, x: Entry)
    requires BoundaryClosed(next, in1) && f in in1 && g in next && Clear(g, in0, in1) && Before(f, g)
    requires t in f.entries && x in g.entries
    ensures x.ik.user != t.ik.user
  {
    Bounds(f, t);
    Bounds(g, x);
    NotBeforeBoth(f, g);
    var top := TopFile(in1);
    assert Before(top, g);
    assert !IsBoundary(g, Largest(top));
  }

  // ---------- flushed tables ----------

  /** The table's user key range meets none of the inputs. */
  ghost predicate SeparateFromAll(in0: seq<File>, in1: seq<File>, m: File) {
    forall g {:trigger Separate(m, g)} :: g in in0 || g in in1 ==> Separate(m, g)
  }

  lemma PlacedIsSeparate(v: Version, level: nat, in0: seq<File>, in1: seq<File>, m: File)
    requires GoodPick(v, level, in0, in1) && CanPlace(v, level + 1, m)
    ensures SeparateFromAll(in0, in1, m)
  {
    forall g | g in in0 || g in in1 ensures Separate(m, g) {
      if g in in0 { assert g in v[level]; } else { assert g in v[level + 1]; }
    }
  }

  /** Inputs without gaps leave no room for a flushed table to land between them. */
  lemma CoveredIsClear(v: Version, level: nat, in0: seq<File>, in1: seq<File>, m: File)
    requires GoodPick(v, level, in0, in1) && CanPlace(v, level + 1, m) && Covered(in0 + in1)
    ensures Clear(m, in0, in1)
  {
    PlacedIsSeparate(v, level, in0, in1, m);
    CoveredLeavesNoRoom(in0 + in1, in0[0], m);
    assert forall g :: g in in0 || g in in1 ==> g in in0 + in1;
  }

  lemma CoveredLeavesNoRoom(files: seq<File>, a: File, m: File)
    requires Covered(files) && a in files && forall g :: g in files ==> Separate(m, g)
    ensures UserBefore(m, a) ==> forall g :: g in files ==> UserBefore(m, g)
    ensures !UserBefore(m, a) ==> forall g :: g in files ==> UserBefore(g, m)
  {
    var x := Smallest(m).user;
    Bounds(m, m.entries[0]);
    forall g | g in files ensures !Overlaps(g, Some(x), Some(x)) && Smallest(g).user <= Largest(g).user {
      Bounds(g, g.entries[0]);
    }
    assert !InSome(files, x);
    assert !Reaches(files, x);
  }

  lemma AddKeepsInputs(v: Version, p: nat, f: File, level: nat, in0: seq<File>, in1: seq<File>)
    requires p < |v| && NewestFile(v, f) && TakesFrom(v, level, in0, in1)
    ensures TakesFrom(AddAt(v, p, f), level, in0, in1)
  {
    var w := AddAt(v, p, f);
    AddAtMembers(v, p, f);
    assert Subset(in0, w[level]) by { forall x | x in in0 ensures x in w[level] { assert x in v[level]; } }
    assert Subset(in1, w[level + 1]) by { forall x | x in in1 ensures x in w[level + 1] { assert x in v[level + 1]; } }
    forall h, x | h in w[level] && h !in in0 && x in in0 ensures NewerThan(h, x) {
      assert x in v[level];
      if h in v[level] { assert NewerThan(h, x); } else { assert h == f; }
    }
  }

  /** The newest file keeps a good pick good unless it lands between the inputs. */
  lemma AddKeepsPick(v: Version, p: nat, f: File, level: nat, in0: seq<File>, in1: seq<File>)
    requires p < |v| && NewestFile(v, f) && GoodPick(v, level, in0, in1)
    requires p == level + 1 ==> Clear(f, in0, in1)
    ensures GoodPick(AddAt(v, p, f), level, in0, in1)
  {
    AddKeepsInputs(v, p, f, level, in0, in1);
    AddAtMembers(v, p, f);
    forall g | g in AddAt(v, p, f)[level + 1] && g !in in1 ensures Clear(g, in0, in1) {
      if g in v[level + 1] { assert Clear(g, in0, in1); }
    }
  }

  // ---------- exactly when a table may be flushed beside a running compaction ----------

  /** The outputs hold exactly what the drop rules leave of the inputs. */
  ghost predicate HoldSurvivors(base: Version, level: nat, smallest: nat, in0: seq<File>, in1: seq<File>, outs: seq<File>) {
    forall e :: e in LevelContents(outs) <==> Survives(InputEntries(in0, in1), base, level, smallest, e)
  }

  /** Some survivor lies below the table and some survivor above it. */
  ghost predicate Straddled(base: Version, level: nat, smallest: nat, in0: seq<File>, in1: seq<File>, m: File) {
    exists d, e :: Survives(InputEntries(in0, in1), base, level, smallest, d) && d.ik.user < Smallest(m).user
                && Survives(InputEntries(in0, in1), base, level, smallest, e) && Largest(m).user < e.ik.user
  }

  /** Every result the compaction may come up with, however it cuts its survivors into tables, can be
      installed in the version. */
  ghost predicate AnyResultFits(w: Version, base: Version, level: nat, smallest: nat, in0: seq<File>, in1: seq<File>)
    requires level + 1 < |w|
  {
    forall outs :: GoodOutputs(w, in0, in1, outs) && HoldSurvivors(base, level, smallest, in0, in1, outs)
      ==> VersionOk(Replace(w, level, in0, in1, outs))
  }

  /** No input entry lies inside a table that could be placed. */
  lemma InputBeside(in0: seq<File>, in1: seq<File>, m: File, e: Entry)
    requires SeparateFromAll(in0, in1, m) && e in InputEntries(in0, in1)
    ensures e.ik.user < Smallest(m).user || Largest(m).user < e.ik.user
  {
    var f :| (f in in0 || f in in1) && e in f.entries;
    assert Separate(m, f);
    Bounds(f, e);
  }

  lemma OutputSurvives(base: Version, level: nat, smallest: nat, in0: seq<File>, in1: seq<File>, outs: seq<File>, o: File, e: Entry)
    requires HoldSurvivors(base, level, smallest, in0, in1, outs) && o in outs && e in o.entries
    ensures Survives(InputEntries(in0, in1), base, level, smallest, e)
  {
    assert e in LevelContents(outs);
  }

  /** Without survivors on both sides no output reaches across the table. */
  lemma OutputBeside(base: Version, level: nat, smallest: nat, in0: seq<File>, in1: seq<File>, m: File,
                     outs: seq<File>, o: File)
    requires SeparateFromAll(in0, in1, m) && !Straddled(base, level, smallest, in0, in1, m)
    requires HoldSurvivors(base, level, smallest, in0, in1, outs) && o in outs
    ensures Before(m, o) || Before(o, m)
  {
    var first, last := o.entries[0], o.entries[|o.entries| - 1];
    OutputSurvives(base, level, smallest, in0, in1, outs, o, first);
    OutputSurvives(base, level, smallest, in0, in1, outs, o, last);
    InputBeside(in0, in1, m, first);
    InputBeside(in0, in1, m, last);
  }

  lemma FlushFits(v: Version, base: Version, level: nat, smallest: nat, in0: seq<File>, in1: seq<File>, m: File, outs: seq<File>)
    requires GoodPick(v, level, in0, in1) && CanPlace(v, level + 1, m)
    requires !Straddled(base, level, smallest, in0, in1, m)
    requires GoodOutputs(AddAt(v, level + 1, m), in0, in1, outs)
    requires HoldSurvivors(base, level, smallest, in0, in1, outs)
    ensures FitsIn(AddAt(v, level + 1, m)[level + 1], in1, outs)
  {
    PlacedIsSeparate(v, level, in0, in1, m);
    AddAtMembers(v, level + 1, m);
    forall g, o | g in AddAt(v, level + 1, m)[level + 1] && g !in in1 && o in outs ensures Before(g, o) || Before(o, g) {
      if g in v[level + 1] {
        assert Clear(g, in0, in1);
        OutputApart(g, in0, in1, o);
      } else {
        OutputBeside(base, level, smallest, in0, in1, m, outs, o);
      }
    }
  }

  lemma SafeFlush(v: Version, base: Version, level: nat, smallest: nat, in0: seq<File>, in1: seq<File>, m: File, outs: seq<File>)
    requires VersionOk(v) && GoodPick(v, level, in0, in1) && NewestFile(v, m) && CanPlace(v, level + 1, m)
    requires !Straddled(base, level, smallest, in0, in1, m)
    requires GoodOutputs(AddAt(v, level + 1, m), in0, in1, outs)
    requires HoldSurvivors(base, level, smallest, in0, in1, outs)
    ensures VersionOk(Replace(AddAt(v, level + 1, m), level, in0, in1, outs))
  {
    FlushKeepsVersion(v, level + 1, m);
    AddKeepsInputs(v, level + 1, m, level, in0, in1);
    FlushFits(v, base, level, smallest, in0, in1, m, outs);
    ReplaceKeepsVersion(AddAt(v, level + 1, m), level, in0, in1, outs);
  }

  /** All survivors in one table. */
  lemma OneOutput(v: Version, base: Version, level: nat, smallest: nat, in0: seq<File>, in1: seq<File>, number: nat, d: Entry)
    returns (o: File)
    requires GoodPick(v, level, in0, in1) && Functional(Contents(v))
    requires Survives(InputEntries(in0, in1), base, level, smallest, d)
    ensures o.number == number && HoldSurvivors(base, level, smallest, in0, in1, [o])
  {
    var inputs := InputEntries(in0, in1);
    var s := set e | e in inputs && Survives(inputs, base, level, smallest, e);
    InputsInContents(v, level, in0, in1);
    var run := SortedRun(s);
    assert d in run;
    forall e | e in run ensures e.ik.num <= MAX_SEQUENCE {
      var f: File :| (f in in0 || f in in1) && e in f.entries;
    }
    o := FileData(number, 0, run);
    assert o in [o];
    assert forall e :: e in LevelContents([o]) <==> e in run;
  }

  lemma OverlapsAfterReplace(w: Version, level: nat, in0: seq<File>, in1: seq<File>, m: File, o: File)
    requires VersionOk(w) && level + 1 < |w| && Subset(in0, w[level]) && Subset(in1, w[level + 1])
    requires m in w[level + 1] && m !in in1 && o != m && !Before(m, o) && !Before(o, m)
    ensures !VersionOk(Replace(w, level, in0, in1, [o]))
  {
    ReplaceMembers(w, level, in0, in1, [o]);
    var after := Replace(w, level, in0, in1, [o])[level + 1];
    assert o in [o];
    assert m in after && o in after;
    assert !Apart(after);
  }

  lemma SpansAfterReplace(v: Version, level: nat, in0: seq<File>, in1: seq<File>, m: File, o: File)
    requires VersionOk(v) && TakesFrom(v, level, in0, in1) && NewestFile(v, m) && CanPlace(v, level + 1, m)
    requires o != m && !Before(m, o) && !Before(o, m)
    ensures !VersionOk(Replace(AddAt(v, level + 1, m), level, in0, in1, [o]))
  {
    FlushKeepsVersion(v, level + 1, m);
    AddKeepsInputs(v, level + 1, m, level, in0, in1);
    AddAtMembers(v, level + 1, m);
    forall x | x in in1 ensures x != m { assert x in v[level + 1]; }
    OverlapsAfterReplace(AddAt(v, level + 1, m), level, in0, in1, m, o);
  }

  lemma SurvivorsAreOutput(v: Version, base: Version, level: nat, smallest: nat, in0: seq<File>, in1: seq<File>, m: File, o: File)
    requires level + 1 < |v| && NewestFile(v, m)
    requires o.number == m.number + 1 && HoldSurvivors(base, level, smallest, in0, in1, [o])
    ensures GoodOutputs(AddAt(v, level + 1, m), in0, in1, [o])
  {
    AddAtMembers(v, level + 1, m);
    forall e | e in o.entries ensures FromInputs(in0, in1, e) {
      assert o in [o];
      OutputSurvives(base, level, smallest, in0, in1, [o], o, e);
    }
  }

  lemma SpansTable(m: File, o: File, d: Entry, e: Entry)
    requires d in o.entries && d.ik.user < Smallest(m).user
    requires e in o.entries && Largest(m).user < e.ik.user
    ensures o != m && !Before(m, o) && !Before(o, m)
  {
    Bounds(o, d);
    Bounds(o, e);
    Bounds(m, m.entries[0]);
  }

  lemma UnsafeFlush(v: Version, base: Version, level: nat, smallest: nat, in0: seq<File>, in1: seq<File>, m: File)
    returns (outs: seq<File>)
    requires VersionOk(v) && Functional(Contents(v)) && GoodPick(v, level, in0, in1)
    requires NewestFile(v, m) && CanPlace(v, level + 1, m) && Straddled(base, level, smallest, in0, in1, m)
    ensures GoodOutputs(AddAt(v, level + 1, m), in0, in1, outs) && HoldSurvivors(base, level, smallest, in0, in1, outs)
    ensures !VersionOk(Replace(AddAt(v, level + 1, m), level, in0, in1, outs))
  {
    var d, e :| Survives(InputEntries(in0, in1), base, level, smallest, d) && d.ik.user < Smallest(m).user
      && Survives(InputEntries(in0, in1), base, level, smallest, e) && Largest(m).user < e.ik.user;
    var o := OneOutput(v, base, level, smallest, in0, in1, m.number + 1, d);
    SurvivorsAreOutput(v, base, level, smallest, in0, in1, m, o);
    assert d in LevelContents([o]) && e in LevelContents([o]);
    SpansTable(m, o, d, e);
    SpansAfterReplace(v, level, in0, in1, m, o);
    outs := [o];
  }

  /** A table flushed to the output level of a running compaction leaves the level invariant intact,
      however the compaction cuts its survivors into tables, exactly when the table does not lie
      between two survivors. */
  lemma FlushBesideCompaction(v: Version, base: Version, level: nat, smallest: nat, in0: seq<File>, in1: seq<File>, m: File)
    requires VersionOk(v) && Functional(Contents(v)) && GoodPick(v, level, in0, in1)
    requires NewestFile(v, m) && CanPlace(v, level + 1, m)
    ensures AnyResultFits(AddAt(v, level + 1, m), base, level, smallest, in0, in1)
            <==> !Straddled(base, level, smallest, in0, in1, m)
  {
    var w := AddAt(v, level + 1, m);
    if Straddled(base, level, smallest, in0, in1, m) {
      var outs := UnsafeFlush(v, base, level, smallest, in0, in1, m);
    } else {
      forall outs | GoodOutputs(w, in0, in1, outs) && HoldSurvivors(base, level, smallest, in0, in1, outs)
        ensures VersionOk(Replace(w, level, in0, in1, outs))
      {
        SafeFlush(v, base, level, smallest, in0, in1, m, outs);
      }
    }
  }

  /** Being clear of the input files, which can be told without looking into them, is enough. */
  lemma ClearIsSafe(v: Version, base: Version, level: nat, smallest: nat, in0: seq<File>, in1: seq<File>, m: File)
    requires GoodPick(v, level, in0, in1) && CanPlace(v, level + 1, m) && Clear(m, in0, in1)
    ensures !Straddled(base, level, smallest, in0, in1, m)
  {
    PlacedIsSeparate(v, level, in0, in1, m);
    forall d | d in InputEntries(in0, in1)
      ensures if UserBefore(m, in0[0]) then Largest(m).user < d.ik.user else d.ik.user < Smallest(m).user
    {
      var f :| (f in in0 || f in in1) && d in f.entries;
      Bounds(f, d);
      Bounds(m, m.entries[0]);
      Bounds(in0[0], in0[0].entries[0]);
      assert in0[0] in in0 && Separate(m, in0[0]) && Separate(m, f);
    }
    Bounds(m, m.entries[0]);
  }
}
