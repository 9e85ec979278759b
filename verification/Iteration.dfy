/** What a database iterator runs over (db/db_impl.cc, NewInternalIterator; db/version_set.cc,
    AddIterators): memtables, level-0 files one by one, and each deeper level as one run. */
module Iteration {
  import opened DbFormat
  import opened Mvcc
  import opened Version
  import opened Lookup
  import opened Merger
  import opened DbIter

  /** The files of a level end to end, as its concatenating iterator walks them. */
  function LevelRun(files: Level): seq<Entry> {
    if files == [] then [] else files[0].entries + LevelRun(files[1..])
  }

  lemma {:induction false} LevelRunMembers(files: Level, e: Entry)
    ensures e in LevelRun(files) <==> e in LevelContents(files)
  {
    if files != [] {
      LevelRunMembers(files[1..], e);
      assert e in LevelContents(files) <==> e in files[0].entries || e in LevelContents(files[1..]) by {
        if f :| f in files && e in f.entries { assert f == files[0] || f in files[1..]; }
      }
    }
  }

  lemma {:induction false} LevelRunSorted(files: Level)
    requires Ordered(files) && Apart(files)
    ensures Sorted(LevelRun(files))
  {
    if files != [] {
      var first, rest := files[0], files[1..];
      forall i, j | 0 <= i < j < |rest| ensures BySmallest(rest[i], rest[j]) {
        assert BySmallest(files[i + 1], files[j + 1]);
      }
      LevelRunSorted(rest);
      forall d: Entry, e: Entry | d in first.entries && e in LevelRun(rest) ensures Less(d.ik, e.ik) {
        LevelRunMembers(rest, e);
        var g :| g in rest && e in g.entries;
        var j :| 0 <= j < |rest| && rest[j] == g;
        LevelBefore(files, 0, j + 1);
        BeforeEntries(first, g, d, e);
      }
      SortedConcat(first.entries, LevelRun(rest));
    }
  }

  lemma SortedConcat(a: seq<Entry>, b: seq<Entry>)
    requires Sorted(a) && Sorted(b) && forall d, e :: d in a && e in b ==> Less(d.ik, e.ik)
    ensures Sorted(a + b)
  {
    forall i, j | 0 <= i < j < |a + b| ensures Less((a + b)[i].ik, (a + b)[j].ik) {
      if i < |a| <= j { assert a[i] in a && b[j - |a|] in b; }
    }
  }

  /** Sorted runs without a common internal key, holding just the entries of `S`. */
  ghost predicate Pile(runs: seq<seq<Entry>>, S: set<Entry>) {
    && (forall i :: 0 <= i < |runs| ==> Sorted(runs[i])) && Distinct(runs)
    && (forall e {:trigger Homed(e, runs)} :: e in S <==> Homed(e, runs))
  }

  lemma PileOn(run: seq<Entry>, runs: seq<seq<Entry>>, S: set<Entry>)
    requires Sorted(run) && Pile(runs, S)
    requires forall d, e :: d in run && e in S ==> d.ik != e.ik
    ensures Pile([run] + runs, SetOf(run) + S)
  {
    var all := [run] + runs;
    forall i, j | 0 <= i < |all| && 0 <= j < |all| && i != j ensures Disjoint(all[i], all[j]) {
      if i > 0 && j > 0 { assert Disjoint(runs[i - 1], runs[j - 1]); }
      forall d: Entry, e: Entry | d in all[i] && e in all[j] ensures d.ik != e.ik {
        if i == 0 { assert e in runs[j - 1] && Homed(e, runs); }
        if j == 0 { assert d in runs[i - 1] && Homed(d, runs); }
      }
    }
    forall e ensures e in SetOf(run) + S <==> Homed(e, all) {
      if e in run { assert e in all[0]; }
      if e in S {
        assert Homed(e, runs);
        var i :| 0 <= i < |runs| && e in runs[i];
        assert e in all[i + 1];
      }
      if Homed(e, all) {
        var i :| 0 <= i < |all| && e in all[i];
        if i > 0 { assert e in runs[i - 1] && Homed(e, runs); }
      }
    }
  }

  ghost function ContentsFrom(v: Version, l: nat): set<Entry> {
    set m, e | l <= m < |v| && e in LevelContents(v[m]) :: e
  }

  function DeepRuns(v: Version, l: nat): seq<seq<Entry>>
    decreases |v| - l
  {
    if l >= |v| then [] else (if v[l] == [] then [] else [LevelRun(v[l])]) + DeepRuns(v, l + 1)
  }

  function FileRuns(files: Level): seq<seq<Entry>> {
    if files == [] then [] else [files[0].entries] + FileRuns(files[1..])
  }

  lemma {:induction false} DeepPile(v: Version, l: nat)
    requires VersionOk(v) && 1 <= l <= |v|
    ensures Pile(DeepRuns(v, l), ContentsFrom(v, l))
    decreases |v| - l
  {
    if l < |v| {
      DeepPile(v, l + 1);
      var run := LevelRun(v[l]);
      forall e ensures e in run <==> e in LevelContents(v[l]) { LevelRunMembers(v[l], e); }
      assert ContentsFrom(v, l) == SetOf(run) + ContentsFrom(v, l + 1);
      if v[l] != [] {
        LevelRunSorted(v[l]);
        forall d: Entry, e: Entry | d in run && e in ContentsFrom(v, l + 1) ensures d.ik != e.ik {
          var f :| f in v[l] && d in f.entries;
          var m, g :| l + 1 <= m < |v| && g in v[m] && e in g.entries;
          assert NewerThan(f, g);
        }
        PileOn(run, DeepRuns(v, l + 1), ContentsFrom(v, l + 1));
      } else {
        assert [] + DeepRuns(v, l + 1) == DeepRuns(v, l + 1);
      }
    }
  }

  lemma {:induction false} FilePile(v: Version, files: Level, runs: seq<seq<Entry>>)
    requires VersionOk(v) && Pile(runs, ContentsFrom(v, 1)) && Ordered(files) && forall f :: f in files ==> f in v[0]
    ensures Pile(FileRuns(files) + runs, LevelContents(files) + ContentsFrom(v, 1))
  {
    if files == [] {
      assert FileRuns(files) + runs == runs && LevelContents(files) + ContentsFrom(v, 1) == ContentsFrom(v, 1);
    } else {
      var first, rest := files[0], files[1..];
      forall i, j | 0 <= i < j < |rest| ensures BySmallest(rest[i], rest[j]) {
        assert BySmallest(files[i + 1], files[j + 1]);
      }
      FilePile(v, rest, runs);
      var S := LevelContents(rest) + ContentsFrom(v, 1);
      forall d: Entry, e: Entry | d in first.entries && e in S ensures d.ik != e.ik {
        Level0Differs(v, files, d, e);
      }
      PileOn(first.entries, FileRuns(rest) + runs, S);
      assert [first.entries] + (FileRuns(rest) + runs) == FileRuns(files) + runs;
      assert LevelContents(files) == SetOf(first.entries) + LevelContents(rest) by {
        forall e ensures e in LevelContents(files) <==> e in first.entries || e in LevelContents(rest) {
          LevelRunMembers(files, e);
          LevelRunMembers(rest, e);
        }
      }
      assert SetOf(first.entries) + S == LevelContents(files) + ContentsFrom(v, 1);
    }
  }

  /** An entry of the first file and one of a later file or a deeper level differ in key. */
  lemma Level0Differs(v: Version, files: Level, d: Entry, e: Entry)
    requires VersionOk(v) && files != [] && Ordered(files) && (forall f :: f in files ==> f in v[0])
    requires d in files[0].entries && (e in LevelContents(files[1..]) || e in ContentsFrom(v, 1))
    ensures d.ik != e.ik
  {
    var first := files[0];
    assert first in files && first in v[0];
    if e in ContentsFrom(v, 1) {
      var m, g :| 1 <= m < |v| && g in v[m] && e in g.entries;
      assert NewerThan(first, g);
    } else {
      var g :| g in files[1..] && e in g.entries;
      var j :| 0 <= j < |files[1..]| && files[1..][j] == g;
      assert g == files[j + 1] && g in files && g in v[0] && BySmallest(first, g);
      assert first.number == g.number ==> SameNumber(first, g);
      assert first.number > g.number ==> NewerThan(first, g);
      assert first.number < g.number ==> NewerThan(g, first);
    }
  }

  /** All runs an iterator of the database merges. */
  function SourceRuns(mem: seq<Entry>, imm: Option<seq<Entry>>, v: Version): seq<seq<Entry>>
    requires v != []
  {
    [mem] + ((if imm.Some? then [imm.value] else []) + (FileRuns(v[0]) + DeepRuns(v, 1)))
  }

  lemma SourcesPile(mem: seq<Entry>, imm: Option<seq<Entry>>, v: Version)
    requires VersionOk(v) && Stacked(mem, imm, v)
    ensures Pile(SourceRuns(mem, imm, v), Store(mem, imm, v))
  {
    DeepPile(v, 1);
    FilePile(v, v[0], DeepRuns(v, 1));
    var files := FileRuns(v[0]) + DeepRuns(v, 1);
    assert Contents(v) == LevelContents(v[0]) + ContentsFrom(v, 1);
    if imm.Some? {
      PileOn(imm.value, files, Contents(v));
      PileOn(mem, [imm.value] + files, SetOf(imm.value) + Contents(v));
    } else {
      assert [] + files == files;
      PileOn(mem, files, Contents(v));
    }
    assert Store(mem, imm, v) == SetOf(mem) + (SetOf(ImmRun(imm)) + Contents(v));
  }

  /** DBImpl::NewIterator: the iterator's view is what reading every key at the snapshot gives, in
      order of user keys. */
  method NewIterator(mem: seq<Entry>, imm: Option<seq<Entry>>, v: Version, snap: nat) returns (it: DBIter)
    requires VersionOk(v) && Stacked(mem, imm, v) && Functional(Store(mem, imm, v))
    ensures fresh(it) && fresh(it.iter) && it.Valid() && it.sequence == snap
    ensures forall user, value :: Lists(it.Shows(), user, value) <==> Read(Store(mem, imm, v), user, snap) == Some(value)
    ensures forall i, j :: 0 <= i < j < |it.Shows()| ==> it.Shows()[i].ik.user < it.Shows()[j].ik.user
  {
    SourcesPile(mem, imm, v);
    var merged := new MergingIterator(SourceRuns(mem, imm, v));
    it := new DBIter(merged, snap);
    ghost var all := merged.all;
    MergedIsStore(SourceRuns(mem, imm, v), all, Store(mem, imm, v));
    forall user, value ensures Lists(it.Shows(), user, value) <==> Read(Store(mem, imm, v), user, snap) == Some(value) {
      ViewIsReads(all, snap, user, value);
    }
    ViewRises(all, snap, |all|);
  }

  ghost predicate Lists(view: seq<Entry>, user: UserKey, value: Value) {
    exists e :: e in view && e.ik.user == user && e.value == value
  }

  lemma MergedIsStore(runs: seq<seq<Entry>>, all: seq<Entry>, S: set<Entry>)
    requires Mixed(runs, all) && Pile(runs, S)
    ensures SetOf(all) == S
  {
    forall e ensures e in all <==> e in S {
      assert e in S <==> Homed(e, runs);
      if Homed(e, runs) {
        var i :| 0 <= i < |runs| && e in runs[i];
        assert Part(runs[i], all);
      }
    }
  }
}
