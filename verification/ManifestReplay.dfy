/** Version edits at work (db/version_set.cc, VersionSet::Builder): replaying all edits through one
    builder against installing them one by one. */
module ManifestReplay {
  import opened Coding
  import opened DbFormat
  import opened EditCodec
  import opened Edits
  import opened Version

  datatype Added = Added(level: nat, file: File)

  /** What a version edit does to compaction pointers and files. */
  datatype Edit = Edit(pointers: seq<Pointer>, deleted: seq<Doomed>, added: seq<Added>)

  /** Builder::LevelState: numbers to leave out and files to put in, ordered by smallest key. */
  datatype LevelState = LevelState(deleted: set<nat>, added: Level)

  /** Neither sorts before the other, so an ordered set takes only one of them. */
  predicate Twins(f: File, g: File) { !BySmallest(f, g) && !BySmallest(g, f) }

  function SetInsert(level: Level, f: File): Level {
    if exists i :: 0 <= i < |level| && Twins(f, level[i]) then level else Place(level, f)
  }

  /** One deletion, and one addition, as Builder::Apply records them for level `l`. */
  function Delete(s: LevelState, d: Doomed, l: nat): LevelState {
    if d.level == l then s.(deleted := s.deleted + {d.number}) else s
  }

  function Add(s: LevelState, a: Added, l: nat): LevelState {
    if a.level == l then LevelState(s.deleted - {a.file.number}, SetInsert(s.added, a.file)) else s
  }

  function DeleteAll(s: LevelState, ds: seq<Doomed>, l: nat): LevelState {
    if ds == [] then s else Delete(DeleteAll(s, ds[..|ds| - 1], l), ds[|ds| - 1], l)
  }

  function AddAll(s: LevelState, adds: seq<Added>, l: nat): LevelState {
    if adds == [] then s else Add(AddAll(s, adds[..|adds| - 1], l), adds[|adds| - 1], l)
  }

  /** The compaction pointers after those of an edit; an empty string stands for none. */
  function Pointed(keys: seq<Bytes>, ps: seq<Pointer>): (r: seq<Bytes>)
    ensures |r| == |keys|
  {
    if ps == [] then keys
    else
      var front, p := Pointed(keys, ps[..|ps| - 1]), ps[|ps| - 1];
      if p.level < |keys| then front[p.level := p.key] else front
  }

  function Applied(s: LevelState, e: Edit, l: nat): LevelState {
    AddAll(DeleteAll(s, e.deleted, l), e.added, l)
  }

  // ---------- the builder ----------

  ghost predicate InLevels(e: Edit) {
    && (forall p :: p in e.pointers ==> p.level < NUM_LEVELS)
    && (forall d :: d in e.deleted ==> d.level < NUM_LEVELS)
    && (forall a :: a in e.added ==> a.level < NUM_LEVELS)
  }

  class Builder {
    const base: Version
    var levels: seq<LevelState>
    var compactPointers: seq<Bytes>   // of the version set

    ghost predicate Valid()
      reads this
    {
      |base| == |levels| == |compactPointers| == NUM_LEVELS
    }

    constructor (base: Version, compactPointers: seq<Bytes>)
      requires |base| == |compactPointers| == NUM_LEVELS
      ensures Valid() && this.base == base && levels == seq(NUM_LEVELS, _ => Blank)
      ensures this.compactPointers == compactPointers
    {
      this.base, this.compactPointers := base, compactPointers;
      levels := seq(NUM_LEVELS, _ => Blank);
    }

    method UpdatePointers(e: Edit)
      requires Valid() && InLevels(e)
      modifies this`compactPointers
      ensures Valid() && compactPointers == Pointed(old(compactPointers), e.pointers)
    {
      for i := 0 to |e.pointers|
        invariant Valid() && compactPointers == Pointed(old(compactPointers), e.pointers[..i])
      {
        var p := e.pointers[i];
        assert p in e.pointers && e.pointers[..i + 1][..i] == e.pointers[..i];
        compactPointers := compactPointers[p.level := p.key];
      }
      assert e.pointers[..|e.pointers|] == e.pointers;
    }

    method Apply(e: Edit)
      requires Valid() && InLevels(e)
      modifies this
      ensures Valid() && compactPointers == Pointed(old(compactPointers), e.pointers)
      ensures forall l :: 0 <= l < NUM_LEVELS ==> levels[l] == Applied(old(levels[l]), e, l)
    {
      UpdatePointers(e);
      ghost var pointed := compactPointers;
      for i := 0 to |e.deleted|
        invariant Valid() && compactPointers == pointed
        invariant forall l :: 0 <= l < NUM_LEVELS ==> levels[l] == DeleteAll(old(levels[l]), e.deleted[..i], l)
      {
        var d := e.deleted[i];
        assert d in e.deleted && e.deleted[..i + 1][..i] == e.deleted[..i];
        levels := levels[d.level := Delete(levels[d.level], d, d.level)];
      }
      assert e.deleted[..|e.deleted|] == e.deleted;
      ghost var mid := levels;
      for i := 0 to |e.added|
        invariant Valid() && compactPointers == pointed
        invariant forall l :: 0 <= l < NUM_LEVELS ==> levels[l] == AddAll(mid[l], e.added[..i], l)
      {
        var a := e.added[i];
        assert a in e.added && e.added[..i + 1][..i] == e.added[..i];
        levels := levels[a.level := Add(levels[a.level], a, a.level)];
      }
      assert e.added[..|e.added|] == e.added;
    }

    /** The new version: for each level the files of base and edits that are not deleted. */
    method SaveTo() returns (v: Version)
      requires Valid()
      ensures |v| == NUM_LEVELS
      ensures forall l, f {:trigger f in v[l]} :: 0 <= l < NUM_LEVELS ==> (f in v[l] <==> Kept(base[l], levels[l], f))
      ensures forall l :: 0 <= l < NUM_LEVELS && Mergeable(base[l], levels[l].added) ==> Ordered(v[l])
    {
      v := [];
      for l := 0 to NUM_LEVELS
        invariant |v| == l
        invariant forall k, f {:trigger f in v[k]} :: 0 <= k < l ==> (f in v[k] <==> Kept(base[k], levels[k], f))
        invariant forall k :: 0 <= k < l && Mergeable(base[k], levels[k].added) ==> Ordered(v[k])
      {
        var files := SaveLevel(base[l], levels[l]);
        v := v + [files];
      }
    }
  }

  const Blank: LevelState := LevelState({}, [])

  /** A file the builder keeps. */
  ghost predicate Kept(base: Level, s: LevelState, f: File) {
    (f in base || f in s.added) && f.number !in s.deleted
  }

  /** Both lists are in order and share no twins. */
  ghost predicate Mergeable(base: Level, added: Level) {
    && Ordered(base) && Ordered(added)
    && forall f, g {:trigger Twins(f, g)} :: f in base && g in added ==> !Twins(f, g)
  }

  /** MaybeAddFile. */
  function MaybeAdd(files: Level, s: LevelState, f: File): Level {
    if f.number in s.deleted then files else files + [f]
  }

  /** The merge has taken the first files of both lists; what it kept sorts before all the rest. */
  ghost predicate Merging(base: Level, s: LevelState, bi: nat, ai: nat, files: Level) {
    && bi <= |base| && ai <= |s.added|
    && (forall f :: f in files <==> (f in base[..bi] || f in s.added[..ai]) && f.number !in s.deleted)
    && (Mergeable(base, s.added) ==> Ordered(files) && BeforeRest(files, base, bi) && BeforeRest(files, s.added, ai))
  }

  ghost predicate BeforeRest(files: Level, list: Level, n: nat) {
    forall f, j {:trigger BySmallest(f, list[j])} :: f in files && n <= j < |list| ==> BySmallest(f, list[j])
  }

  lemma TakeBase(base: Level, s: LevelState, bi: nat, ai: nat, files: Level)
    requires Merging(base, s, bi, ai, files) && bi < |base|
    requires ai < |s.added| ==> !BySmallest(s.added[ai], base[bi])
    ensures Merging(base, s, bi + 1, ai, MaybeAdd(files, s, base[bi]))
  {
    assert base[..bi + 1] == base[..bi] + [base[bi]];
    if Mergeable(base, s.added) {
      TakeOrdered(base, s.added, bi, ai, files);
    }
  }

  /** The smaller of the two next files goes on in order. */
  lemma TakeOrdered(list: Level, other: Level, i: nat, j: nat, files: Level)
    requires Ordered(list) && Ordered(other) && Ordered(files) && i < |list| && j <= |other|
    requires BeforeRest(files, list, i) && BeforeRest(files, other, j)
    requires j < |other| ==> !BySmallest(other[j], list[i]) && !Twins(list[i], other[j])
    ensures Ordered(files + [list[i]])
    ensures BeforeRest(files + [list[i]], list, i + 1) && BeforeRest(files + [list[i]], other, j)
  {
    var f, more := list[i], files + [list[i]];
    forall a, b | 0 <= a < b < |more| ensures BySmallest(more[a], more[b]) {
      if b < |files| { assert BySmallest(files[a], files[b]); } else { assert files[a] in files; }
    }
    forall g, k | g in more && j <= k < |other| ensures BySmallest(g, other[k]) {
      if g !in files && j < k {
        assert BySmallest(other[j], other[k]);
        BySmallestTrans(f, other[j], other[k]);
      }
    }
  }

  lemma TakeAdded(base: Level, s: LevelState, bi: nat, ai: nat, files: Level)
    requires Merging(base, s, bi, ai, files) && ai < |s.added|
    requires bi < |base| ==> BySmallest(s.added[ai], base[bi])
    ensures Merging(base, s, bi, ai + 1, MaybeAdd(files, s, s.added[ai]))
  {
    assert s.added[..ai + 1] == s.added[..ai] + [s.added[ai]];
    if Mergeable(base, s.added) {
      TakeOrdered(s.added, base, ai, bi, files);
    }
  }

  /** Merges the added files into those of the base, dropping deleted ones. */
  method SaveLevel(base: Level, s: LevelState) returns (files: Level)
    ensures forall f :: f in files <==> Kept(base, s, f)
    ensures Mergeable(base, s.added) ==> Ordered(files)
  {
    files := [];
    var bi := 0;
    for ai := 0 to |s.added|
      invariant Merging(base, s, bi, ai, files)
    {
      while bi < |base| && !BySmallest(s.added[ai], base[bi])
        invariant Merging(base, s, bi, ai, files)
      {
        TakeBase(base, s, bi, ai, files);
        files := MaybeAdd(files, s, base[bi]);
        bi := bi + 1;
      }
      TakeAdded(base, s, bi, ai, files);
      files := MaybeAdd(files, s, s.added[ai]);
    }
    while bi < |base|
      invariant Merging(base, s, bi, |s.added|, files)
    {
      TakeBase(base, s, bi, |s.added|, files);
      files := MaybeAdd(files, s, base[bi]);
      bi := bi + 1;
    }
    assert base[..bi] == base && s.added[..|s.added|] == s.added;
  }

  // ---------- replay ----------

  ghost predicate AddsNumber(adds: seq<Added>, l: nat, n: nat) {
    exists i :: 0 <= i < |adds| && adds[i].level == l && adds[i].file.number == n
  }

  /** The files added to level `l` have no twins there, nor among each other. */
  ghost predicate NoTwins(added: Level, adds: seq<Added>, l: nat) {
    && (forall i, g {:trigger Twins(adds[i].file, g)} :: 0 <= i < |adds| && adds[i].level == l && g in added ==> !Twins(adds[i].file, g))
    && (forall i, j {:trigger Twins(adds[i].file, adds[j].file)} ::
          0 <= j < i < |adds| && adds[i].level == l && adds[j].level == l ==> !Twins(adds[i].file, adds[j].file))
  }

  lemma {:induction false} DeleteAllFacts(s: LevelState, ds: seq<Doomed>, l: nat)
    ensures DeleteAll(s, ds, l).added == s.added
    ensures forall n :: n in DeleteAll(s, ds, l).deleted <==> n in s.deleted || Doomed(l, n) in ds
  {
    if ds != [] {
      DeleteAllFacts(s, ds[..|ds| - 1], l);
      assert ds == ds[..|ds| - 1] + [ds[|ds| - 1]];
    }
  }

  lemma {:induction false} AddAllFacts(s: LevelState, adds: seq<Added>, l: nat)
    requires NoTwins(s.added, adds, l) && Ordered(s.added)
    ensures Ordered(AddAll(s, adds, l).added)
    ensures forall f :: f in AddAll(s, adds, l).added <==> f in s.added || Added(l, f) in adds
    ensures forall n :: n in AddAll(s, adds, l).deleted <==> n in s.deleted && !AddsNumber(adds, l, n)
  {
    if adds != [] {
      var front, last := adds[..|adds| - 1], adds[|adds| - 1];
      assert adds == front + [last];
      AddAllFacts(s, front, l);
      var r := AddAll(s, front, l);
      if last.level == l {
        forall g | g in r.added ensures !Twins(last.file, g) {
          if g !in s.added {
            var j :| 0 <= j < |front| && front[j] == Added(l, g);
            assert !Twins(adds[|adds| - 1].file, adds[j].file);
          }
        }
        PlaceMembers(r.added, last.file);
        PlaceOrdered(r.added, last.file);
      }
      forall n ensures AddsNumber(adds, l, n) <==> AddsNumber(front, l, n) || (last.level == l && last.file.number == n) {
        if i :| 0 <= i < |front| && front[i].level == l && front[i].file.number == n { assert adds[i] == front[i]; }
        if last.level == l && last.file.number == n { assert adds[|adds| - 1] == last; }
      }
    }
  }

  lemma AppliedFacts(s: LevelState, e: Edit, l: nat)
    requires NoTwins(s.added, e.added, l) && Ordered(s.added)
    ensures Ordered(Applied(s, e, l).added)
    ensures forall f :: f in Applied(s, e, l).added <==> f in s.added || Added(l, f) in e.added
    ensures forall n :: n in Applied(s, e, l).deleted <==> (n in s.deleted || Doomed(l, n) in e.deleted) && !AddsNumber(e.added, l, n)
  {
    DeleteAllFacts(s, e.deleted, l);
    AddAllFacts(DeleteAll(s, e.deleted, l), e.added, l);
  }

  /** The edit adds a number under which the replay deleted another file before: that file would
      come back. */
  ghost predicate Revives(base: Level, s: LevelState, e: Edit, l: nat) {
    exists f :: f in base + s.added && f.number in s.deleted && AddsNumber(e.added, l, f.number) && Added(l, f) !in e.added
  }

  /** `w` is level `l` of the version that one LogAndApply of the edit makes of `v`. */
  ghost predicate Installs(v: Level, e: Edit, l: nat, w: Level) {
    Ordered(w) && forall f :: f in w <==> Kept(v, Applied(Blank, e, l), f)
  }

  /** One more edit: applying it to the builder and applying it to the version built so far agree,
      exactly when the edit does not revive a deleted file. */
  lemma StepAgrees(base: Level, s: LevelState, v: Level, e: Edit, l: nat)
    requires NoTwins(s.added, e.added, l) && NoTwins([], e.added, l) && Ordered(s.added)
    requires forall f :: f in v <==> Kept(base, s, f)
    ensures (forall f :: Kept(base, Applied(s, e, l), f) <==> Kept(v, Applied(Blank, e, l), f)) <==> !Revives(base, s, e, l)
  {
    AppliedFacts(s, e, l);
    AppliedFacts(Blank, e, l);
    if Revives(base, s, e, l) {
      var f :| f in base + s.added && f.number in s.deleted && AddsNumber(e.added, l, f.number) && Added(l, f) !in e.added;
      assert Kept(base, Applied(s, e, l), f) && !Kept(v, Applied(Blank, e, l), f);
    } else {
      forall f ensures Kept(base, Applied(s, e, l), f) <==> Kept(v, Applied(Blank, e, l), f) {
        AddedHasNumber(e.added, l, f);
        assert f in v <==> Kept(base, s, f);
        assert f in base + s.added <==> f in base || f in s.added;
      }
    }
  }

  lemma AddedHasNumber(adds: seq<Added>, l: nat, f: File)
    ensures Added(l, f) in adds ==> AddsNumber(adds, l, f.number)
  {
    if Added(l, f) in adds {
      var i :| 0 <= i < |adds| && adds[i] == Added(l, f);
    }
  }

  /** The builder's state for a level after all the edits. */
  function Replayed(edits: seq<Edit>, l: nat): LevelState {
    if edits == [] then Blank else Applied(Replayed(edits[..|edits| - 1], l), edits[|edits| - 1], l)
  }

  /** The number of an added file is new to the level: not in the base, and not added before. */
  ghost predicate FreshNumber(base: Level, edits: seq<Edit>, l: nat, i: nat, k: nat)
    requires i < |edits| && k < |edits[i].added|
  {
    var a := edits[i].added[k];
    a.level == l ==>
      && (forall g :: g in base ==> g.number != a.file.number)
      && (forall j :: 0 <= j < i ==> !AddsNumber(edits[j].added, l, a.file.number))
      && (forall m :: 0 <= m < k && edits[i].added[m].level == l ==> edits[i].added[m].file.number != a.file.number)
  }

  ghost predicate AllFresh(base: Level, edits: seq<Edit>, l: nat) {
    forall i, k {:trigger FreshNumber(base, edits, l, i, k)} ::
      0 <= i < |edits| && 0 <= k < |edits[i].added| ==> FreshNumber(base, edits, l, i, k)
  }

  lemma FreshPrefix(base: Level, edits: seq<Edit>, l: nat)
    requires edits != [] && AllFresh(base, edits, l)
    ensures AllFresh(base, edits[..|edits| - 1], l)
  {
    var front := edits[..|edits| - 1];
    forall i, k | 0 <= i < |front| && 0 <= k < |front[i].added| ensures FreshNumber(base, front, l, i, k) {
      assert FreshNumber(base, edits, l, i, k);
    }
  }

  /** What the builder holds came from the edits, and it is in order. */
  lemma {:induction false} ReplayedFacts(base: Level, edits: seq<Edit>, l: nat)
    requires AllFresh(base, edits, l)
    ensures Ordered(Replayed(edits, l).added)
    ensures forall f :: f in Replayed(edits, l).added ==> exists j :: 0 <= j < |edits| && AddsNumber(edits[j].added, l, f.number)
    decreases |edits|
  {
    if edits != [] {
      var front, last := edits[..|edits| - 1], edits[|edits| - 1];
      FreshPrefix(base, edits, l);
      ReplayedFacts(base, front, l);
      FreshHasNoTwins(base, edits, l);
      AppliedFacts(Replayed(front, l), last, l);
      forall f | f in Replayed(edits, l).added ensures exists j :: 0 <= j < |edits| && AddsNumber(edits[j].added, l, f.number) {
        AddedHasNumber(last.added, l, f);
        if f in Replayed(front, l).added {
          var j :| 0 <= j < |front| && AddsNumber(front[j].added, l, f.number);
          assert edits[j] == front[j];
        } else {
          assert AddsNumber(edits[|edits| - 1].added, l, f.number);
        }
      }
    }
  }

  lemma FreshHasNoTwins(base: Level, edits: seq<Edit>, l: nat)
    requires edits != [] && AllFresh(base, edits, l)
    requires forall f :: f in Replayed(edits[..|edits| - 1], l).added ==>
               exists j :: 0 <= j < |edits| - 1 && AddsNumber(edits[j].added, l, f.number)
    ensures NoTwins(Replayed(edits[..|edits| - 1], l).added, edits[|edits| - 1].added, l)
    ensures NoTwins([], edits[|edits| - 1].added, l)
  {
    var n, adds := |edits| - 1, edits[|edits| - 1].added;
    forall i, g | 0 <= i < |adds| && adds[i].level == l && g in Replayed(edits[..n], l).added ensures !Twins(adds[i].file, g) {
      assert FreshNumber(base, edits, l, n, i);
      assert !SameNumber(adds[i].file, g);
    }
    forall i, j | 0 <= j < i < |adds| && adds[i].level == l && adds[j].level == l ensures !Twins(adds[i].file, adds[j].file) {
      assert FreshNumber(base, edits, l, n, i);
      assert !SameNumber(adds[i].file, adds[j].file);
    }
  }

  /** A fresh edit revives nothing and adds no twin of a base file. */
  lemma FreshFits(base: Level, edits: seq<Edit>, l: nat)
    requires edits != [] && AllFresh(base, edits, l)
    ensures !Revives(base, Replayed(edits[..|edits| - 1], l), edits[|edits| - 1], l)
    ensures forall f, g {:trigger Twins(f, g)} :: f in base && g in Replayed(edits, l).added ==> !Twins(f, g)
  {
    var n, last := |edits| - 1, edits[|edits| - 1];
    FreshPrefix(base, edits, l);
    ReplayedFacts(base, edits[..n], l);
    ReplayedFacts(base, edits, l);
    forall f | f in base + Replayed(edits[..n], l).added ensures !AddsNumber(last.added, l, f.number) {
      forall k | 0 <= k < |last.added| && last.added[k].level == l ensures last.added[k].file.number != f.number {
        assert FreshNumber(base, edits, l, n, k);
      }
    }
    forall f, g | f in base && g in Replayed(edits, l).added ensures !Twins(f, g) {
      var j :| 0 <= j < |edits| && AddsNumber(edits[j].added, l, g.number);
      var k :| 0 <= k < |edits[j].added| && edits[j].added[k].level == l && edits[j].added[k].file.number == g.number;
      assert FreshNumber(base, edits, l, j, k) && !SameNumber(f, g);
    }
  }

  /** Each version is what LogAndApply made of the one before. */
  ghost predicate Chain(versions: seq<Level>, edits: seq<Edit>, l: nat) {
    |versions| == |edits| + 1 && forall i :: 0 <= i < |edits| ==> Installs(versions[i], edits[i], l, versions[i + 1])
  }

  /** Replaying the edits through one builder keeps just the files of the last version. */
  lemma {:induction false} ReplayAgrees(base: Level, edits: seq<Edit>, versions: seq<Level>, l: nat)
    requires Ordered(base) && AllFresh(base, edits, l) && Chain(versions, edits, l) && versions[0] == base
    ensures forall f :: f in versions[|edits|] <==> Kept(base, Replayed(edits, l), f)
    ensures Mergeable(base, Replayed(edits, l).added) && Ordered(versions[|edits|])
    decreases |edits|
  {
    if edits != [] {
      var n, front := |edits| - 1, edits[..|edits| - 1];
      FreshPrefix(base, edits, l);
      assert Chain(versions[..n + 1], front, l);
      ReplayAgrees(base, front, versions[..n + 1], l);
      ReplayedFacts(base, front, l);
      FreshHasNoTwins(base, edits, l);
      FreshFits(base, edits, l);
      ReplayedFacts(base, edits, l);
      StepAgrees(base, Replayed(front, l), versions[n], edits[n], l);
      assert Installs(versions[n], edits[n], l, versions[n + 1]);
    }
  }

  /** Files in order are determined by which files they are. */
  lemma {:induction false} OrderedUnique(a: Level, b: Level)
    requires Ordered(a) && Ordered(b) && forall f :: f in a <==> f in b
    ensures a == b
  {
    HeadIn(b);
    if a != [] {
      assert a[0] in a && a[0] in b;
      assert b[0] in b && b[0] in a;
      FirstIsFirst(a, b[0]);
      FirstIsFirst(b, a[0]);
      OrderedTail(a);
      OrderedTail(b);
      forall f ensures f in a[1..] <==> f in b[1..] {
        assert f in a <==> f == a[0] || f in a[1..];
        assert f in b <==> f == b[0] || f in b[1..];
      }
      OrderedUnique(a[1..], b[1..]);
      assert a == [a[0]] + a[1..] && b == [b[0]] + b[1..];
    }
  }

  lemma HeadIn(a: Level)
    ensures a != [] ==> a[0] in a
  {
  }

  lemma FirstIsFirst(a: Level, f: File)
    requires Ordered(a) && f in a
    ensures f == a[0] || BySmallest(a[0], f)
  {
    var i :| 0 <= i < |a| && a[i] == f;
    assert i > 0 ==> BySmallest(a[0], a[i]);
  }

  // ---------- whole versions ----------

  ghost predicate AllLevels(versions: seq<Version>) {
    forall i {:trigger versions[i]} :: 0 <= i < |versions| ==> |versions[i]| == NUM_LEVELS
  }

  /** What level `l` was along the history of versions. */
  ghost function LevelHistory(versions: seq<Version>, l: nat): seq<Level>
    requires AllLevels(versions) && l < NUM_LEVELS
  {
    seq(|versions|, i requires 0 <= i < |versions| => versions[i][l])
  }

  ghost predicate LevelStory(versions: seq<Version>, edits: seq<Edit>, l: nat)
    requires AllLevels(versions) && versions != [] && l < NUM_LEVELS
  {
    && Ordered(versions[0][l]) && AllFresh(versions[0][l], edits, l)
    && Chain(LevelHistory(versions, l), edits, l)
  }

  /** The versions that LogAndApply made of the edits, one after the other. */
  ghost predicate History(versions: seq<Version>, edits: seq<Edit>) {
    && |versions| == |edits| + 1 && AllLevels(versions)
    && forall l {:trigger LevelStory(versions, edits, l)} :: 0 <= l < NUM_LEVELS ==> LevelStory(versions, edits, l)
  }

  /** What a builder saves after it was given the edits. */
  ghost predicate Saved(base: Version, edits: seq<Edit>, v: Version)
    requires |base| == NUM_LEVELS
  {
    && |v| == NUM_LEVELS
    && (forall l, f {:trigger f in v[l]} :: 0 <= l < NUM_LEVELS ==> (f in v[l] <==> Kept(base[l], Replayed(edits, l), f)))
    && forall l :: 0 <= l < NUM_LEVELS && Mergeable(base[l], Replayed(edits, l).added) ==> Ordered(v[l])
  }

  /** Replaying the edits through one builder yields the version that was current when the last of
      them was applied. */
  lemma ReplayRecovers(versions: seq<Version>, edits: seq<Edit>, v: Version)
    requires History(versions, edits) && Saved(versions[0], edits, v)
    ensures v == versions[|edits|]
  {
    forall l | 0 <= l < NUM_LEVELS ensures v[l] == versions[|edits|][l] {
      assert LevelStory(versions, edits, l);
      ReplayAgrees(versions[0][l], edits, LevelHistory(versions, l), l);
      assert Mergeable(versions[0][l], Replayed(edits, l).added);
      OrderedUnique(v[l], versions[|edits|][l]);
    }
  }

  /** A version after one more edit. */
  ghost predicate Installed(v: Version, e: Edit, w: Version) {
    |v| == |w| == NUM_LEVELS && forall l :: 0 <= l < NUM_LEVELS ==> Installs(v[l], e, l, w[l])
  }

  lemma SavedIsInstalled(v: Version, e: Edit, w: Version)
    requires |v| == NUM_LEVELS && Saved(v, [e], w)
    requires forall l :: 0 <= l < NUM_LEVELS ==> Ordered(v[l]) && AllFresh(v[l], [e], l)
    ensures Installed(v, e, w)
  {
    forall l | 0 <= l < NUM_LEVELS ensures Installs(v[l], e, l, w[l]) {
      assert [e][..0] == [] && Replayed([e], l) == Applied(Blank, e, l);
      ReplayedFacts(v[l], [e], l);
      FreshFits(v[l], [e], l);
    }
  }
}
