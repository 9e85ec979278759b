/** The version set and its manifest (db/version_set.cc): LogAndApply installs versions and logs the
    edits, Recover rebuilds the last logged version. */
module VersionSets {
  import opened Coding
  import opened DbFormat
  import opened EditCodec
  import opened Manifest
  import opened ManifestReplay
  import opened Version
  import Log

  // ---------- appending to the manifest ----------

  /** The file holds the records of the edits and nothing else, and the writer is at its end. */
  ghost predicate Logged(seal: Log.Seal, w: Log.Writer, es: seq<VersionEdit>)
    reads w
  {
    && w.Valid() && w.seal == seal
    && w.dest == Log.Written(seal, 0, Records(es)) && w.blockOffset == Log.WrittenEnd(0, Records(es))
  }

  method Append(seal: Log.Seal, w: Log.Writer, ghost es: seq<VersionEdit>, e: VersionEdit)
    requires Logged(seal, w, es)
    modifies w
    ensures Logged(seal, w, es + [e])
  {
    var record := EncodeTo(e);
    w.AddRecord(record);
    RecordsSnoc(es, e);
    Log.WrittenSnoc(seal, 0, Records(es), record);
  }

  // ---------- the history behind a manifest ----------

  /** The edits logged so far and the versions between them. */
  datatype Trail = Trail(edits: seq<VersionEdit>, versions: seq<Version>)

  /** The trail leads from nothing to the version and the compaction pointers. */
  ghost predicate LeadsTo(catalog: Meta -> File, comparator: Bytes, t: Trail, v: Version, keys: seq<Bytes>) {
    && Writable(t.edits, comparator)
    && History(t.versions, LiftAll(catalog, t.edits))
    && t.versions[0] == NoFiles && t.versions[|t.edits|] == v
    && PointedAll(NoKeys, t.edits) == keys
  }

  /** The counters after the edits. */
  predicate CountersAre(c: Counters, logNumber: nat, prevLogNumber: nat, nextFile: nat, lastSequence: nat) {
    && c.logNumber == Some(logNumber) && c.prevLogNumber == Some(prevLogNumber)
    && c.nextFile == Some(nextFile) && c.lastSequence == Some(lastSequence)
  }

  /** The files the edit adds to a level have numbers that no file has or had there. */
  ghost predicate NewNumbers(v: Version, earlier: seq<Edit>, e: Edit)
    requires |v| == NUM_LEVELS
  {
    forall l, k {:trigger FreshNumber(v[l], earlier + [e], l, |earlier|, k)} ::
      0 <= l < NUM_LEVELS && 0 <= k < |e.added| ==> FreshNumber(v[l], earlier + [e], l, |earlier|, k)
  }

  lemma FreshAlone(v: Version, earlier: seq<Edit>, e: Edit, l: nat)
    requires |v| == NUM_LEVELS && l < NUM_LEVELS && NewNumbers(v, earlier, e)
    ensures AllFresh(v[l], [e], l)
  {
    forall i, k | 0 <= i < |[e]| && 0 <= k < |[e][i].added| ensures FreshNumber(v[l], [e], l, i, k) {
      assert FreshNumber(v[l], earlier + [e], l, |earlier|, k);
      assert (earlier + [e])[|earlier|] == e;
    }
  }

  lemma FreshSnoc(v: Version, earlier: seq<Edit>, e: Edit, l: nat)
    requires |v| == NUM_LEVELS && l < NUM_LEVELS && NewNumbers(v, earlier, e) && AllFresh([], earlier, l)
    ensures AllFresh([], earlier + [e], l)
  {
    var all := earlier + [e];
    forall i, k | 0 <= i < |all| && 0 <= k < |all[i].added| ensures FreshNumber([], all, l, i, k) {
      if i < |earlier| {
        assert FreshNumber([], earlier, l, i, k);
        assert forall j :: 0 <= j <= i ==> all[j] == earlier[j];
      } else {
        assert FreshNumber(v[l], all, l, |earlier|, k);
      }
    }
  }

  lemma HistorySnoc(versions: seq<Version>, edits: seq<Edit>, e: Edit, w: Version)
    requires History(versions, edits) && versions[0] == NoFiles
    requires Installed(versions[|edits|], e, w) && NewNumbers(versions[|edits|], edits, e)
    ensures History(versions + [w], edits + [e])
  {
    var vs, es := versions + [w], edits + [e];
    forall l | 0 <= l < NUM_LEVELS ensures LevelStory(vs, es, l) {
      assert LevelStory(versions, edits, l);
      FreshSnoc(versions[|edits|], edits, e, l);
      forall i | 0 <= i < |es| ensures Installs(LevelHistory(vs, l)[i], es[i], l, LevelHistory(vs, l)[i + 1]) {
        if i < |edits| {
          assert Installs(LevelHistory(versions, l)[i], edits[i], l, LevelHistory(versions, l)[i + 1]);
        }
      }
    }
  }

  lemma PointedAllSnoc(keys: seq<Bytes>, es: seq<VersionEdit>, e: VersionEdit)
    ensures PointedAll(keys, es + [e]) == Pointed(PointedAll(keys, es), e.pointers)
  {
    assert (es + [e])[..|es|] == es;
  }

  lemma TrailSnoc(catalog: Meta -> File, comparator: Bytes, t: Trail, v: Version, keys: seq<Bytes>, e: VersionEdit, w: Version)
    requires LeadsTo(catalog, comparator, t, v, keys) && Encodable(e) && e.comparator.None?
    requires Installed(v, Lift(catalog, e), w) && NewNumbers(v, LiftAll(catalog, t.edits), Lift(catalog, e))
    ensures LeadsTo(catalog, comparator, Trail(t.edits + [e], t.versions + [w]), w, Pointed(keys, e.pointers))
  {
    LiftSnoc(catalog, t.edits, e);
    HistorySnoc(t.versions, LiftAll(catalog, t.edits), Lift(catalog, e), w);
    PointedAllSnoc(NoKeys, t.edits, e);
  }

  lemma HistoryStart(e: Edit, v: Version)
    requires |v| == NUM_LEVELS
    requires forall l :: 0 <= l < NUM_LEVELS ==> Installs([], e, l, v[l]) && AllFresh([], [e], l)
    ensures History([NoFiles, v], [e])
  {
    var vs := [NoFiles, v];
    forall l | 0 <= l < NUM_LEVELS ensures LevelStory(vs, [e], l) {
      assert Installs([], e, l, v[l]);
      assert LevelHistory(vs, l)[0] == [] && LevelHistory(vs, l)[1] == v[l];
    }
  }

  lemma SnapshotFits(catalog: Meta -> File, key: InternalKey -> Bytes, comparator: Bytes, keys: seq<Bytes>, v: Version)
    requires LevelsOk(catalog, key, v) && |keys| == NUM_LEVELS && Short(comparator)
    requires forall l :: 0 <= l < |keys| ==> keys[l] == [] || KeyOk(keys[l])
    ensures Encodable(Snapshot(comparator, key, keys, v))
  {
    PointersFit(keys, |keys|);
    FilesFit(catalog, key, v, |v|);
  }

  lemma TrailStart(catalog: Meta -> File, key: InternalKey -> Bytes, comparator: Bytes, keys: seq<Bytes>, v: Version)
    requires LevelsOk(catalog, key, v) && |keys| == NUM_LEVELS && Short(comparator)
    requires forall l :: 0 <= l < |keys| ==> keys[l] == [] || KeyOk(keys[l])
    ensures LeadsTo(catalog, comparator, Trail([Snapshot(comparator, key, keys, v)], [NoFiles, v]), v, keys)
  {
    var e := Snapshot(comparator, key, keys, v);
    var lifted := Lift(catalog, e);
    SnapshotFits(catalog, key, comparator, keys, v);
    LooksUp(catalog, key, v, |v|);
    forall l | 0 <= l < NUM_LEVELS ensures Installs([], lifted, l, v[l]) && AllFresh([], [lifted], l) {
      SnapshotInstalls(catalog, key, v, lifted, l);
    }
    HistoryStart(lifted, v);
    assert LiftAll(catalog, [e]) == [lifted];
    PointersReturn(keys, |keys|);
    PointedAllSnoc(NoKeys, [], e);
    assert [] + [e] == [e] && keys[..|keys|] + NoKeys[|keys|..] == keys;
  }

  /** Numbers that are new to the version are new after its snapshot. */
  lemma NewAfterSnapshot(catalog: Meta -> File, key: InternalKey -> Bytes, comparator: Bytes, keys: seq<Bytes>, v: Version, e: Edit)
    requires LevelsOk(catalog, key, v) && |keys| == NUM_LEVELS && NewNumbers(v, [], e)
    ensures NewNumbers(v, LiftAll(catalog, [Snapshot(comparator, key, keys, v)]), e)
  {
    var snap := Snapshot(comparator, key, keys, v);
    var earlier := LiftAll(catalog, [snap]);
    LooksUp(catalog, key, v, |v|);
    RestoredFacts(catalog, key, v, |v|);
    assert earlier[0].added == Restored(v, |v|);
    forall l, k | 0 <= l < NUM_LEVELS && 0 <= k < |e.added| ensures FreshNumber(v[l], earlier + [e], l, |earlier|, k) {
      assert FreshNumber(v[l], [] + [e], l, 0, k);
      if e.added[k].level == l {
        forall i | 0 <= i < |earlier[0].added| && earlier[0].added[i].level == l
          ensures earlier[0].added[i].file.number != e.added[k].file.number
        {
          assert earlier[0].added[i] in Restored(v, |v|);
        }
      }
    }
  }

  // ---------- compaction pointers written twice ----------

  /** The last pointer for a level stays; a level without one keeps its key. */
  lemma {:induction false} PointedAt(keys: seq<Bytes>, ps: seq<Pointer>, l: nat)
    requires l < |keys|
    ensures (forall j :: 0 <= j < |ps| ==> ps[j].level != l) ==> Pointed(keys, ps)[l] == keys[l]
    ensures forall i {:trigger ps[i]} :: 0 <= i < |ps| && ps[i].level == l && (forall j :: i < j < |ps| ==> ps[j].level != l)
              ==> Pointed(keys, ps)[l] == ps[i].key
  {
    if ps != [] { PointedAt(keys, ps[..|ps| - 1], l); }
  }

  /** The last pointer for a level, if there is one. */
  lemma {:induction false} LastPointer(ps: seq<Pointer>, l: nat) returns (i: int)
    ensures -1 <= i < |ps| && (i >= 0 ==> ps[i].level == l) && forall j :: i < j < |ps| ==> ps[j].level != l
  {
    if ps == [] || ps[|ps| - 1].level == l { return |ps| - 1; }
    i := LastPointer(ps[..|ps| - 1], l);
  }

  lemma PointedTwice(keys: seq<Bytes>, ps: seq<Pointer>)
    ensures Pointed(Pointed(keys, ps), ps) == Pointed(keys, ps)
  {
    forall l | 0 <= l < |keys| ensures Pointed(Pointed(keys, ps), ps)[l] == Pointed(keys, ps)[l] {
      PointedAt(keys, ps, l);
      PointedAt(Pointed(keys, ps), ps, l);
      var i := LastPointer(ps, l);
    }
  }

  lemma {:induction false} PointedFit(keys: seq<Bytes>, ps: seq<Pointer>)
    requires forall l :: 0 <= l < |keys| ==> keys[l] == [] || KeyOk(keys[l])
    requires forall p :: p in ps ==> KeyOk(p.key)
    ensures forall l :: 0 <= l < |keys| ==> Pointed(keys, ps)[l] == [] || KeyOk(Pointed(keys, ps)[l])
  {
    if ps != [] {
      PointedFit(keys, ps[..|ps| - 1]);
      assert ps[|ps| - 1] in ps;
    }
  }

  // ---------- what installing an edit keeps ----------

  lemma InstalledMembers(v: Level, e: Edit, l: nat, w: Level)
    requires AllFresh(v, [e], l) && Installs(v, e, l, w)
    ensures forall f :: f in w ==> f in v || Added(l, f) in e.added
  {
    assert [e][..0] == [] && Replayed([], l) == Blank;
    FreshHasNoTwins(v, [e], l);
    AppliedFacts(Blank, e, l);
  }

  /** The files added, and those of before that the edit does not delete. */
  lemma InstalledExactly(v: Level, e: Edit, l: nat, w: Level)
    requires AllFresh(v, [e], l) && Installs(v, e, l, w)
    ensures forall f :: f in w <==> Added(l, f) in e.added || (f in v && Doomed(l, f.number) !in e.deleted)
  {
    assert [e][..0] == [] && Replayed([], l) == Blank;
    FreshHasNoTwins(v, [e], l);
    AppliedFacts(Blank, e, l);
    forall f ensures (Added(l, f) in e.added ==> AddsNumber(e.added, l, f.number)) && (f in v ==> !AddsNumber(e.added, l, f.number)) {
      AddedHasNumber(e.added, l, f);
      forall k | 0 <= k < |e.added| && e.added[k].level == l && f in v ensures e.added[k].file.number != f.number {
        assert FreshNumber(v, [e], l, 0, k);
      }
    }
  }

  lemma InstalledFiles(v: Version, earlier: seq<Edit>, e: Edit, w: Version)
    requires |v| == NUM_LEVELS && Installed(v, e, w) && NewNumbers(v, earlier, e)
    ensures forall l, f {:trigger f in w[l]} :: 0 <= l < NUM_LEVELS ==>
              (f in w[l] <==> Added(l, f) in e.added || (f in v[l] && Doomed(l, f.number) !in e.deleted))
  {
    forall l | 0 <= l < NUM_LEVELS
      ensures forall f {:trigger f in w[l]} :: f in w[l] <==> Added(l, f) in e.added || (f in v[l] && Doomed(l, f.number) !in e.deleted)
    {
      FreshAlone(v, earlier, e, l);
      InstalledExactly(v[l], e, l, w[l]);
    }
  }

  lemma InstalledNumbers(v: Level, e: Edit, l: nat, w: Level)
    requires DistinctNumbers(v) && AllFresh(v, [e], l) && Installs(v, e, l, w)
    ensures DistinctNumbers(w)
  {
    InstalledMembers(v, e, l, w);
    forall f, g | f in w && g in w && SameNumber(f, g) ensures f == g {
      if Added(l, f) in e.added && f !in v {
        AddedIsNew(v, e, l, f, g);
      } else if Added(l, g) in e.added && g !in v {
        AddedIsNew(v, e, l, g, f);
      } else {
        assert SameNumber(f, g);
      }
    }
  }

  lemma AddedIsNew(v: Level, e: Edit, l: nat, f: File, g: File)
    requires AllFresh(v, [e], l) && Added(l, f) in e.added && (g in v || Added(l, g) in e.added)
    ensures SameNumber(f, g) ==> f == g
  {
    var k :| 0 <= k < |e.added| && e.added[k] == Added(l, f);
    assert FreshNumber(v, [e], l, 0, k);
    if g !in v {
      var m :| 0 <= m < |e.added| && e.added[m] == Added(l, g);
      assert FreshNumber(v, [e], l, 0, m);
    }
  }

  /** The edit describes its tables truly. */
  ghost predicate Truthful(catalog: Meta -> File, key: InternalKey -> Bytes, e: VersionEdit) {
    forall n {:trigger n in e.added} :: n in e.added ==> MetaOf(key, catalog(n.meta)) == n.meta
  }

  lemma InstalledLevel(catalog: Meta -> File, key: InternalKey -> Bytes, v: Level, e: VersionEdit, l: nat, w: Level)
    requires LevelOk(catalog, key, v) && Encodable(e) && Truthful(catalog, key, e)
    requires AllFresh(v, [Lift(catalog, e)], l) && Installs(v, Lift(catalog, e), l, w)
    ensures LevelOk(catalog, key, w)
  {
    var lifted := Lift(catalog, e);
    InstalledNumbers(v, lifted, l, w);
    InstalledMembers(v, lifted, l, w);
    forall f | f in w ensures Described(catalog, key, f) {
      if f !in v {
        var i :| 0 <= i < |lifted.added| && lifted.added[i] == Added(l, f);
        assert e.added[i] in e.added && Sized(AddedFile(e.added[i]));
      }
    }
  }

  /** One edit, which leads from nothing to the version. */
  ghost predicate Begun(t: Trail, v: Version) { |t.edits| == 1 && t.versions == [NoFiles, v] }

  function Extended(t: Trail, e: VersionEdit, v: Version): Trail { Trail(t.edits + [e], t.versions + [v]) }

  lemma SnocCounts(t: Trail, e: VersionEdit)
    requires t.edits != [] && t.edits[|t.edits| - 1] == e
    requires e.logNumber.Some? && e.prevLogNumber.Some? && e.nextFile.Some? && e.lastSequence.Some?
    ensures Counted(t.edits) == Counters(e.logNumber, e.prevLogNumber, e.nextFile, e.lastSequence)
  {
  }

  /** The trail one logged edit further. */
  lemma TrailStep(catalog: Meta -> File, comparator: Bytes, t: Trail, v: Version, keys: seq<Bytes>,
                  edit: VersionEdit, e: VersionEdit, w: Version)
    requires LeadsTo(catalog, comparator, t, v, keys) && Encodable(edit) && edit.comparator.None?
    requires Installed(v, Lift(catalog, edit), w) && NewNumbers(v, LiftAll(catalog, t.edits), Lift(catalog, edit))
    requires e.logNumber.Some? && e.prevLogNumber.Some? && e.nextFile.Some? && e.lastSequence.Some?
    requires e == edit.(logNumber := e.logNumber, prevLogNumber := e.prevLogNumber, nextFile := e.nextFile, lastSequence := e.lastSequence)
    requires CounterOk(e.logNumber) && CounterOk(e.prevLogNumber) && CounterOk(e.nextFile) && CounterOk(e.lastSequence)
    ensures LeadsTo(catalog, comparator, Extended(t, e, w), w, Pointed(keys, edit.pointers))
    ensures Counted(Extended(t, e, w).edits) == Counters(e.logNumber, e.prevLogNumber, e.nextFile, e.lastSequence)
  {
    assert Lift(catalog, e) == Lift(catalog, edit);
    TrailSnoc(catalog, comparator, t, v, keys, e, w);
    SnocCounts(Extended(t, e, w), e);
  }

  /** A builder that was given one edit saves what the edit makes of its base. */
  lemma BuiltIsSaved(base: Version, e: Edit, v: Version, levels: seq<LevelState>)
    requires |base| == |v| == |levels| == NUM_LEVELS
    requires forall l :: 0 <= l < NUM_LEVELS ==> levels[l] == Applied(Blank, e, l)
    requires forall l, f {:trigger f in v[l]} :: 0 <= l < NUM_LEVELS ==> (f in v[l] <==> Kept(base[l], levels[l], f))
    requires forall l :: 0 <= l < NUM_LEVELS && Mergeable(base[l], levels[l].added) ==> Ordered(v[l])
    ensures Saved(base, [e], v)
  {
    forall l | 0 <= l < NUM_LEVELS ensures Replayed([e], l) == levels[l] {
      ReplayedSnoc([], e, l);
      assert [] + [e] == [e];
    }
  }

  class VersionSet {
    const seal: Log.Seal
    const comparator: Bytes
    const catalog: Meta -> File        // the table files behind the records
    const key: InternalKey -> Bytes    // InternalKey::Encode
    var current: Version
    var compactPointers: seq<Bytes>    // an empty string where there is none
    var manifestFileNumber: nat
    var nextFileNumber: nat
    var lastSequence: nat
    var logNumber: nat
    var prevLogNumber: nat
    var descriptor: Log.Writer?
    ghost var trail: Trail             // what the descriptor has logged
    ghost var loggedNextFile: nat      // nextFileNumber when the last edit was logged
    ghost var loggedSequence: nat      // lastSequence when the last edit was logged

    ghost predicate Valid()
      reads this, descriptor
    {
      && LevelsOk(catalog, key, current) && |compactPointers| == NUM_LEVELS && Short(comparator)
      && (forall l :: 0 <= l < |compactPointers| ==> compactPointers[l] == [] || KeyOk(compactPointers[l]))
      && logNumber < LONG && prevLogNumber < LONG && nextFileNumber < LONG && lastSequence < LONG
      && if descriptor == null then trail.edits == [] else
           && Logged(seal, descriptor, trail.edits)
           && LeadsTo(catalog, comparator, trail, current, compactPointers)
           && CountersAre(Counted(trail.edits), logNumber, prevLogNumber, loggedNextFile, loggedSequence)
           && loggedNextFile <= nextFileNumber && loggedSequence <= lastSequence
    }

    /** A version set before Recover. */
    constructor (seal: Log.Seal, comparator: Bytes, catalog: Meta -> File, key: InternalKey -> Bytes)
      ensures this.seal == seal && this.comparator == comparator && this.catalog == catalog && this.key == key
      ensures current == NoFiles && compactPointers == NoKeys && descriptor == null && trail.edits == []
    {
      this.seal, this.comparator, this.catalog, this.key := seal, comparator, catalog, key;
      current, compactPointers, descriptor, trail := NoFiles, NoKeys, null, Trail([], []);
      manifestFileNumber, nextFileNumber, lastSequence, logNumber, prevLogNumber := 0, 2, 0, 0, 0;
    }

    /** The edit as it is logged, with the counters filled in. */
    function Completed(edit: VersionEdit): VersionEdit
      reads this
    {
      edit.(logNumber := Some(ValueOr(edit.logNumber, logNumber)),
            prevLogNumber := Some(ValueOr(edit.prevLogNumber, prevLogNumber)),
            nextFile := Some(nextFileNumber), lastSequence := Some(lastSequence))
    }

    /** The builder's part in LogAndApply. */
    method BuildNext(edit: VersionEdit) returns (v: Version, keys: seq<Bytes>)
      requires LevelsOk(catalog, key, current) && |compactPointers| == NUM_LEVELS
      requires Encodable(edit) && Truthful(catalog, key, edit)
      requires NewNumbers(current, LiftAll(catalog, trail.edits), Lift(catalog, edit))
      ensures Installed(current, Lift(catalog, edit), v) && LevelsOk(catalog, key, v)
      ensures keys == Pointed(compactPointers, edit.pointers)
    {
      var b := new Builder(current, compactPointers);
      LiftInLevels(catalog, edit);
      b.Apply(Lift(catalog, edit));
      v := b.SaveTo();
      keys := b.compactPointers;
      ghost var lifted := Lift(catalog, edit);
      forall l | 0 <= l < NUM_LEVELS ensures Ordered(current[l]) && AllFresh(current[l], [lifted], l) {
        assert LevelOk(catalog, key, current[l]);
        FreshAlone(current, LiftAll(catalog, trail.edits), lifted, l);
      }
      BuiltIsSaved(current, lifted, v, b.levels);
      SavedIsInstalled(current, lifted, v);
      forall l | 0 <= l < NUM_LEVELS ensures LevelOk(catalog, key, v[l]) {
        InstalledLevel(catalog, key, current[l], edit, l, v[l]);
      }
    }

    /** Begins a new manifest with a snapshot of the current version. */
    method StartManifest()
      requires LevelsOk(catalog, key, current) && |compactPointers| == NUM_LEVELS && Short(comparator)
      requires forall l :: 0 <= l < |compactPointers| ==> compactPointers[l] == [] || KeyOk(compactPointers[l])
      modifies this`descriptor, this`trail
      ensures descriptor != null && fresh(descriptor) && Logged(seal, descriptor, trail.edits)
      ensures trail == Trail([Snapshot(comparator, key, compactPointers, current)], [NoFiles, current])
      ensures LeadsTo(catalog, comparator, trail, current, compactPointers)
    {
      var w := new Log.Writer(seal, []);
      var snapshot := MakeSnapshot(comparator, key, compactPointers, current);
      assert Logged(seal, w, []);
      assert [] + [snapshot] == [snapshot];
      Append(seal, w, [], snapshot);
      TrailStart(catalog, key, comparator, compactPointers, current);
      descriptor, trail := w, Trail([snapshot], [NoFiles, current]);
    }

    /** The manifest that the next edit goes to, a new one if there is none yet. */
    method EnsureManifest(ghost keys: seq<Bytes>, ghost ps: seq<Pointer>, ghost lifted: Edit) returns (ghost keys': seq<Bytes>)
      requires LevelsOk(catalog, key, current) && |compactPointers| == NUM_LEVELS && Short(comparator)
      requires forall l :: 0 <= l < |compactPointers| ==> compactPointers[l] == [] || KeyOk(compactPointers[l])
      requires compactPointers == Pointed(keys, ps) && NewNumbers(current, LiftAll(catalog, trail.edits), lifted)
      requires if descriptor == null then trail.edits == []
               else Logged(seal, descriptor, trail.edits) && LeadsTo(catalog, comparator, trail, current, keys)
      modifies this`descriptor, this`trail
      ensures descriptor != null && (if old(descriptor) == null then fresh(descriptor) else descriptor == old(descriptor))
      ensures if old(descriptor) == null then Begun(trail, current) else trail == old(trail)
      ensures Logged(seal, descriptor, trail.edits) && LeadsTo(catalog, comparator, trail, current, keys')
      ensures compactPointers == Pointed(keys', ps) && NewNumbers(current, LiftAll(catalog, trail.edits), lifted)
    {
      keys' := keys;
      if descriptor == null {
        NewAfterSnapshot(catalog, key, comparator, compactPointers, current, lifted);
        StartManifest();
        PointedTwice(keys, ps);
        keys' := compactPointers;
      }
    }

    /** Writes the edit to the manifest and installs the version that it makes. */
    method LogEdit(e: VersionEdit, v: Version)
      requires descriptor != null && Logged(seal, descriptor, trail.edits)
      requires e.logNumber.Some? && e.prevLogNumber.Some? && e.nextFile.Some? && e.lastSequence.Some?
      modifies this`current, this`logNumber, this`prevLogNumber, this`trail
      modifies this`loggedNextFile, this`loggedSequence, descriptor
      ensures Logged(seal, descriptor, trail.edits) && trail == Extended(old(trail), e, v)
      ensures current == v && logNumber == e.logNumber.value && prevLogNumber == e.prevLogNumber.value
      ensures loggedNextFile == e.nextFile.value && loggedSequence == e.lastSequence.value
    {
      Append(seal, descriptor, trail.edits, e);
      trail := Extended(trail, e, v);
      current := v;
      logNumber, prevLogNumber := e.logNumber.value, e.prevLogNumber.value;
      loggedNextFile, loggedSequence := e.nextFile.value, e.lastSequence.value;
    }

    /** LogAndApply up to writing the edit: the next version is built, and there is a manifest. */
    method Prepare(edit: VersionEdit) returns (v: Version, ghost keys: seq<Bytes>)
      requires Valid() && Encodable(edit) && Truthful(catalog, key, edit)
      requires NewNumbers(current, LiftAll(catalog, trail.edits), Lift(catalog, edit))
      modifies this`compactPointers, this`descriptor, this`trail
      ensures Installed(current, Lift(catalog, edit), v) && LevelsOk(catalog, key, v)
      ensures compactPointers == Pointed(old(compactPointers), edit.pointers) == Pointed(keys, edit.pointers)
      ensures forall l :: 0 <= l < |compactPointers| ==> compactPointers[l] == [] || KeyOk(compactPointers[l])
      ensures descriptor != null && (if old(descriptor) == null then fresh(descriptor) else descriptor == old(descriptor))
      ensures if old(descriptor) == null then Begun(trail, current) else trail == old(trail)
      ensures Logged(seal, descriptor, trail.edits) && LeadsTo(catalog, comparator, trail, current, keys)
      ensures NewNumbers(current, LiftAll(catalog, trail.edits), Lift(catalog, edit))
    {
      ghost var was := compactPointers;
      v, compactPointers := BuildNext(edit);
      PointedFit(was, edit.pointers);
      keys := EnsureManifest(was, edit.pointers, Lift(catalog, edit));
    }

    /** The rest of LogAndApply: the edit is written and the version becomes current. */
    method Commit(edit: VersionEdit, v: Version, ghost keys: seq<Bytes>)
      requires Encodable(edit) && edit.comparator.None?
      requires logNumber < LONG && prevLogNumber < LONG && nextFileNumber < LONG && lastSequence < LONG
      requires descriptor != null && Logged(seal, descriptor, trail.edits)
      requires LeadsTo(catalog, comparator, trail, current, keys)
      requires Installed(current, Lift(catalog, edit), v)
      requires NewNumbers(current, LiftAll(catalog, trail.edits), Lift(catalog, edit))
      modifies this`current, this`logNumber, this`prevLogNumber, this`trail
      modifies this`loggedNextFile, this`loggedSequence, descriptor
      ensures loggedNextFile == nextFileNumber && loggedSequence == lastSequence
      ensures Logged(seal, descriptor, trail.edits) && trail == Extended(old(trail), old(Completed(edit)), v)
      ensures LeadsTo(catalog, comparator, trail, v, Pointed(keys, edit.pointers))
      ensures CountersAre(Counted(trail.edits), logNumber, prevLogNumber, nextFileNumber, lastSequence)
      ensures current == v && logNumber < LONG && prevLogNumber < LONG
      ensures logNumber == ValueOr(edit.logNumber, old(logNumber))
      ensures prevLogNumber == ValueOr(edit.prevLogNumber, old(prevLogNumber))
    {
      var e := Completed(edit);
      TrailStep(catalog, comparator, trail, current, keys, edit, e, v);
      LogEdit(e, v);
    }

    /** LogAndApply: the edit makes the next version and is appended to the manifest, which begins
        with a snapshot if it is new. The manifest always leads to the current version. */
    method LogAndApply(edit: VersionEdit)
      requires Valid() && Encodable(edit) && edit.comparator.None? && Truthful(catalog, key, edit)
      requires edit.logNumber.Some? ==> logNumber <= edit.logNumber.value < nextFileNumber
      requires NewNumbers(current, LiftAll(catalog, trail.edits), Lift(catalog, edit))
      modifies this`current, this`compactPointers, this`logNumber, this`prevLogNumber, this`descriptor, this`trail
      modifies this`loggedNextFile, this`loggedSequence, descriptor
      ensures Valid() && descriptor != null
      ensures loggedNextFile == old(nextFileNumber) && loggedSequence == old(lastSequence)
      ensures CountersAre(Counted(trail.edits), logNumber, prevLogNumber, old(nextFileNumber), old(lastSequence))
      ensures Installed(old(current), Lift(catalog, edit), current)
      ensures forall l, f {:trigger f in current[l]} :: 0 <= l < NUM_LEVELS ==>
        (f in current[l] <==> Added(l, f) in Lift(catalog, edit).added || (f in old(current)[l] && Doomed(l, f.number) !in edit.deleted))
      ensures compactPointers == Pointed(old(compactPointers), edit.pointers)
      ensures logNumber == ValueOr(edit.logNumber, old(logNumber))
      ensures prevLogNumber == ValueOr(edit.prevLogNumber, old(prevLogNumber))
      ensures exists t: Trail :: trail == Extended(t, old(Completed(edit)), current)
                && if old(descriptor) == null then Begun(t, old(current)) else t == old(trail)
    {
      var v;
      ghost var keys;
      v, keys := Prepare(edit);
      InstalledFiles(current, LiftAll(catalog, trail.edits), Lift(catalog, edit), v);
      ghost var before := trail;
      Commit(edit, v, keys);
      assert trail == Extended(before, old(Completed(edit)), current);
    }

    method MarkFileNumberUsed(number: nat)
      modifies this`nextFileNumber
      ensures nextFileNumber == if old(nextFileNumber) <= number then number + 1 else old(nextFileNumber)
    {
      if nextFileNumber <= number {
        nextFileNumber := number + 1;
      }
    }

    /** Recover, on any bytes: it fails exactly if the log reader reports a corruption, a record is
        refused or a counter is missing; otherwise it installs what the edits make of the current
        version, and the last value of each counter. */
    method Recover(file: Bytes) returns (failure: Option<Failure>, ghost es: seq<VersionEdit>)
      requires |current| == |compactPointers| == NUM_LEVELS
      modifies this
      ensures Decides(ReadsAs(seal, file), comparator, failure, es)
      ensures ReadsAs(seal, file).1 == [] && AcceptAll(ReadsAs(seal, file).0, comparator) == Ok(es) ==>
        (failure.None? <==> Counted(es).nextFile.Some? && Counted(es).logNumber.Some? && Counted(es).lastSequence.Some?)
      ensures failure.None? ==> Saved(old(current), LiftAll(catalog, es), current)
      ensures failure.None? ==> compactPointers == PointedAll(old(compactPointers), es) && Missing(Counted(es)).None?
      ensures failure.None? ==> var c := Counted(es);
        && manifestFileNumber == c.nextFile.value && nextFileNumber == c.nextFile.value + 1
        && lastSequence == c.lastSequence.value && logNumber == c.logNumber.value
        && prevLogNumber == ValueOr(c.prevLogNumber, 0)
      ensures failure.Some? ==> current == old(current) && logNumber == old(logNumber) && lastSequence == old(lastSequence)
    {
      var b := new Builder(current, compactPointers);
      var c;
      failure, c, es := ReadManifest(seal, catalog, comparator, file, b);
      Decide(ReadsAs(seal, file), comparator, failure, es);
      compactPointers := b.compactPointers;
      if failure.Some? {
        return;
      }
      failure := Missing(c);
      MarkFileNumberUsed(ValueOr(c.prevLogNumber, 0));
      MarkFileNumberUsed(ValueOr(c.logNumber, 0));
      if failure.None? {
        var v := SaveReplayed(catalog, b, old(compactPointers), es, c);
        Adopt(v, c);
      }
    }

    /** Takes over the recovered version and counters. */
    method Adopt(v: Version, c: Counters)
      requires Missing(c).None?
      modifies this`current, this`manifestFileNumber, this`nextFileNumber, this`lastSequence, this`logNumber, this`prevLogNumber
      ensures current == v && manifestFileNumber == c.nextFile.value && nextFileNumber == c.nextFile.value + 1
      ensures lastSequence == c.lastSequence.value && logNumber == c.logNumber.value
      ensures prevLogNumber == ValueOr(c.prevLogNumber, 0)
    {
      current := v;
      manifestFileNumber, nextFileNumber := c.nextFile.value, c.nextFile.value + 1;
      lastSequence, logNumber := c.lastSequence.value, c.logNumber.value;
      prevLogNumber := ValueOr(c.prevLogNumber, 0);
    }
  }

  // ---------- a cut manifest ----------

  lemma HistoryPrefix(versions: seq<Version>, edits: seq<Edit>, n: nat)
    requires History(versions, edits) && n <= |edits|
    ensures History(versions[..n + 1], edits[..n])
  {
    var vs, es := versions[..n + 1], edits[..n];
    forall l | 0 <= l < NUM_LEVELS ensures LevelStory(vs, es, l) {
      assert LevelStory(versions, edits, l);
      forall i, k | 0 <= i < |es| && 0 <= k < |es[i].added| ensures FreshNumber(vs[0][l], es, l, i, k) {
        assert FreshNumber(versions[0][l], edits, l, i, k);
        assert forall j :: 0 <= j <= i ==> es[j] == edits[j];
      }
      forall i | 0 <= i < |es| ensures Installs(LevelHistory(vs, l)[i], es[i], l, LevelHistory(vs, l)[i + 1]) {
        assert Installs(LevelHistory(versions, l)[i], edits[i], l, LevelHistory(versions, l)[i + 1]);
      }
    }
  }

  /** What is saved after the first `n` edits is the version after them. */
  lemma SavedIsVersion(catalog: Meta -> File, comparator: Bytes, t: Trail, v: Version, keys: seq<Bytes>, n: nat, w: Version)
    requires LeadsTo(catalog, comparator, t, v, keys) && n <= |t.edits|
    requires Saved(NoFiles, LiftAll(catalog, t.edits[..n]), w)
    ensures w == t.versions[n]
  {
    assert LiftAll(catalog, t.edits[..n]) == LiftAll(catalog, t.edits)[..n];
    HistoryPrefix(t.versions, LiftAll(catalog, t.edits), n);
    ReplayRecovers(t.versions[..n + 1], LiftAll(catalog, t.edits[..n]), w);
  }

  /** How many edits are wholly in the first `cut` bytes of the manifest. */
  function Whole(seal: Log.Seal, es: seq<VersionEdit>, cut: nat): (n: nat)
    ensures n <= |es|
  {
    Log.Complete(seal, 0, Records(es), cut)
  }

  /** What Recover decides on a manifest cut at any byte: it takes the edits wholly before the cut,
      and fails just if one of the counters is not among them. */
  lemma CutDecides(seal: Log.Seal, es: seq<VersionEdit>, comparator: Bytes, cut: nat, failure: Option<Failure>, got: seq<VersionEdit>)
    requires seal.Lawful() && Writable(es, comparator) && cut <= |Log.Written(seal, 0, Records(es))|
    requires Decides(ReadsAs(seal, Log.Written(seal, 0, Records(es))[..cut]), comparator, failure, got)
    ensures failure == Missing(Counted(es[..Whole(seal, es, cut)]))
    ensures failure.None? ==> got == es[..Whole(seal, es, cut)]
  {
    ManifestRoundTrip(seal, es, comparator, cut);
  }

  /** The database is opened again from the manifest of a version set, which a crash cut off at any
      byte: the version is the one after the last edit wholly written. */
  method Reopen(vs: VersionSet, cut: nat) returns (r: VersionSet, failure: Option<Failure>)
    requires vs.Valid() && vs.descriptor != null && vs.seal.Lawful() && cut <= |vs.descriptor.dest|
    ensures fresh(r)
    ensures var n := Whole(vs.seal, vs.trail.edits, cut);
      && failure == Missing(Counted(vs.trail.edits[..n]))
      && (failure.None? ==>
            && r.current == vs.trail.versions[n] && r.compactPointers == PointedAll(NoKeys, vs.trail.edits[..n])
            && Counted(vs.trail.edits[..n]).lastSequence == Some(r.lastSequence))
    ensures cut == |vs.descriptor.dest| ==>
      && failure.None? && r.current == vs.current && r.compactPointers == vs.compactPointers
      && r.logNumber == vs.logNumber && r.prevLogNumber == vs.prevLogNumber
      && r.lastSequence == vs.loggedSequence
      && r.manifestFileNumber == vs.loggedNextFile && r.nextFileNumber == vs.loggedNextFile + 1
  {
    ghost var es, n := vs.trail.edits, Whole(vs.seal, vs.trail.edits, cut);
    r := new VersionSet(vs.seal, vs.comparator, vs.catalog, vs.key);
    ghost var got;
    failure, got := r.Recover(vs.descriptor.dest[..cut]);
    CutDecides(vs.seal, es, vs.comparator, cut, failure, got);
    if failure.None? {
      SavedIsVersion(vs.catalog, vs.comparator, vs.trail, vs.current, vs.compactPointers, n, r.current);
    }
    if cut == |vs.descriptor.dest| {
      Log.AllComplete(vs.seal, 0, Records(es));
      assert es[..|es|] == es;
    }
  }
}
