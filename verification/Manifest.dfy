/** The manifest as bytes (db/version_set.cc): LogAndApply appends version edits to a log, Recover
    reads them back and replays them. */
module Manifest {
  import opened Coding
  import opened DbFormat
  import opened EditCodec
  import opened ManifestReplay
  import opened Version
  import Log

  // ---------- from records to edits ----------

  datatype Failure = LogCorrupt | BadEdit(complaint: Complaint) | WrongComparator | NoNextFile | NoLogNumber | NoLastSequence

  /** One record of the manifest, as Recover takes it. */
  function Accept(record: Bytes, comparator: Bytes): Result<VersionEdit, Failure> {
    match Decoded(record)
    case Err(complaint) => Err(BadEdit(complaint))
    case Ok(e) => if e.comparator.Some? && e.comparator.value != comparator then Err(WrongComparator) else Ok(e)
  }

  /** All records, up to the first that is refused. */
  function AcceptAll(records: seq<Bytes>, comparator: Bytes): Result<seq<VersionEdit>, Failure> {
    if records == [] then Ok([])
    else
      match AcceptAll(records[..|records| - 1], comparator)
      case Err(failure) => Err(failure)
      case Ok(es) =>
        match Accept(records[|records| - 1], comparator)
        case Err(failure) => Err(failure)
        case Ok(e) => Ok(es + [e])
  }

  /** The last value of each counter, if any edit set it. */
  datatype Counters = Counters(logNumber: Option<nat>, prevLogNumber: Option<nat>, nextFile: Option<nat>, lastSequence: Option<nat>)

  function Later(a: Option<nat>, b: Option<nat>): Option<nat> { if b.Some? then b else a }

  function Count(c: Counters, e: VersionEdit): Counters {
    Counters(Later(c.logNumber, e.logNumber), Later(c.prevLogNumber, e.prevLogNumber),
             Later(c.nextFile, e.nextFile), Later(c.lastSequence, e.lastSequence))
  }

  function Counted(es: seq<VersionEdit>): Counters {
    if es == [] then Counters(None, None, None, None) else Count(Counted(es[..|es| - 1]), es[|es| - 1])
  }

  function Missing(c: Counters): Option<Failure> {
    if c.nextFile.None? then Some(NoNextFile)
    else if c.logNumber.None? then Some(NoLogNumber)
    else if c.lastSequence.None? then Some(NoLastSequence)
    else None
  }

  /** What Recover makes of records that were read without a corruption. */
  function Verdict(records: seq<Bytes>, comparator: Bytes): Result<seq<VersionEdit>, Failure> {
    match AcceptAll(records, comparator)
    case Err(failure) => Err(failure)
    case Ok(es) => var m := Missing(Counted(es)); if m.Some? then Err(m.value) else Ok(es)
  }

  /** All that a reader of the file returns and reports. */
  function ReadsAs(seal: Log.Seal, file: Bytes): (seq<Bytes>, seq<nat>) {
    Log.ReadAll(Log.Sight(seal, file, Log.At(0, 0)))
  }

  function Records(es: seq<VersionEdit>): (r: seq<Bytes>)
    ensures |r| == |es|
  {
    seq(|es|, i requires 0 <= i < |es| => Encoded(es[i]))
  }

  ghost predicate Writable(es: seq<VersionEdit>, comparator: Bytes) {
    forall e :: e in es ==> Encodable(e) && (e.comparator.Some? ==> e.comparator.value == comparator)
  }

  lemma AcceptsOne(e: VersionEdit, comparator: Bytes)
    requires Encodable(e) && (e.comparator.Some? ==> e.comparator.value == comparator)
    ensures Accept(Encoded(e), comparator) == Ok(e)
  {
    EditRoundTrip(e);
  }

  lemma AcceptSnoc(records: seq<Bytes>, record: Bytes, comparator: Bytes)
    ensures AcceptAll(records, comparator).Ok? && Accept(record, comparator).Ok? ==>
              AcceptAll(records + [record], comparator)
              == Ok(AcceptAll(records, comparator).value + [Accept(record, comparator).value])
    ensures AcceptAll(records, comparator).Ok? && Accept(record, comparator).Err? ==>
              AcceptAll(records + [record], comparator) == Err(Accept(record, comparator).error)
  {
    assert (records + [record])[..|records|] == records;
  }

  lemma RecordsSnoc(es: seq<VersionEdit>, e: VersionEdit)
    ensures Records(es + [e]) == Records(es) + [Encoded(e)]
  {
  }

  /** The records of edits are accepted as these edits. */
  lemma {:induction false} AcceptsRecords(es: seq<VersionEdit>, comparator: Bytes)
    requires Writable(es, comparator)
    ensures AcceptAll(Records(es), comparator) == Ok(es)
  {
    if es != [] {
      var front, last := es[..|es| - 1], es[|es| - 1];
      assert last in es && es == front + [last];
      AcceptsRecords(front, comparator);
      RecordsSnoc(front, last);
      AcceptsOne(last, comparator);
      AcceptSnoc(Records(front), Encoded(last), comparator);
    }
  }

  lemma {:induction false} RefusedStays(records: seq<Bytes>, more: seq<Bytes>, comparator: Bytes)
    requires AcceptAll(records, comparator).Err?
    ensures AcceptAll(records + more, comparator) == AcceptAll(records, comparator)
  {
    if more == [] {
      assert records + more == records;
    } else {
      RefusedStays(records, more[..|more| - 1], comparator);
      assert (records + more)[..|records + more| - 1] == records + more[..|more| - 1];
    }
  }

  /** The record is refused on its own account. */
  predicate Refused(record: Bytes, comparator: Bytes, failure: Failure) {
    match Decoded(record)
    case Err(complaint) => failure == BadEdit(complaint)
    case Ok(e) => failure == WrongComparator && e.comparator.Some? && e.comparator.value != comparator
  }

  /** The record decodes to the edit, and it is meant for this comparator. */
  predicate Fits(record: Bytes, comparator: Bytes, e: VersionEdit) {
    Decoded(record) == Ok(e) && (e.comparator == None || e.comparator == Some(comparator))
  }

  /** Either all records decode to edits for this comparator, or the failure is that of the first record
      that does not. */
  lemma {:induction false} AcceptsExactly(records: seq<Bytes>, comparator: Bytes) returns (es: seq<VersionEdit>)
    ensures |es| <= |records| && forall j :: 0 <= j < |es| ==> Fits(records[j], comparator, es[j])
    ensures var r := AcceptAll(records, comparator);
      if r.Ok? then r.value == es && |es| == |records|
      else |es| < |records| && Refused(records[|es|], comparator, r.error)
  {
    hide Decoded;
    if records == [] {
      es := [];
    } else {
      var front, last := records[..|records| - 1], records[|records| - 1];
      es := AcceptsExactly(front, comparator);
      if AcceptAll(front, comparator).Ok? && AcceptAll(records, comparator).Ok? {
        es := es + [Decoded(last).value];
      }
    }
  }

  function FieldValue(e: VersionEdit, k: Counter): Option<nat> {
    match k
    case LogNumber => e.logNumber
    case PrevLogNumber => e.prevLogNumber
    case NextFile => e.nextFile
    case LastSequence => e.lastSequence
  }

  function Total(c: Counters, k: Counter): Option<nat> {
    match k
    case LogNumber => c.logNumber
    case PrevLogNumber => c.prevLogNumber
    case NextFile => c.nextFile
    case LastSequence => c.lastSequence
  }

  /** A counter has the value of the last edit that sets it. */
  lemma {:induction false} LastValueCounts(es: seq<VersionEdit>, k: Counter, i: nat)
    requires i < |es| && FieldValue(es[i], k).Some? && forall j :: i < j < |es| ==> FieldValue(es[j], k).None?
    ensures Total(Counted(es), k) == FieldValue(es[i], k)
    decreases |es|
  {
    if i < |es| - 1 { LastValueCounts(es[..|es| - 1], k, i); }
  }

  lemma {:induction false} UnsetIsMissing(es: seq<VersionEdit>, k: Counter)
    requires forall j :: 0 <= j < |es| ==> FieldValue(es[j], k).None?
    ensures Total(Counted(es), k).None?
    decreases |es|
  {
    if es != [] { UnsetIsMissing(es[..|es| - 1], k); }
  }

  lemma ReadsPrefix(seal: Log.Seal, records: seq<Bytes>, cut: nat)
    requires seal.Lawful() && cut <= |Log.Written(seal, 0, records)|
    ensures ReadsAs(seal, Log.Written(seal, 0, records)[..cut]) == (records[..Log.Complete(seal, 0, records, cut)], [])
  {
    Log.LogRoundTrip(seal, records, cut);
  }

  lemma AcceptsPrefix(es: seq<VersionEdit>, n: nat, comparator: Bytes)
    requires Writable(es, comparator) && n <= |es|
    ensures AcceptAll(Records(es)[..n], comparator) == Ok(es[..n])
  {
    assert Records(es)[..n] == Records(es[..n]);
    AcceptsRecords(es[..n], comparator);
  }

  /** A manifest cut at any byte reads as the edits whose records are wholly before the cut. */
  lemma ManifestRoundTrip(seal: Log.Seal, es: seq<VersionEdit>, comparator: Bytes, cut: nat)
    requires seal.Lawful() && Writable(es, comparator) && cut <= |Log.Written(seal, 0, Records(es))|
    ensures var all := ReadsAs(seal, Log.Written(seal, 0, Records(es))[..cut]);
      all.1 == [] && AcceptAll(all.0, comparator) == Ok(es[..Log.Complete(seal, 0, Records(es), cut)])
  {
    ReadsPrefix(seal, Records(es), cut);
    AcceptsPrefix(es, Log.Complete(seal, 0, Records(es), cut), comparator);
  }

  // ---------- from edits to versions ----------

  /** The edit with the table files that its records describe. */
  function Lift(catalog: Meta -> File, e: VersionEdit): (r: Edit)
    ensures |r.added| == |e.added|
  {
    Edit(e.pointers, e.deleted,
         seq(|e.added|, i requires 0 <= i < |e.added| => Added(e.added[i].level, catalog(e.added[i].meta))))
  }

  function LiftAll(catalog: Meta -> File, es: seq<VersionEdit>): (r: seq<Edit>)
    ensures |r| == |es|
  {
    seq(|es|, i requires 0 <= i < |es| => Lift(catalog, es[i]))
  }

  lemma LiftSnoc(catalog: Meta -> File, es: seq<VersionEdit>, e: VersionEdit)
    ensures LiftAll(catalog, es + [e]) == LiftAll(catalog, es) + [Lift(catalog, e)]
  {
  }

  lemma ReplayedSnoc(edits: seq<Edit>, e: Edit, l: nat)
    ensures Replayed(edits + [e], l) == Applied(Replayed(edits, l), e, l)
  {
    assert (edits + [e])[..|edits|] == edits;
  }

  lemma LiftInLevels(catalog: Meta -> File, e: VersionEdit)
    requires Encodable(e)
    ensures InLevels(Lift(catalog, e))
  {
    var r := Lift(catalog, e);
    forall p | p in r.pointers ensures p.level < NUM_LEVELS { assert Sized(CompactPointer(p)); }
    forall d | d in r.deleted ensures d.level < NUM_LEVELS { assert Sized(DeletedFile(d)); }
    forall i | 0 <= i < |r.added| ensures r.added[i].level < NUM_LEVELS { assert Sized(AddedFile(e.added[i])); }
  }

  /** The compaction pointers after all the edits. */
  function PointedAll(keys: seq<Bytes>, es: seq<VersionEdit>): seq<Bytes> {
    if es == [] then keys else Pointed(PointedAll(keys, es[..|es| - 1]), es[|es| - 1].pointers)
  }

  function ValueOr(o: Option<nat>, other: nat): nat { if o.Some? then o.value else other }

  // ---------- reading a manifest ----------

  /** What the builder and the counters hold once the edits were taken in. */
  ghost predicate Holds(catalog: Meta -> File, keys: seq<Bytes>, es: seq<VersionEdit>, b: Builder, c: Counters)
    reads b
  {
    && b.Valid() && b.compactPointers == PointedAll(keys, es) && c == Counted(es)
    && forall l :: 0 <= l < NUM_LEVELS ==> b.levels[l] == Replayed(LiftAll(catalog, es), l)
  }

  lemma SnocFacts(catalog: Meta -> File, keys: seq<Bytes>, es: seq<VersionEdit>, e: VersionEdit)
    ensures PointedAll(keys, es + [e]) == Pointed(PointedAll(keys, es), e.pointers)
    ensures Counted(es + [e]) == Count(Counted(es), e)
    ensures forall l :: Replayed(LiftAll(catalog, es + [e]), l) == Applied(Replayed(LiftAll(catalog, es), l), Lift(catalog, e), l)
  {
    assert (es + [e])[..|es|] == es;
    LiftSnoc(catalog, es, e);
    forall l ensures Replayed(LiftAll(catalog, es + [e]), l) == Applied(Replayed(LiftAll(catalog, es), l), Lift(catalog, e), l) {
      ReplayedSnoc(LiftAll(catalog, es), Lift(catalog, e), l);
    }
  }

  /** One record in Recover's loop. */
  method TakeRecord(catalog: Meta -> File, comparator: Bytes, record: Bytes, b: Builder, c: Counters,
                    ghost keys: seq<Bytes>, ghost es: seq<VersionEdit>)
    returns (failure: Option<Failure>, c': Counters, ghost es': seq<VersionEdit>)
    requires Holds(catalog, keys, es, b, c)
    modifies b
    ensures Holds(catalog, keys, es', b, c')
    ensures match Accept(record, comparator)
            case Ok(e) => failure.None? && es' == es + [e]
            case Err(x) => failure == Some(x) && es' == es
  {
    var r := DecodeFrom(record);
    if r.Err? {
      return Some(BadEdit(r.error)), c, es;
    }
    var e := r.value;
    if e.comparator.Some? && e.comparator.value != comparator {
      return Some(WrongComparator), c, es;
    }
    ReencodesSame(record);
    LiftInLevels(catalog, e);
    SnocFacts(catalog, keys, es, e);
    b.Apply(Lift(catalog, e));
    failure, c', es' := None, Count(c, e), es + [e];
  }

  /** The reader has returned `done` so far and reported nothing. */
  ghost predicate Halfway(all: (seq<Bytes>, seq<nat>), done: seq<Bytes>, rest: (seq<Bytes>, seq<nat>)) {
    all.0 == done + rest.0 && all.1 == rest.1
  }

  /** What a call of ReadRecord leaves to be read. */
  lemma ReadStep(sight: seq<Log.Seen>)
    ensures var a := Log.Assemble(sight, [], false);
      Log.ReadAll(sight) == if a.record.None? then ([], a.reports)
        else ([a.record.value] + Log.ReadAll(sight[a.used..]).0, a.reports + Log.ReadAll(sight[a.used..]).1)
  {
  }

  lemma HalfwayStep(all: (seq<Bytes>, seq<nat>), done: seq<Bytes>, rest: (seq<Bytes>, seq<nat>), record: Bytes, more: (seq<Bytes>, seq<nat>))
    requires Halfway(all, done, rest) && rest == ([record] + more.0, [] + more.1)
    ensures Halfway(all, done + [record], more)
  {
    assert done + ([record] + more.0) == done + [record] + more.0;
  }

  /** Recover's loop over the records. */
  method ReadManifest(seal: Log.Seal, catalog: Meta -> File, comparator: Bytes, file: Bytes, b: Builder)
    returns (failure: Option<Failure>, c: Counters, ghost es: seq<VersionEdit>)
    requires b.Valid() && forall l :: 0 <= l < NUM_LEVELS ==> b.levels[l] == Blank
    modifies b
    ensures Holds(catalog, old(b.compactPointers), es, b, c)
    ensures failure.None? ==> ReadsAs(seal, file).1 == [] && AcceptAll(ReadsAs(seal, file).0, comparator) == Ok(es)
    ensures failure.Some? ==> ReadsAs(seal, file).1 != [] || AcceptAll(ReadsAs(seal, file).0, comparator) == Err(failure.value)
  {
    var reader := new Log.Reader(seal, file);
    ghost var all, done: seq<Bytes> := ReadsAs(seal, file), [];
    failure, c, es := None, Counters(None, None, None, None), [];
    while true
      invariant reader.Valid() && fresh(reader) && reader.seal == seal && reader.file == file && reader.reports == []
      invariant Halfway(all, done, Log.ReadAll(Log.Sight(seal, file, reader.at)))
      invariant Holds(catalog, old(b.compactPointers), es, b, c) && AcceptAll(done, comparator) == Ok(es) && failure.None?
      decreases |Log.Sight(seal, file, reader.at)|
    {
      ghost var sight := Log.Sight(seal, file, reader.at);
      ReadStep(sight);
      var record := reader.ReadRecord();
      if reader.reports != [] {
        failure := Some(LogCorrupt);
        return;
      }
      if record.None? {
        assert done + [] == done;
        return;
      }
      ghost var rest := Log.ReadAll(Log.Sight(seal, file, reader.at));
      HalfwayStep(all, done, Log.ReadAll(sight), record.value, rest);
      AcceptSnoc(done, record.value, comparator);
      done := done + [record.value];
      failure, c, es := TakeRecord(catalog, comparator, record.value, b, c, old(b.compactPointers), es);
      if failure.Some? {
        RefusedStays(done, rest.0, comparator);
        return;
      }
    }
  }

  /** What the builder saves is what the edits make of its base. */
  method SaveReplayed(catalog: Meta -> File, b: Builder, ghost keys: seq<Bytes>, ghost es: seq<VersionEdit>, c: Counters)
    returns (v: Version)
    requires Holds(catalog, keys, es, b, c)
    ensures Saved(b.base, LiftAll(catalog, es), v)
  {
    v := b.SaveTo();
  }

  /** The failure, if any, that Recover owes to what its reader returned and reported. */
  ghost predicate Decides(all: (seq<Bytes>, seq<nat>), comparator: Bytes, failure: Option<Failure>, es: seq<VersionEdit>) {
    && (failure.None? ==> all.1 == [] && Verdict(all.0, comparator) == Ok(es))
    && (failure.Some? ==> all.1 != [] || Verdict(all.0, comparator) == Err(failure.value))
  }

  lemma Decide(all: (seq<Bytes>, seq<nat>), comparator: Bytes, failure: Option<Failure>, es: seq<VersionEdit>)
    requires failure.None? ==> all.1 == [] && AcceptAll(all.0, comparator) == Ok(es)
    requires failure.Some? ==> all.1 != [] || AcceptAll(all.0, comparator) == Err(failure.value)
    ensures Decides(all, comparator, if failure.Some? then failure else Missing(Counted(es)), es)
  {
  }

  // ---------- the snapshot a manifest begins with ----------

  const NoFiles: Version := [[], [], [], [], [], [], []]
  const NoKeys: seq<Bytes> := [[], [], [], [], [], [], []]

  /** FileMetaData of a table, given the encoding of internal keys. */
  function MetaOf(key: InternalKey -> Bytes, f: File): Meta {
    Meta(f.number, f.size, key(Smallest(f)), key(Largest(f)))
  }

  /** The table can be found again from what a record says of it. */
  predicate Described(catalog: Meta -> File, key: InternalKey -> Bytes, f: File) {
    catalog(MetaOf(key, f)) == f && MetaOk(MetaOf(key, f))
  }

  ghost predicate DistinctNumbers(level: Level) {
    forall f, g {:trigger SameNumber(f, g)} :: f in level && g in level && SameNumber(f, g) ==> f == g
  }

  ghost predicate LevelOk(catalog: Meta -> File, key: InternalKey -> Bytes, level: Level) {
    && Ordered(level) && DistinctNumbers(level)
    && forall f {:trigger Described(catalog, key, f)} {:trigger f in level} :: f in level ==> Described(catalog, key, f)
  }

  ghost predicate LevelsOk(catalog: Meta -> File, key: InternalKey -> Bytes, v: Version) {
    |v| == NUM_LEVELS && forall l :: 0 <= l < NUM_LEVELS ==> LevelOk(catalog, key, v[l])
  }

  function FilesOf(key: InternalKey -> Bytes, level: Level, l: nat): (r: seq<NewFile>)
    ensures |r| == |level|
  {
    seq(|level|, i requires 0 <= i < |level| => NewFile(l, MetaOf(key, level[i])))
  }

  /** The files of the first `n` levels. */
  function SnapshotFiles(key: InternalKey -> Bytes, v: Version, n: nat): seq<NewFile>
    requires n <= |v|
  {
    if n == 0 then [] else SnapshotFiles(key, v, n - 1) + FilesOf(key, v[n - 1], n - 1)
  }

  function SnapshotPointers(keys: seq<Bytes>, n: nat): seq<Pointer>
    requires n <= |keys|
  {
    if n == 0 then []
    else SnapshotPointers(keys, n - 1) + if keys[n - 1] == [] then [] else [Pointer(n - 1, keys[n - 1])]
  }

  function Snapshot(comparator: Bytes, key: InternalKey -> Bytes, keys: seq<Bytes>, v: Version): VersionEdit
    requires |keys| == |v| == NUM_LEVELS
  {
    VersionEdit(Some(comparator), None, None, None, None,
                SnapshotPointers(keys, |keys|), [], SnapshotFiles(key, v, |v|))
  }

  /** WriteSnapshot up to the encoding. */
  method MakeSnapshot(comparator: Bytes, key: InternalKey -> Bytes, keys: seq<Bytes>, v: Version) returns (e: VersionEdit)
    requires |keys| == |v| == NUM_LEVELS
    ensures e == Snapshot(comparator, key, keys, v)
  {
    var pointers, files := [], [];
    for level := 0 to |keys|
      invariant pointers == SnapshotPointers(keys, level)
    {
      if keys[level] != [] {
        pointers := pointers + [Pointer(level, keys[level])];
      }
    }
    for level := 0 to |v|
      invariant files == SnapshotFiles(key, v, level)
    {
      ghost var before := files;
      for i := 0 to |v[level]|
        invariant files == before + FilesOf(key, v[level], level)[..i]
      {
        files := files + [NewFile(level, MetaOf(key, v[level][i]))];
      }
      assert FilesOf(key, v[level], level)[..|v[level]|] == FilesOf(key, v[level], level);
    }
    e := VersionEdit(Some(comparator), None, None, None, None, pointers, [], files);
  }

  lemma {:induction false} PointersFit(keys: seq<Bytes>, n: nat)
    requires n <= |keys| <= NUM_LEVELS && forall l :: 0 <= l < |keys| ==> keys[l] == [] || KeyOk(keys[l])
    ensures forall p :: p in SnapshotPointers(keys, n) ==> Sized(CompactPointer(p))
  {
    if n > 0 { PointersFit(keys, n - 1); }
  }

  lemma {:induction false} FilesFit(catalog: Meta -> File, key: InternalKey -> Bytes, v: Version, n: nat)
    requires LevelsOk(catalog, key, v) && n <= NUM_LEVELS
    ensures forall x :: x in SnapshotFiles(key, v, n) ==> Sized(AddedFile(x))
  {
    if n > 0 {
      FilesFit(catalog, key, v, n - 1);
      var here := FilesOf(key, v[n - 1], n - 1);
      forall i | 0 <= i < |here| ensures Sized(AddedFile(here[i])) {
        assert LevelOk(catalog, key, v[n - 1]) && v[n - 1][i] in v[n - 1];
        assert Described(catalog, key, v[n - 1][i]);
      }
    }
  }

  lemma PointedSnoc(keys: seq<Bytes>, ps: seq<Pointer>, p: Pointer)
    requires p.level < |keys|
    ensures Pointed(keys, ps + [p]) == Pointed(keys, ps)[p.level := p.key]
  {
    assert (ps + [p])[..|ps|] == ps;
  }

  lemma OneMoreKey(keys: seq<Bytes>, none: seq<Bytes>, l: nat)
    requires l < |keys| == |none|
    ensures (keys[..l] + none[l..])[l := keys[l]] == keys[..l + 1] + none[l + 1..]
    ensures none[l] == keys[l] ==> keys[..l] + none[l..] == keys[..l + 1] + none[l + 1..]
  {
  }

  /** The compaction pointers come back from the snapshot. */
  lemma {:induction false} PointersReturn(keys: seq<Bytes>, n: nat)
    requires n <= |keys| == NUM_LEVELS
    ensures Pointed(NoKeys, SnapshotPointers(keys, n)) == keys[..n] + NoKeys[n..]
  {
    if n > 0 {
      PointersReturn(keys, n - 1);
      OneMoreKey(keys, NoKeys, n - 1);
      var front := SnapshotPointers(keys, n - 1);
      assert front + [] == front;
      if keys[n - 1] != [] { PointedSnoc(NoKeys, front, Pointer(n - 1, keys[n - 1])); }
    }
  }

  /** The snapshot's files, looked up. */
  function Restored(v: Version, n: nat): seq<Added>
    requires n <= |v|
  {
    if n == 0 then []
    else Restored(v, n - 1) + seq(|v[n - 1]|, i requires 0 <= i < |v[n - 1]| => Added(n - 1, v[n - 1][i]))
  }

  function Looked(catalog: Meta -> File, ns: seq<NewFile>): (r: seq<Added>)
    ensures |r| == |ns|
  {
    seq(|ns|, i requires 0 <= i < |ns| => Added(ns[i].level, catalog(ns[i].meta)))
  }

  lemma {:induction false} LooksUp(catalog: Meta -> File, key: InternalKey -> Bytes, v: Version, n: nat)
    requires LevelsOk(catalog, key, v) && n <= NUM_LEVELS
    ensures Looked(catalog, SnapshotFiles(key, v, n)) == Restored(v, n)
  {
    if n > 0 {
      LooksUp(catalog, key, v, n - 1);
      var here := FilesOf(key, v[n - 1], n - 1);
      forall i | 0 <= i < |here| ensures catalog(here[i].meta) == v[n - 1][i] {
        assert LevelOk(catalog, key, v[n - 1]) && v[n - 1][i] in v[n - 1];
        assert Described(catalog, key, v[n - 1][i]);
      }
      assert Looked(catalog, SnapshotFiles(key, v, n - 1) + here) == Looked(catalog, SnapshotFiles(key, v, n - 1)) + Looked(catalog, here);
    }
  }

  /** Files of one level are added in order and under distinct numbers. */
  ghost predicate InOrder(adds: seq<Added>) {
    forall i, j {:trigger adds[i], adds[j]} :: 0 <= i < j < |adds| && adds[i].level == adds[j].level ==>
      BySmallest(adds[i].file, adds[j].file) && adds[i].file.number != adds[j].file.number
  }

  lemma {:induction false} RestoredFacts(catalog: Meta -> File, key: InternalKey -> Bytes, v: Version, n: nat)
    requires LevelsOk(catalog, key, v) && n <= NUM_LEVELS
    ensures InOrder(Restored(v, n))
    ensures forall a :: a in Restored(v, n) <==> a.level < n && a.file in v[a.level]
  {
    if n > 0 {
      RestoredFacts(catalog, key, v, n - 1);
      var front, level := Restored(v, n - 1), v[n - 1];
      var here := seq(|level|, i requires 0 <= i < |level| => Added(n - 1, level[i]));
      assert InOrder(here) by {
        forall i, j | 0 <= i < j < |level| ensures BySmallest(level[i], level[j]) && level[i].number != level[j].number {
          assert LevelOk(catalog, key, level);
          assert BySmallest(level[i], level[j]);
          DifferentNumbers(level, level[i], level[j]);
        }
      }
      JoinInOrder(front, here, n - 1);
      forall f ensures Added(n - 1, f) in here <==> f in level {
        if f in level { var i :| 0 <= i < |level| && level[i] == f; assert here[i] == Added(n - 1, f); }
      }
    }
  }

  lemma DifferentNumbers(level: Level, f: File, g: File)
    requires DistinctNumbers(level) && f in level && g in level && BySmallest(f, g)
    ensures f.number != g.number
  {
    var same := SameNumber(f, g);
  }

  lemma JoinInOrder(front: seq<Added>, here: seq<Added>, l: nat)
    requires InOrder(front) && InOrder(here)
    requires (forall a :: a in front ==> a.level < l) && (forall a :: a in here ==> a.level == l)
    ensures InOrder(front + here)
  {
    var all := front + here;
    forall i, j | 0 <= i < j < |all|
      ensures all[i].level == all[j].level ==>
                BySmallest(all[i].file, all[j].file) && all[i].file.number != all[j].file.number
    {
      if i < |front| <= j { assert all[i] in front && all[j] in here; }
    }
  }

  lemma InOrderIsFresh(e: Edit, l: nat)
    requires InOrder(e.added)
    ensures NoTwins([], e.added, l) && AllFresh([], [e], l)
  {
    forall i, j | 0 <= j < i < |e.added| && e.added[i].level == l && e.added[j].level == l
      ensures !Twins(e.added[i].file, e.added[j].file)
    {
      assert BySmallest(e.added[j].file, e.added[i].file);
    }
    forall i, k | 0 <= i < |[e]| && 0 <= k < |[e][i].added| ensures FreshNumber([], [e], l, i, k) {
    }
  }

  /** Applied to nothing, the snapshot gives the version. */
  lemma SnapshotInstalls(catalog: Meta -> File, key: InternalKey -> Bytes, v: Version, e: Edit, l: nat)
    requires LevelsOk(catalog, key, v) && l < NUM_LEVELS && e.added == Restored(v, |v|) && e.deleted == []
    ensures Installs([], e, l, v[l]) && AllFresh([], [e], l)
  {
    RestoredFacts(catalog, key, v, |v|);
    InOrderIsFresh(e, l);
    AppliedFacts(Blank, e, l);
    assert LevelOk(catalog, key, v[l]);
    forall f ensures f in v[l] <==> Kept([], Applied(Blank, e, l), f) {
      assert Added(l, f) in e.added <==> f in v[l];
    }
  }
}
