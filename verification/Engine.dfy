/** The storage engine as a state machine (db/db_impl.cc, db/version_set.cc): writes, memtable
    switches, flushes, trivial moves, compactions, snapshots, file removal, crash and reopen.
    Its inductive invariant says that every snapshot still readable reads what the history of
    acknowledged writes says it should. */
module Engine {
  import opened DbFormat
  import opened Mvcc
  import opened Version
  import opened Lookup
  import opened Picking
  import opened Compaction
  import opened Edits
  import opened Interleaving

  /** A compaction between the choice of its inputs and the installation of its results, with the
      output files finished so far. */
  datatype Job = Job(level: nat, in0: seq<File>, in1: seq<File>, smallest: nat, base: Version, outputs: seq<File>)

  /** What replaying the manifest yields. */
  datatype Manifest = Manifest(version: Version, logNumber: nat, nextFile: nat, lastSequence: nat)

  type Batch = seq<Entry>

  /** Files that survive a crash of the process: tables, write-ahead logs, manifests, and CURRENT,
      which names one of them. A manifest that does not replay yet is None. */
  datatype Disk = Disk(tables: map<nat, seq<Entry>>, logs: map<nat, seq<Batch>>,
                       manifests: map<nat, Option<Manifest>>, current: nat)

  ghost predicate HasManifest(d: Disk) { d.current in d.manifests && d.manifests[d.current].Some? }

  /** What the manifest named by CURRENT says. */
  function ManifestOf(d: Disk): Manifest {
    if d.current in d.manifests && d.manifests[d.current].Some? then d.manifests[d.current].value
    else Manifest([], 0, 0, 0)
  }

  /** A record is appended to the current manifest; torn, it would not be read. */
  function WithManifest(d: Disk, m: Manifest): Disk {
    d.(manifests := d.manifests[d.current := Some(m)])
  }

  /** `inflight` is the batch that is logged but not yet applied and acknowledged; `history` is the
      set of all acknowledged entries, which no code reads. */
  datatype State = State(
    mem: seq<Entry>, imm: Option<seq<Entry>>, version: Version,
    snapshots: seq<nat>, lastSequence: nat, nextFile: nat, logFile: nat, manifestFile: nat,
    inflight: Batch, job: Option<Job>, pendingOutputs: set<nat>,
    disk: Disk, history: set<Entry>)

  ghost function StoreOf(s: State): set<Entry> { Store(s.mem, s.imm, s.version) }

  /** The smallest snapshot a compaction has to respect. */
  function Horizon(s: State): nat {
    if s.snapshots == [] then s.lastSequence else s.snapshots[0]
  }

  // ---------- the invariant ----------

  ghost predicate SnapshotsOk(s: State) {
    && (forall i, j :: 0 <= i < j < |s.snapshots| ==> s.snapshots[i] <= s.snapshots[j])
    && (forall i :: 0 <= i < |s.snapshots| ==> s.snapshots[i] <= s.lastSequence)
  }

  ghost predicate HistoryOk(s: State) {
    && Functional(s.history) && StoreOf(s) <= s.history
    && s.lastSequence < MAX_SEQUENCE
    && forall e :: e in s.history ==> e.ik.num <= s.lastSequence
  }

  /** What the engine stores and what was ever written agree for every reader that may come. */
  ghost predicate Agrees(store: set<Entry>, history: set<Entry>, from: nat) {
    forall user, snap :: snap >= from ==> Read(store, user, snap) == Read(history, user, snap)
  }

  ghost predicate InFlightOk(s: State) {
    && (forall i :: 0 <= i < |s.inflight| ==> s.inflight[i].ik.num == s.lastSequence + 1 + i)
    && s.lastSequence + |s.inflight| < MAX_SEQUENCE
  }

  /** The inputs of the running compaction stay a good pick while other work goes on, and the
      levels it judged to be empty below a key only gained newer data. */
  ghost predicate JobOk(s: State) {
    s.job.Some? ==>
      var j := s.job.value;
      && GoodPick(s.version, j.level, j.in0, j.in1) && j.smallest <= Horizon(s)
      && NewBelow(s.version, j.base, j.level, j.in0, j.in1)
  }

  /** The files of a version are on disk, under numbers the manifest knows. */
  ghost predicate LiveTables(tables: map<nat, seq<Entry>>, v: Version, nextFile: nat) {
    forall l, f {:trigger f in v[l]} :: 0 <= l < |v| && f in v[l] ==>
      f.number in tables && tables[f.number] == f.entries && f.number < nextFile
  }

  ghost predicate TablesOk(s: State) {
    && HasManifest(s.disk) && ManifestOf(s.disk).version == s.version
    && s.disk.current == s.manifestFile < ManifestOf(s.disk).nextFile
    && ManifestOf(s.disk).nextFile <= s.nextFile
    && LiveTables(s.disk.tables, s.version, ManifestOf(s.disk).nextFile)
    && (forall n :: n in s.pendingOutputs ==> n < s.nextFile)
    && (forall l, f {:trigger f in s.version[l]} :: 0 <= l < |s.version| && f in s.version[l] ==>
          f.number !in s.pendingOutputs)
  }

  /** The finished outputs of the running compaction are pending, distinct, and on disk. */
  ghost predicate OutputsOk(s: State) {
    s.job.Some? ==>
      var outs := s.job.value.outputs;
      && (forall i, k :: 0 <= i < k < |outs| ==> outs[i].number != outs[k].number)
      && forall o :: o in outs ==>
           o.number in s.pendingOutputs && o.number in s.disk.tables && s.disk.tables[o.number] == o.entries
  }

  /** Sequence numbers strictly increase along the log. */
  ghost predicate Rising(s: seq<Entry>) {
    forall i, j :: 0 <= i < j < |s| ==> s[i].ik.num < s[j].ik.num
  }

  ghost predicate LogHolds(log: seq<Batch>, S: set<Entry>) {
    Rising(Flatten(log)) && SetOf(Flatten(log)) == S
  }

  /** The logs from the manifest's log number on hold exactly the data in no table. */
  ghost predicate LogsOk(s: State) {
    var head := ManifestOf(s.disk).logNumber;
    && s.logFile in s.disk.logs && head in s.disk.logs && s.logFile < s.nextFile
    && (forall n :: n in s.disk.logs && n >= head ==> n == head || n == s.logFile)
    && LogHolds(s.disk.logs[s.logFile], SetOf(s.mem) + SetOf(s.inflight))
    && head < ManifestOf(s.disk).nextFile
    && (s.imm.None? ==> head == s.logFile)
    && (s.imm.Some? ==> head < s.logFile && LogHolds(s.disk.logs[head], SetOf(s.imm.value)))
    && (forall d, e :: d in ImmRun(s.imm) && (e in s.mem || e in s.inflight) ==> d.ik.num < e.ik.num)
  }

  /** The manifest's last sequence number covers all that the tables hold and all that is
      neither in a table nor in a log. */
  ghost predicate SequenceOk(s: State) {
    var m := ManifestOf(s.disk).lastSequence;
    && m <= s.lastSequence
    && (forall e :: e in Contents(s.version) ==> e.ik.num <= m)
    && (forall e :: e in s.history && e.ik.num > m ==> e in s.mem || e in ImmRun(s.imm))
  }

  ghost predicate Inv(s: State) {
    && VersionOk(s.version)
    && Stacked(s.mem, s.imm, s.version)
    && InRange(s.mem) && InRange(ImmRun(s.imm))
    && SnapshotsOk(s)
    && HistoryOk(s)
    && Agrees(StoreOf(s), s.history, Horizon(s))
    && InFlightOk(s)
    && JobOk(s)
    && TablesOk(s)
    && OutputsOk(s)
    && LogsOk(s)
    && SequenceOk(s)
  }

  // ---------- the steps ----------

  /** A freshly created and opened database. */
  ghost predicate Init(s: State) {
    && s.mem == [] && s.imm.None? && s.version == seq(NUM_LEVELS, _ => [])
    && s.snapshots == [] && s.lastSequence == 0 && s.inflight == [] && s.job.None? && s.pendingOutputs == {}
    && s.logFile < s.nextFile && s.manifestFile < s.nextFile && s.history == {}
    && s.disk == Disk(map[], map[s.logFile := []],
                      map[s.manifestFile := Some(Manifest(s.version, s.logFile, s.nextFile, 0))], s.manifestFile)
  }

  /** DBImpl::Write, first half: the group's batch reaches the log. */
  ghost predicate LogWrite(s: State, s': State, batch: Batch) {
    && s.inflight == [] && batch != [] && s.lastSequence + |batch| < MAX_SEQUENCE
    && (forall i :: 0 <= i < |batch| ==> batch[i].ik.num == s.lastSequence + 1 + i)
    && s' == s.(inflight := batch,
                disk := s.disk.(logs := s.disk.logs[s.logFile := LogOf(s.disk, s.logFile) + [batch]]))
  }

  function LogOf(d: Disk, n: nat): seq<Batch> { if n in d.logs then d.logs[n] else [] }

  /** DBImpl::Write, second half: insert into the memtable, publish the sequence, acknowledge. */
  ghost predicate ApplyWrite(s: State, s': State) {
    && s.inflight != []
    && s' == s.(mem := InsertAll(s.mem, s.inflight), lastSequence := s.lastSequence + |s.inflight|,
                history := s.history + SetOf(s.inflight), inflight := [])
  }

  /** MakeRoomForWrite: the memtable becomes immutable and a new log begins. */
  ghost predicate SwitchMemTable(s: State, s': State) {
    && s.imm.None? && s.inflight == []
    && s' == s.(imm := Some(s.mem), mem := [], logFile := s.nextFile, nextFile := s.nextFile + 1,
                disk := s.disk.(logs := s.disk.logs[s.nextFile := []]))
  }

  ghost predicate TakeSnapshot(s: State, s': State) {
    s' == s.(snapshots := s.snapshots + [s.lastSequence])
  }

  ghost predicate ReleaseSnapshot(s: State, s': State, i: nat) {
    i < |s.snapshots| && s' == s.(snapshots := s.snapshots[..i] + s.snapshots[i + 1..])
  }

  /** OpenCompactionOutputFile: a new number, protected by pending_outputs_, and a file that may
      hold anything until it is finished. */
  ghost predicate OpenOutput(s: State, s': State, partial: seq<Entry>) {
    s' == s.(nextFile := s.nextFile + 1, pendingOutputs := s.pendingOutputs + {s.nextFile},
             disk := s.disk.(tables := s.disk.tables[s.nextFile := partial]))
  }

  /** FinishCompactionOutputFile. */
  ghost predicate FinishOutput(s: State, s': State, f: File) {
    && s.job.Some? && f.number in s.pendingOutputs
    && (forall o :: o in s.job.value.outputs ==> o.number != f.number)
    && s' == s.(job := Some(s.job.value.(outputs := s.job.value.outputs + [f])),
                disk := s.disk.(tables := s.disk.tables[f.number := f.entries]))
  }

  function Recorded(s: State, v: Version, logNumber: nat, nextFile: nat): Manifest {
    Manifest(v, logNumber, nextFile, s.lastSequence)
  }

  /** CompactMemTable on a nonempty memtable. While a compaction runs, the table must not land
      between its inputs in the level the outputs go to. */
  ghost predicate Flush(s: State, s': State, level: nat, f: File) {
    && s.imm.Some? && f.entries == s.imm.value && f.number == s.nextFile
    && level < |s.version| && CanPlace(s.version, level, f)
    && (s.job.Some? && level == s.job.value.level + 1 ==> Clear(f, s.job.value.in0, s.job.value.in1))
    && var v := AddAt(s.version, level, f);
       s' == s.(imm := None, version := v, nextFile := s.nextFile + 1,
                disk := WithManifest(s.disk.(tables := s.disk.tables[f.number := f.entries]),
                                     Recorded(s, v, s.logFile, s.nextFile + 1)))
  }

  /** CompactMemTable on an empty memtable adds no file but retires the log. */
  ghost predicate FlushEmpty(s: State, s': State) {
    && s.imm == Some([])
    && s' == s.(imm := None, disk := WithManifest(s.disk, Recorded(s, s.version, s.logFile, s.nextFile)))
  }

  /** BackgroundCompaction's trivial move of one file to the next level. */
  ghost predicate TrivialMove(s: State, s': State, level: nat, f: File) {
    && s.job.None? && GoodPick(s.version, level, [f], [])
    && var v := Replace(s.version, level, [f], [], [f]);
       s' == s.(version := v, disk := WithManifest(s.disk, Recorded(s, v, ManifestOf(s.disk).logNumber, s.nextFile)))
  }

  /** A compaction starts: inputs, smallest snapshot and input version are fixed. */
  ghost predicate StartCompaction(s: State, s': State, j: Job) {
    && s.job.None? && GoodPick(s.version, j.level, j.in0, j.in1)
    && j.smallest == Horizon(s) && j.base == s.version && j.outputs == []
    && s' == s.(job := Some(j))
  }

  /** What DoCompactionWork has made of the inputs when it is done. */
  ghost predicate IsResult(j: Job) {
    && (forall i, k :: 0 <= i < k < |j.outputs| ==> Before(j.outputs[i], j.outputs[k]))
    && HoldSurvivors(j.base, j.level, j.smallest, j.in0, j.in1, j.outputs)
  }

  /** The compaction brings no deleted key back to life. */
  ghost predicate Harmless(s: State, j: Job) {
    forall user :: !Resurrects(StoreOf(s), InputEntries(j.in0, j.in1), j.base, j.level, j.smallest, user)
  }

  /** InstallCompactionResults. */
  ghost predicate InstallCompaction(s: State, s': State) {
    && s.job.Some?
    && var j := s.job.value;
       && j.level + 1 < |s.version| && IsResult(j) && Harmless(s, j)
       && var v := Replace(s.version, j.level, j.in0, j.in1, j.outputs);
          s' == s.(version := v, job := None, pendingOutputs := s.pendingOutputs - Numbers(j.outputs),
                   disk := WithManifest(s.disk, Recorded(s, v, ManifestOf(s.disk).logNumber, s.nextFile)))
  }

  /** A compaction ends without results. */
  ghost predicate AbandonCompaction(s: State, s': State, numbers: set<nat>) {
    s' == s.(job := None, pendingOutputs := s.pendingOutputs - numbers)
  }

  /** RemoveObsoleteFiles: tables neither live nor pending, logs and manifests older than the ones
      in use. */
  ghost predicate RemoveObsoleteFiles(s: State, s': State, tables: set<nat>, logs: set<nat>, manifests: set<nat>) {
    && (forall n :: n in tables ==> n !in s.pendingOutputs)
    && (forall l, f {:trigger f in s.version[l]} :: 0 <= l < |s.version| && f in s.version[l] ==> f.number !in tables)
    && (forall n :: n in logs ==> n < ManifestOf(s.disk).logNumber)
    && (forall n :: n in manifests ==> n < s.manifestFile)
    && s' == s.(disk := s.disk.(tables := s.disk.tables - tables, logs := s.disk.logs - logs,
                                manifests := s.disk.manifests - manifests))
  }

  ghost predicate Next(s: State, s': State) {
    || (exists batch :: LogWrite(s, s', batch))
    || ApplyWrite(s, s')
    || SwitchMemTable(s, s')
    || TakeSnapshot(s, s')
    || (exists i :: ReleaseSnapshot(s, s', i))
    || (exists partial :: OpenOutput(s, s', partial))
    || (exists f :: FinishOutput(s, s', f))
    || (exists level, f :: Flush(s, s', level, f))
    || FlushEmpty(s, s')
    || (exists level, f :: TrivialMove(s, s', level, f))
    || (exists j :: StartCompaction(s, s', j))
    || InstallCompaction(s, s')
    || (exists numbers :: AbandonCompaction(s, s', numbers))
    || (exists tables, logs, manifests :: RemoveObsoleteFiles(s, s', tables, logs, manifests))
  }
}
