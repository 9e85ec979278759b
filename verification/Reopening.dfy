/** Opening a database (DB::Open, DBImpl::Recover, VersionSet::Recover): reading CURRENT and the
    manifest it names, turning the logs into level-0 tables, starting a new log, writing a new manifest
    and switching CURRENT. The process may die after any of these steps. */
module Reopening {
  import opened DbFormat
  import opened Mvcc
  import opened Version
  import opened Lookup
  import opened Compaction
  import opened Edits
  import opened Engine

  datatype Phase = Closed | Replaying | LogMade | ManifestMade | Switched

  /** A database that is not open, or being opened. `runs` are the stretches of log entries already
      turned into `tables`; `newLog` and `manifestFile` are the numbers of the files being made. */
  datatype Opening = Opening(
    disk: Disk, history: set<Entry>, phase: Phase,
    runs: seq<seq<Entry>>, tables: seq<File>, nextFile: nat, newLog: nat, manifestFile: nat, lastSequence: nat)

  datatype World = Up(s: State) | Down(o: Opening)

  function ClosedOn(d: Disk, history: set<Entry>): Opening {
    Opening(d, history, Closed, [], [], 0, 0, 0, 0)
  }

  /** The logs numbered lo up to hi, in order. */
  ghost function LogsFrom(logs: map<nat, seq<Batch>>, lo: nat, hi: nat): seq<Batch>
    decreases hi - lo
  {
    if lo >= hi then [] else (if lo in logs then logs[lo] else []) + LogsFrom(logs, lo + 1, hi)
  }

  ghost predicate Beyond(logs: map<nat, seq<Batch>>, hi: nat) {
    forall n :: n in logs ==> n < hi
  }

  /** What the logs from the manifest's log number on hold, for any bound past all logs. */
  ghost function ToReplay(d: Disk, hi: nat): seq<Entry> {
    Flatten(LogsFrom(d.logs, ManifestOf(d).logNumber, hi))
  }

  function AddAll0(v: Version, fs: seq<File>): (w: Version)
    requires |v| > 0
    ensures |w| == |v|
  {
    if fs == [] then v else AddAt(AddAll0(v, fs[..|fs| - 1]), 0, fs[|fs| - 1])
  }

  // ---------- the steps ----------

  /** The process dies, open or not. A batch that reached the log counts as written. */
  ghost predicate Crash(w: World, w': World) {
    w' == Down(match w
               case Up(s) => ClosedOn(s.disk, s.history + SetOf(s.inflight))
               case Down(o) => ClosedOn(o.disk, o.history))
  }

  /** VersionSet::Recover: the manifest's file counter becomes the number of the next manifest. */
  ghost predicate ReadManifest(o: Opening, o': Opening) {
    && o.phase.Closed? && |ManifestOf(o.disk).version| > 0
    && var next := ManifestOf(o.disk).nextFile;
       o' == o.(phase := Replaying, runs := [], tables := [], nextFile := next + 1, manifestFile := next)
  }

  /** A table under a new number holds anything until it is finished. */
  ghost predicate TearTable(o: Opening, o': Opening, n: nat, partial: seq<Entry>) {
    && o.phase.Replaying? && n >= o.nextFile
    && o' == o.(disk := o.disk.(tables := o.disk.tables[n := partial]))
  }

  /** RecoverLogFile: the next stretch of log entries becomes a table. File numbers may be skipped,
      as the numbers of the logs read are marked used. */
  ghost predicate ReplayTable(o: Opening, o': Opening, run: seq<Entry>, f: File, next: nat) {
    && o.phase.Replaying? && o.nextFile <= f.number < next
    && SetOf(f.entries) == SetOf(run)
    && (exists hi :: Beyond(o.disk.logs, hi) && Flatten(o.runs + [run]) <= ToReplay(o.disk, hi))
    && o' == o.(runs := o.runs + [run], tables := o.tables + [f], nextFile := next,
                disk := o.disk.(tables := o.disk.tables[f.number := f.entries]))
  }

  /** All logs are replayed, and a new log starts. `last` is the larger of the manifest's last
      sequence number and the logs'. */
  ghost predicate CreateLog(o: Opening, o': Opening, n: nat, last: nat) {
    && o.phase.Replaying? && n >= o.nextFile && Beyond(o.disk.logs, n)
    && Flatten(o.runs) == ToReplay(o.disk, n)
    && last >= ManifestOf(o.disk).lastSequence
    && (forall e :: e in ToReplay(o.disk, n) ==> e.ik.num <= last)
    && (last == ManifestOf(o.disk).lastSequence || exists e :: e in ToReplay(o.disk, n) && e.ik.num == last)
    && o' == o.(phase := LogMade, newLog := n, nextFile := n + 1, lastSequence := last,
                disk := o.disk.(logs := o.disk.logs[n := []]))
  }

  /** The manifest of the reopened database. */
  function NewManifest(o: Opening): Manifest
    requires |ManifestOf(o.disk).version| > 0
  {
    Manifest(AddAll0(ManifestOf(o.disk).version, o.tables), o.newLog, o.nextFile, o.lastSequence)
  }

  /** LogAndApply writes a snapshot and the edit to a new manifest; until it is done the file does
      not replay to anything. */
  ghost predicate WriteManifest(o: Opening, o': Opening, complete: bool) {
    && o.phase.LogMade? && |ManifestOf(o.disk).version| > 0
    && o' == o.(phase := if complete then ManifestMade else LogMade,
                disk := o.disk.(manifests :=
                  o.disk.manifests[o.manifestFile := if complete then Some(NewManifest(o)) else None]))
  }

  /** SetCurrentFile renames a temporary file over CURRENT. */
  ghost predicate SwitchCurrent(o: Opening, o': Opening) {
    && o.phase.ManifestMade?
    && o' == o.(phase := Switched, disk := o.disk.(current := o.manifestFile))
  }

  /** DB::Open returns. */
  ghost predicate FinishOpen(o: Opening, s': State) {
    && o.phase.Switched?
    && s' == State([], None, ManifestOf(o.disk).version, [], o.lastSequence, o.nextFile, o.newLog, o.manifestFile,
                   [], None, {}, o.disk, o.history)
  }

  ghost predicate OpenStep(o: Opening, o': Opening) {
    || ReadManifest(o, o')
    || (exists n, partial :: TearTable(o, o', n, partial))
    || (exists run, f, next :: ReplayTable(o, o', run, f, next))
    || (exists n, last :: CreateLog(o, o', n, last))
    || (exists complete :: WriteManifest(o, o', complete))
    || SwitchCurrent(o, o')
  }

  ghost predicate Step(w: World, w': World) {
    || Crash(w, w')
    || (w.Up? && w'.Up? && Next(w.s, w'.s))
    || (w.Down? && w'.Down? && OpenStep(w.o, w'.o))
    || (w.Down? && w'.Up? && FinishOpen(w.o, w'.s))
  }

  // ---------- what the disk alone has to say ----------

  /** Tables and logs together read, for the newest reader, as the history does. */
  ghost predicate Serves(m: Manifest, entries: seq<Entry>, history: set<Entry>) {
    && Rising(entries) && NewerRun(entries, Contents(m.version))
    && Contents(m.version) + SetOf(entries) <= history
    && (forall user :: Read(Contents(m.version) + SetOf(entries), user, MAX_SEQUENCE) == Read(history, user, MAX_SEQUENCE))
    && (forall e :: e in Contents(m.version) ==> e.ik.num <= m.lastSequence)
    && (forall e :: e in history && e.ik.num > m.lastSequence ==> e in entries)
  }

  /** From these files alone the database can be opened again with nothing lost. */
  ghost predicate DiskOk(d: Disk, history: set<Entry>) {
    var m := ManifestOf(d);
    && HasManifest(d) && d.current < m.nextFile && m.logNumber < m.nextFile && m.lastSequence < MAX_SEQUENCE
    && VersionOk(m.version) && LiveTables(d.tables, m.version, m.nextFile)
    && Functional(history) && (forall e :: e in history ==> e.ik.num < MAX_SEQUENCE)
    && forall hi {:trigger Beyond(d.logs, hi)} :: Beyond(d.logs, hi) ==> Serves(m, ToReplay(d, hi), history)
  }

  /** The tables made so far hold the entries of the runs, under increasing new numbers. */
  ghost predicate Replayed(runs: seq<seq<Entry>>, fs: seq<File>, from: nat) {
    && |fs| == |runs|
    && (forall i :: 0 <= i < |fs| ==> SetOf(fs[i].entries) == SetOf(runs[i]) && fs[i].number >= from)
    && (forall i, j :: 0 <= i < j < |fs| ==> fs[i].number < fs[j].number)
  }

  ghost predicate ReplayOk(o: Opening) {
    var m := ManifestOf(o.disk);
    && o.manifestFile == m.nextFile < o.nextFile
    && Replayed(o.runs, o.tables, m.nextFile + 1)
    && (forall f :: f in o.tables ==>
          f.number < o.nextFile && f.number in o.disk.tables && o.disk.tables[f.number] == f.entries)
    && forall hi {:trigger Beyond(o.disk.logs, hi)} :: Beyond(o.disk.logs, hi) ==> Flatten(o.runs) <= ToReplay(o.disk, hi)
  }

  /** All logs are replayed and the newest one is new and empty. */
  ghost predicate LogReady(o: Opening) {
    && o.newLog in o.disk.logs && o.disk.logs[o.newLog] == [] && Beyond(o.disk.logs, o.newLog + 1)
    && ManifestOf(o.disk).logNumber <= o.newLog < o.nextFile
    && Flatten(o.runs) == ToReplay(o.disk, o.newLog + 1)
    && ManifestOf(o.disk).lastSequence <= o.lastSequence < MAX_SEQUENCE
    && forall e :: e in Flatten(o.runs) ==> e.ik.num <= o.lastSequence
  }

  /** CURRENT names the new manifest, which knows the new log and no other. */
  ghost predicate OpenReady(o: Opening) {
    && o.disk.current == o.manifestFile && ManifestOf(o.disk).logNumber == o.newLog
    && ManifestOf(o.disk).nextFile == o.nextFile && ManifestOf(o.disk).lastSequence == o.lastSequence
    && o.newLog in o.disk.logs && o.disk.logs[o.newLog] == [] && Beyond(o.disk.logs, o.newLog + 1)
  }

  ghost predicate OpeningOk(o: Opening) {
    && DiskOk(o.disk, o.history)
    && match o.phase
       case Closed => true
       case Replaying => ReplayOk(o)
       case LogMade => ReplayOk(o) && LogReady(o)
       case ManifestMade =>
         ReplayOk(o) && LogReady(o)
         && o.manifestFile in o.disk.manifests && o.disk.manifests[o.manifestFile] == Some(NewManifest(o))
       case Switched => OpenReady(o)
  }

  ghost predicate WorldOk(w: World) {
    match w
    case Up(s) => Inv(s)
    case Down(o) => OpeningOk(o)
  }
}
