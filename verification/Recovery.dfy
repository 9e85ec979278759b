/** Crashing and reopening, step by step: the files on disk always suffice to bring back every
    acknowledged write, and the batch in flight if it reached the log, and nothing else. */
module Recovery {
  import opened DbFormat
  import opened Mvcc
  import opened Version
  import opened Lookup
  import opened Compaction
  import opened Edits
  import opened Engine
  import opened EngineInvariant
  import opened Reopening

  lemma {:induction false} FlattenConcat(a: seq<seq<Entry>>, b: seq<seq<Entry>>)
    ensures Flatten(a + b) == Flatten(a) + Flatten(b)
    decreases |b|
  {
    if b == [] {
      assert a + b == a;
    } else {
      var front, last := b[..|b| - 1], b[|b| - 1];
      FlattenConcat(a, front);
      assert a + b == (a + front) + [last];
      FlattenSnoc(a + front, last);
      FlattenSnoc(front, last);
      assert b == front + [last];
    }
  }

  lemma {:induction false} LogsFromSkip(logs: map<nat, seq<Batch>>, lo: nat, mid: nat, hi: nat)
    requires lo <= mid <= hi && forall n :: lo <= n < mid ==> n !in logs
    ensures LogsFrom(logs, lo, hi) == LogsFrom(logs, mid, hi)
    decreases mid - lo
  {
    if lo < mid { LogsFromSkip(logs, lo + 1, mid, hi); }
  }

  /** An empty log adds nothing. */
  lemma {:induction false} LogsFromEmpty(logs: map<nat, seq<Batch>>, n: nat, lo: nat, hi: nat)
    requires n !in logs
    ensures LogsFrom(logs[n := []], lo, hi) == LogsFrom(logs, lo, hi)
    decreases hi - lo
  {
    if lo < hi { LogsFromEmpty(logs, n, lo + 1, hi); }
  }

  /** Logs past the bound do not exist. */
  lemma {:induction false} LogsFromBeyond(logs: map<nat, seq<Batch>>, lo: nat, a: nat, b: nat)
    requires a <= b && Beyond(logs, a)
    ensures LogsFrom(logs, lo, a) == LogsFrom(logs, lo, b)
    decreases b - lo
  {
    if lo < a {
      LogsFromBeyond(logs, lo + 1, a, b);
    } else if lo < b {
      LogsFromBeyond(logs, lo + 1, a, b);
    }
  }

  lemma SameBound(d: Disk, a: nat, b: nat)
    requires Beyond(d.logs, a) && Beyond(d.logs, b)
    ensures ToReplay(d, a) == ToReplay(d, b)
  {
    if a <= b { LogsFromBeyond(d.logs, ManifestOf(d).logNumber, a, b); }
    else { LogsFromBeyond(d.logs, ManifestOf(d).logNumber, b, a); }
  }

  /** Reading the log directory from the manifest's log number on finds the log of the immutable
      memtable, if there is one, and then the current log. */
  lemma LogsToReplay(s: State, hi: nat)
    requires LogsOk(s) && Beyond(s.disk.logs, hi)
    ensures var entries := ToReplay(s.disk, hi);
      Rising(entries) && SetOf(entries) == SetOf(ImmRun(s.imm)) + SetOf(s.mem) + SetOf(s.inflight)
  {
    var logs, head, cur := s.disk.logs, ManifestOf(s.disk).logNumber, s.logFile;
    LogsFromSkip(logs, cur + 1, hi, hi);
    assert LogsFrom(logs, cur, hi) == logs[cur] + [] == logs[cur];
    if s.imm.Some? {
      LogsFromSkip(logs, head + 1, cur, hi);
      assert LogsFrom(logs, head, hi) == logs[head] + logs[cur];
      FlattenConcat(logs[head], logs[cur]);
      var a, b := Flatten(logs[head]), Flatten(logs[cur]);
      SetOfConcat(a, b);
      forall d, e | d in a && e in b ensures d.ik.num < e.ik.num {
        assert d in SetOf(a) && e in SetOf(b);
      }
      RisingAppend(a, b);
    }
  }

  /** The numbers of the version's files come from it or from the replayed tables. */
  ghost predicate FilesFrom(w: Version, v: Version, fs: seq<File>) {
    |w| == |v| && forall l, f {:trigger f in w[l]} :: 0 <= l < |w| && f in w[l] ==> f in v[l] || f in fs
  }

  /** The i-th replayed table is newer than the version built so far. */
  lemma NextIsNewest(v: Version, w: Version, before: seq<Entry>, run: seq<Entry>, fs: seq<File>, f: File, from: nat)
    requires Contents(w) == Contents(v) + SetOf(before) && FilesFrom(w, v, fs)
    requires Rising(before + run) && NewerRun(run, Contents(v)) && SetOf(f.entries) == SetOf(run)
    requires forall l, g {:trigger g in v[l]} :: 0 <= l < |v| && g in v[l] ==> g.number < from
    requires f.number >= from && forall g :: g in fs ==> g.number < f.number
    ensures NewestFile(w, f)
  {
    forall l, g | 0 <= l < |w| && g in w[l] ensures NewerThan(f, g) {
      forall d, e | d in f.entries && e in g.entries && d.ik.user == e.ik.user ensures d.ik.num > e.ik.num {
        Holds(w, l, g, e);
        assert d in SetOf(f.entries);
        assert d in run;
        if e in before {
          var i :| 0 <= i < |before| && before[i] == e;
          var j :| 0 <= j < |run| && run[j] == d;
          assert (before + run)[i] == e && (before + run)[|before| + j] == d;
        }
      }
    }
  }

  lemma {:induction false} ReplayKeepsVersion(v: Version, entries: seq<Entry>, runs: seq<seq<Entry>>, fs: seq<File>, from: nat)
    requires VersionOk(v) && Flatten(runs) == entries && Replayed(runs, fs, from)
    requires Rising(entries) && NewerRun(entries, Contents(v))
    requires forall l, g {:trigger g in v[l]} :: 0 <= l < |v| && g in v[l] ==> g.number < from
    ensures VersionOk(AddAll0(v, fs)) && FilesFrom(AddAll0(v, fs), v, fs)
    ensures Contents(AddAll0(v, fs)) == Contents(v) + SetOf(entries)
    decreases |fs|
  {
    if fs != [] {
      var n := |fs| - 1;
      var front, f, run := fs[..n], fs[n], runs[n];
      var before := Flatten(runs[..n]);
      assert entries == before + run;
      assert Rising(before) by {
        forall i, j | 0 <= i < j < |before| ensures before[i].ik.num < before[j].ik.num {
          assert entries[i] == before[i] && entries[j] == before[j];
        }
      }
      ReplayKeepsVersion(v, before, runs[..n], front, from);
      ReplayStep(v, AddAll0(v, front), before, run, front, f, from);
      assert fs == front + [f];
    }
  }

  lemma ReplayStep(v: Version, w: Version, before: seq<Entry>, run: seq<Entry>, front: seq<File>, f: File, from: nat)
    requires VersionOk(w) && Contents(w) == Contents(v) + SetOf(before) && FilesFrom(w, v, front)
    requires Rising(before + run) && NewerRun(before + run, Contents(v)) && SetOf(f.entries) == SetOf(run)
    requires forall l, g {:trigger g in v[l]} :: 0 <= l < |v| && g in v[l] ==> g.number < from
    requires f.number >= from && forall i :: 0 <= i < |front| ==> front[i].number < f.number
    ensures VersionOk(AddAt(w, 0, f)) && FilesFrom(AddAt(w, 0, f), v, front + [f])
    ensures Contents(AddAt(w, 0, f)) == Contents(v) + SetOf(before + run)
  {
    assert forall e :: e in run ==> e in before + run;
    NextIsNewest(v, w, before, run, front, f, from);
    FlushKeepsVersion(w, 0, f);
    SetOfConcat(before, run);
    AddAtMembers(w, 0, f);
  }

  // ---------- the crash ----------

  /** Above all sequence numbers the snapshot does not matter. */
  lemma ReadTop(S: set<Entry>, user: UserKey, a: nat, b: nat)
    requires Functional(S) && a <= b && forall e :: e in S ==> e.ik.num <= a
    ensures Read(S, user, a) == Read(S, user, b)
  {
    if e :| Visible(S, user, a, e) {
      var t := NewestExists(S, user, a, e);
      forall d | Visible(S, user, b, d) ensures d.ik.num <= t.ik.num { assert Visible(S, user, a, d); }
      ReadNewest(S, user, a, t);
      ReadNewest(S, user, b, t);
    } else {
      forall e ensures !Visible(S, user, b, e) { assert !Visible(S, user, a, e); }
      ReadNothing(S, user, a);
      ReadNothing(S, user, b);
    }
  }

  /** The batch in flight counts as written once it is in the log. */
  ghost function Written(s: State): set<Entry> { s.history + SetOf(s.inflight) }

  lemma CrashReads(s: State)
    requires Inv(s)
    ensures Functional(Written(s)) && (forall e :: e in Written(s) ==> e.ik.num < MAX_SEQUENCE)
    ensures StoreOf(s) + SetOf(s.inflight) <= Written(s)
    ensures forall user :: Read(StoreOf(s) + SetOf(s.inflight), user, MAX_SEQUENCE) == Read(Written(s), user, MAX_SEQUENCE)
  {
    InFlightFunctional(s);
    assert Horizon(s) <= s.lastSequence;
    forall user ensures Read(StoreOf(s) + SetOf(s.inflight), user, MAX_SEQUENCE) == Read(Written(s), user, MAX_SEQUENCE) {
      ReadAdd(StoreOf(s), s.history, SetOf(s.inflight), user, MAX_SEQUENCE);
    }
  }

  lemma CrashServes(s: State, hi: nat)
    requires Inv(s) && Beyond(s.disk.logs, hi)
    ensures Serves(ManifestOf(s.disk), ToReplay(s.disk, hi), Written(s))
  {
    var entries := ToReplay(s.disk, hi);
    LogsToReplay(s, hi);
    CrashReads(s);
    InFlightFunctional(s);
    assert Contents(s.version) + SetOf(entries) == StoreOf(s) + SetOf(s.inflight);
    forall e ensures e in entries <==> e in SetOf(ImmRun(s.imm)) || e in s.mem || e in s.inflight {
      assert e in entries <==> e in SetOf(entries);
    }
    forall d, e | d in entries && e in Contents(s.version) && d.ik.user == e.ik.user ensures d.ik.num > e.ik.num {
      assert e in StoreOf(s);
    }
  }

  /** Whenever the process dies, the files left behind suffice. */
  lemma CrashLeavesDisk(s: State)
    requires Inv(s)
    ensures DiskOk(s.disk, Written(s))
  {
    CrashReads(s);
    forall hi | Beyond(s.disk.logs, hi) ensures Serves(ManifestOf(s.disk), ToReplay(s.disk, hi), Written(s)) {
      CrashServes(s, hi);
    }
  }

  // ---------- the steps of opening ----------

  lemma ReadManifestKeepsOk(o: Opening, o': Opening)
    requires OpeningOk(o) && ReadManifest(o, o')
    ensures OpeningOk(o')
  {
    assert Flatten(o'.runs) == [];
  }

  /** Files that are not in use may change. */
  lemma NewTableKeepsDisk(d: Disk, history: set<Entry>, n: nat, entries: seq<Entry>)
    requires DiskOk(d, history) && n >= ManifestOf(d).nextFile
    ensures DiskOk(d.(tables := d.tables[n := entries]), history)
  {
    var d' := d.(tables := d.tables[n := entries]);
    forall hi | Beyond(d'.logs, hi) ensures Serves(ManifestOf(d'), ToReplay(d', hi), history) {
      assert Beyond(d.logs, hi);
    }
  }

  lemma TearTableKeepsOk(o: Opening, o': Opening, n: nat, partial: seq<Entry>)
    requires OpeningOk(o) && TearTable(o, o', n, partial)
    ensures OpeningOk(o')
  {
    NewTableKeepsDisk(o.disk, o.history, n, partial);
    forall hi | Beyond(o'.disk.logs, hi) ensures Flatten(o'.runs) <= ToReplay(o'.disk, hi) {
      assert Beyond(o.disk.logs, hi);
    }
  }

  lemma ReplayTableKeepsOk(o: Opening, o': Opening, run: seq<Entry>, f: File, next: nat)
    requires OpeningOk(o) && ReplayTable(o, o', run, f, next)
    ensures OpeningOk(o')
  {
    NewTableKeepsDisk(o.disk, o.history, f.number, f.entries);
    ReplayTableGoesOn(o, o', run, f, next);
  }

  lemma ReplayedSnoc(runs: seq<seq<Entry>>, fs: seq<File>, from: nat, run: seq<Entry>, f: File)
    requires Replayed(runs, fs, from) && SetOf(f.entries) == SetOf(run) && from <= f.number
    requires forall g :: g in fs ==> g.number < f.number
    ensures Replayed(runs + [run], fs + [f], from)
  {
    assert forall i :: 0 <= i < |fs| ==> fs[i] in fs;
  }

  lemma ReplayTableGoesOn(o: Opening, o': Opening, run: seq<Entry>, f: File, next: nat)
    requires ReplayOk(o) && ReplayTable(o, o', run, f, next)
    ensures ReplayOk(o')
  {
    ReplayedSnoc(o.runs, o.tables, ManifestOf(o.disk).nextFile + 1, run, f);
    var b :| Beyond(o.disk.logs, b) && Flatten(o.runs + [run]) <= ToReplay(o.disk, b);
    forall hi | Beyond(o'.disk.logs, hi) ensures Flatten(o'.runs) <= ToReplay(o'.disk, hi) {
      SameBound(o.disk, b, hi);
    }
  }

  /** A new empty log changes nothing of what there is to replay. */
  lemma NewLogReplaysSame(d: Disk, n: nat, hi: nat)
    requires n !in d.logs && Beyond(d.logs[n := []], hi)
    ensures Beyond(d.logs, hi) && ToReplay(d.(logs := d.logs[n := []]), hi) == ToReplay(d, hi)
  {
    LogsFromEmpty(d.logs, n, ManifestOf(d).logNumber, hi);
    forall k | k in d.logs ensures k < hi { assert k in d.logs[n := []]; }
  }

  lemma NewLogKeepsDisk(d: Disk, history: set<Entry>, n: nat)
    requires DiskOk(d, history) && n !in d.logs
    ensures DiskOk(d.(logs := d.logs[n := []]), history)
  {
    var d' := d.(logs := d.logs[n := []]);
    forall hi | Beyond(d'.logs, hi) ensures Serves(ManifestOf(d'), ToReplay(d', hi), history) {
      NewLogReplaysSame(d, n, hi);
    }
  }

  lemma LastIsBounded(o: Opening, n: nat, last: nat)
    requires DiskOk(o.disk, o.history) && Beyond(o.disk.logs, n)
    requires last == ManifestOf(o.disk).lastSequence || exists e :: e in ToReplay(o.disk, n) && e.ik.num == last
    ensures last < MAX_SEQUENCE
  {
    assert Serves(ManifestOf(o.disk), ToReplay(o.disk, n), o.history);
    if e :| e in ToReplay(o.disk, n) && e.ik.num == last {
      assert e in SetOf(ToReplay(o.disk, n));
    }
  }

  lemma CreateLogIsReady(o: Opening, o': Opening, n: nat, last: nat)
    requires ReplayOk(o) && CreateLog(o, o', n, last) && last < MAX_SEQUENCE
    requires ManifestOf(o.disk).logNumber < ManifestOf(o.disk).nextFile
    ensures LogReady(o')
  {
    assert Beyond(o'.disk.logs, n + 1);
    NewLogReplaysSame(o.disk, n, n + 1);
    SameBound(o.disk, n, n + 1);
  }

  lemma CreateLogGoesOn(o: Opening, o': Opening, n: nat, last: nat)
    requires ReplayOk(o) && CreateLog(o, o', n, last)
    ensures ReplayOk(o')
  {
    forall hi | Beyond(o'.disk.logs, hi) ensures Flatten(o'.runs) <= ToReplay(o'.disk, hi) {
      NewLogReplaysSame(o.disk, n, hi);
    }
  }

  lemma CreateLogKeepsOk(o: Opening, o': Opening, n: nat, last: nat)
    requires OpeningOk(o) && CreateLog(o, o', n, last)
    ensures OpeningOk(o')
  {
    NewLogKeepsDisk(o.disk, o.history, n);
    LastIsBounded(o, n, last);
    CreateLogIsReady(o, o', n, last);
    CreateLogGoesOn(o, o', n, last);
  }

  lemma WriteManifestKeepsDisk(d: Disk, d': Disk, history: set<Entry>)
    requires DiskOk(d, history) && HasManifest(d') && ManifestOf(d') == ManifestOf(d)
    requires d'.logs == d.logs && d'.tables == d.tables && d'.current == d.current
    ensures DiskOk(d', history)
  {
    forall hi | Beyond(d'.logs, hi) ensures Serves(ManifestOf(d'), ToReplay(d', hi), history) {
      assert Beyond(d.logs, hi) && ToReplay(d', hi) == ToReplay(d, hi);
    }
  }

  lemma WriteManifestGoesOn(o: Opening, o': Opening, complete: bool)
    requires ReplayOk(o) && LogReady(o) && WriteManifest(o, o', complete) && ManifestOf(o'.disk) == ManifestOf(o.disk)
    ensures ReplayOk(o') && LogReady(o') && NewManifest(o') == NewManifest(o)
  {
    forall hi | Beyond(o'.disk.logs, hi) ensures Flatten(o'.runs) <= ToReplay(o'.disk, hi) {
      assert Beyond(o.disk.logs, hi) && ToReplay(o'.disk, hi) == ToReplay(o.disk, hi);
    }
    assert ToReplay(o'.disk, o.newLog + 1) == ToReplay(o.disk, o.newLog + 1);
  }

  lemma WriteManifestKeepsOk(o: Opening, o': Opening, complete: bool)
    requires OpeningOk(o) && WriteManifest(o, o', complete)
    ensures OpeningOk(o')
  {
    assert ManifestOf(o'.disk) == ManifestOf(o.disk);
    WriteManifestKeepsDisk(o.disk, o'.disk, o.history);
    WriteManifestGoesOn(o, o', complete);
  }

  /** The manifest about to be named by CURRENT holds all that the old one and the logs did. */
  lemma NewVersionOk(o: Opening)
    requires OpeningOk(o) && o.phase.ManifestMade?
    ensures var m := NewManifest(o);
      && VersionOk(m.version) && LiveTables(o.disk.tables, m.version, m.nextFile)
      && Contents(m.version) == Contents(ManifestOf(o.disk).version) + SetOf(Flatten(o.runs))
  {
    var m := ManifestOf(o.disk);
    assert Serves(m, ToReplay(o.disk, o.newLog + 1), o.history);
    BuildsVersion(m.version, o.runs, o.tables, o.disk.tables, m.nextFile, o.nextFile);
  }

  lemma BuildsVersion(v: Version, runs: seq<seq<Entry>>, fs: seq<File>, tables: map<nat, seq<Entry>>, from: nat, to: nat)
    requires VersionOk(v) && LiveTables(tables, v, from) && from <= to
    requires Rising(Flatten(runs)) && NewerRun(Flatten(runs), Contents(v)) && Replayed(runs, fs, from + 1)
    requires forall f :: f in fs ==> f.number < to && f.number in tables && tables[f.number] == f.entries
    ensures var w := AddAll0(v, fs);
      VersionOk(w) && LiveTables(tables, w, to) && Contents(w) == Contents(v) + SetOf(Flatten(runs))
  {
    assert forall l, g {:trigger g in v[l]} :: 0 <= l < |v| && g in v[l] ==> g.number < from;
    ReplayKeepsVersion(v, Flatten(runs), runs, fs, from + 1);
    NewTablesLive(tables, v, AddAll0(v, fs), fs, from, to);
  }

  lemma NewTablesLive(tables: map<nat, seq<Entry>>, v: Version, w: Version, fs: seq<File>, from: nat, to: nat)
    requires LiveTables(tables, v, from) && FilesFrom(w, v, fs) && from <= to
    requires forall f :: f in fs ==> f.number < to && f.number in tables && tables[f.number] == f.entries
    ensures LiveTables(tables, w, to)
  {
  }

  lemma NewManifestServes(o: Opening, entries: seq<Entry>)
    requires OpeningOk(o) && o.phase.ManifestMade? && entries == []
    requires Contents(NewManifest(o).version) == Contents(ManifestOf(o.disk).version) + SetOf(Flatten(o.runs))
    ensures Serves(NewManifest(o), entries, o.history)
  {
    var m, was := NewManifest(o), Flatten(o.runs);
    assert Serves(ManifestOf(o.disk), was, o.history);
    assert Contents(m.version) + SetOf(entries) == Contents(m.version);
    forall e | e in Contents(m.version) ensures e.ik.num <= m.lastSequence {
      if e in SetOf(was) { assert e in was; }
    }
    forall e | e in o.history ensures e.ik.num <= m.lastSequence {
      assert e.ik.num > ManifestOf(o.disk).lastSequence ==> e in was;
    }
  }

  lemma {:induction false} EmptyLogAlone(logs: map<nat, seq<Batch>>, n: nat, hi: nat)
    requires n in logs && logs[n] == [] && Beyond(logs, n + 1) && n < hi
    ensures Flatten(LogsFrom(logs, n, hi)) == []
  {
    LogsFromSkip(logs, n + 1, hi, hi);
    assert LogsFrom(logs, n, hi) == [] + [] == [];
  }

  lemma SwitchCurrentKeepsOk(o: Opening, o': Opening)
    requires OpeningOk(o) && SwitchCurrent(o, o')
    ensures OpeningOk(o')
  {
    assert ManifestOf(o'.disk) == NewManifest(o);
    NewVersionOk(o);
    forall hi | Beyond(o'.disk.logs, hi) ensures Serves(NewManifest(o), ToReplay(o'.disk, hi), o.history) {
      EmptyLogAlone(o.disk.logs, o.newLog, hi);
      NewManifestServes(o, ToReplay(o'.disk, hi));
    }
  }

  lemma OpenStepKeepsOk(o: Opening, o': Opening)
    requires OpeningOk(o) && OpenStep(o, o')
    ensures OpeningOk(o')
  {
    if ReadManifest(o, o') { ReadManifestKeepsOk(o, o'); }
    else if n, partial :| TearTable(o, o', n, partial) { TearTableKeepsOk(o, o', n, partial); }
    else if run, f, next :| ReplayTable(o, o', run, f, next) { ReplayTableKeepsOk(o, o', run, f, next); }
    else if n, last :| CreateLog(o, o', n, last) { CreateLogKeepsOk(o, o', n, last); }
    else if complete :| WriteManifest(o, o', complete) { WriteManifestKeepsOk(o, o', complete); }
    else { SwitchCurrentKeepsOk(o, o'); }
  }

  // ---------- open again ----------

  /** After the switch the new manifest alone serves the history. */
  lemma OpenServes(o: Opening)
    requires OpeningOk(o) && o.phase.Switched?
    ensures var m := ManifestOf(o.disk);
      && Contents(m.version) <= o.history
      && (forall user :: Read(Contents(m.version), user, MAX_SEQUENCE) == Read(o.history, user, MAX_SEQUENCE))
      && (forall e :: e in o.history ==> e.ik.num <= o.lastSequence)
  {
    EmptyLogAlone(o.disk.logs, o.newLog, o.newLog + 1);
    ServesAlone(ManifestOf(o.disk), ToReplay(o.disk, o.newLog + 1), o.history);
  }

  lemma ServesAlone(m: Manifest, entries: seq<Entry>, history: set<Entry>)
    requires Serves(m, entries, history) && entries == []
    ensures Contents(m.version) <= history
    ensures forall user :: Read(Contents(m.version), user, MAX_SEQUENCE) == Read(history, user, MAX_SEQUENCE)
    ensures forall e :: e in history ==> e.ik.num <= m.lastSequence
  {
    assert Contents(m.version) + SetOf([]) == Contents(m.version);
  }

  lemma OpenReads(o: Opening, s': State)
    requires OpeningOk(o) && FinishOpen(o, s')
    ensures StoreOf(s') == Contents(s'.version) && HistoryOk(s') && Agrees(StoreOf(s'), s'.history, Horizon(s'))
  {
    OpenServes(o);
    assert StoreOf(s') == Contents(s'.version);
    forall user, snap | snap >= Horizon(s') ensures Read(StoreOf(s'), user, snap) == Read(s'.history, user, snap) {
      AboveAll(StoreOf(s'), user, snap, o.lastSequence);
      AboveAll(s'.history, user, snap, o.lastSequence);
    }
  }

  /** All snapshots at or above the last sequence number read alike. */
  lemma AboveAll(S: set<Entry>, user: UserKey, snap: nat, last: nat)
    requires Functional(S) && last <= snap && last <= MAX_SEQUENCE && forall e :: e in S ==> e.ik.num <= last
    ensures Read(S, user, snap) == Read(S, user, MAX_SEQUENCE)
  {
    ReadTop(S, user, last, snap);
    ReadTop(S, user, last, MAX_SEQUENCE);
  }

  lemma FinishOpenKeepsOk(o: Opening, s': State)
    requires OpeningOk(o) && FinishOpen(o, s')
    ensures Inv(s')
  {
    OpenReads(o, s');
    assert LogHolds([], {});
    assert SetOf(s'.mem) + SetOf(s'.inflight) == {};
    assert LogsOk(s') && SequenceOk(s') && TablesOk(s');
  }

  // ---------- opening can always be completed ----------

  /** All file numbers of the logs lie below some bound. */
  lemma {:induction false} SomeBound(logs: map<nat, seq<Batch>>, numbers: set<nat>, from: nat) returns (hi: nat)
    ensures hi >= from && forall n :: n in numbers ==> n < hi
    decreases numbers
  {
    hi := from;
    if n :| n in numbers {
      var more := SomeBound(logs, numbers - {n}, from);
      hi := if n < more then more else n + 1;
      assert forall m :: m in numbers ==> m == n || m in numbers - {n};
    }
  }

  /** The greatest sequence number of a stretch of the log and a number given. */
  lemma {:induction false} SomeLast(entries: seq<Entry>, from: nat) returns (last: nat)
    ensures last >= from && (last == from || exists e :: e in entries && e.ik.num == last)
    ensures forall e :: e in entries ==> e.ik.num <= last
  {
    last := from;
    if entries != [] {
      var rest, e := entries[..|entries| - 1], entries[|entries| - 1];
      assert entries == rest + [e];
      last := SomeLast(rest, from);
      assert e in entries && forall d :: d in rest ==> d in entries;
      if e.ik.num > last { last := e.ik.num; }
    }
  }

  /** All that is to be replayed can go into one table. */
  lemma ReplayAllAtOnce(o: Opening, hi: nat) returns (o': Opening)
    requires OpeningOk(o) && o.phase.Replaying? && o.runs == [] && Beyond(o.disk.logs, hi)
    ensures o' == o || OpenStep(o, o')
    ensures o'.phase.Replaying? && o'.history == o.history && o'.disk.logs == o.disk.logs && o'.disk.manifests == o.disk.manifests
    ensures o'.disk.current == o.disk.current && Flatten(o'.runs) == ToReplay(o.disk, hi)
  {
    var entries := ToReplay(o.disk, hi);
    if entries == [] {
      o' := o;
    } else {
      var m := ManifestOf(o.disk);
      assert Serves(m, entries, o.history);
      var f := TableOf(entries, o.nextFile, o.history);
      o' := o.(runs := o.runs + [entries], tables := o.tables + [f], nextFile := o.nextFile + 1,
               disk := o.disk.(tables := o.disk.tables[f.number := f.entries]));
      assert Flatten([entries]) == entries by { assert [entries][..0] == []; }
      assert ReplayTable(o, o', entries, f, o.nextFile + 1);
    }
  }

  lemma TableOf(entries: seq<Entry>, number: nat, history: set<Entry>) returns (f: File)
    requires entries != [] && SetOf(entries) <= history && Functional(history)
    requires forall e :: e in history ==> e.ik.num < MAX_SEQUENCE
    ensures f.number == number && SetOf(f.entries) == SetOf(entries)
  {
    var run := SortedRun(SetOf(entries));
    assert entries[0] in run;
    forall e | e in run ensures e.ik.num <= MAX_SEQUENCE { assert e in history; }
    f := FileData(number, 0, run);
  }

  /** A run of steps of the world. */
  ghost predicate Steps(run: seq<World>, w: World, w': World) {
    && run != [] && run[0] == w && run[|run| - 1] == w'
    && forall i {:trigger Step(run[i], run[i + 1])} :: 0 <= i < |run| - 1 ==> Step(run[i], run[i + 1])
  }

  lemma OneMoreStep(run: seq<World>, w: World, v: World, w': World)
    requires Steps(run, w, v) && Step(v, w')
    ensures Steps(run + [w'], w, w')
  {
    var more := run + [w'];
    forall i | 0 <= i < |more| - 1 ensures Step(more[i], more[i + 1]) {
      if i < |run| - 1 { assert Step(run[i], run[i + 1]); }
    }
  }

  /** Up to the new log. */
  lemma CanReplay(o: Opening) returns (run: seq<World>, o': Opening)
    requires OpeningOk(o) && o.phase.Closed?
    ensures Steps(run, Down(o), Down(o')) && OpeningOk(o') && o'.phase.LogMade? && o'.history == o.history
  {
    var next := ManifestOf(o.disk).nextFile;
    var read := o.(phase := Replaying, runs := [], tables := [], nextFile := next + 1, manifestFile := next);
    assert ReadManifest(o, read);
    ReadManifestKeepsOk(o, read);
    var hi := SomeBound(o.disk.logs, o.disk.logs.Keys, next + 2);
    assert Beyond(read.disk.logs, hi);
    run := [Down(o)];
    OneMoreStep(run, Down(o), Down(o), Down(read));
    run := run + [Down(read)];
    var done := ReplayAllAtOnce(read, hi);
    if done != read {
      OpenStepKeepsOk(read, done);
      OneMoreStep(run, Down(o), Down(read), Down(done));
      run := run + [Down(done)];
    }
    o' := CanCreateLog(done, hi);
    OneMoreStep(run, Down(o), Down(done), Down(o'));
    run := run + [Down(o')];
  }

  lemma CanCreateLog(o: Opening, hi: nat) returns (o': Opening)
    requires OpeningOk(o) && o.phase.Replaying? && Beyond(o.disk.logs, hi) && Flatten(o.runs) == ToReplay(o.disk, hi)
    ensures OpenStep(o, o') && OpeningOk(o') && o'.phase.LogMade? && o'.history == o.history
  {
    var n := if hi < o.nextFile then o.nextFile else hi;
    SameBound(o.disk, hi, n);
    assert Beyond(o.disk.logs, n);
    var last := SomeLast(ToReplay(o.disk, n), ManifestOf(o.disk).lastSequence);
    o' := o.(phase := LogMade, newLog := n, nextFile := n + 1, lastSequence := last,
             disk := o.disk.(logs := o.disk.logs[n := []]));
    assert CreateLog(o, o', n, last);
    CreateLogKeepsOk(o, o', n, last);
  }

  /** However often the process dies, also while opening, the database can be opened again, with all
      that was written. */
  lemma CanOpen(o: Opening) returns (run: seq<World>, s: State)
    requires OpeningOk(o) && o.phase.Closed?
    ensures Steps(run, Down(o), Up(s)) && s.history == o.history
  {
    var made: Opening;
    run, made := CanReplay(o);
    var written := made.(phase := ManifestMade,
      disk := made.disk.(manifests := made.disk.manifests[made.manifestFile := Some(NewManifest(made))]));
    assert WriteManifest(made, written, true);
    var switched := written.(phase := Switched, disk := written.disk.(current := written.manifestFile));
    assert SwitchCurrent(written, switched);
    s := State([], None, ManifestOf(switched.disk).version, [], switched.lastSequence, switched.nextFile, switched.newLog,
               switched.manifestFile, [], None, {}, switched.disk, switched.history);
    OneMoreStep(run, Down(o), Down(made), Down(written));
    OneMoreStep(run + [Down(written)], Down(o), Down(written), Down(switched));
    OneMoreStep(run + [Down(written)] + [Down(switched)], Down(o), Down(switched), Up(s));
    run := run + [Down(written)] + [Down(switched)] + [Up(s)];
  }
}
