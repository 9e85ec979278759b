/** What holds over every run of the engine. */
module EngineTheorems {
  import opened DbFormat
  import opened Mvcc
  import opened Version
  import opened Lookup
  import opened Picking
  import opened Edits
  import opened Engine
  import opened Reopening
  import opened EngineInvariant
  import opened Recovery
  import opened Interleaving
  import opened DbIter
  import opened Iteration

  /** A run starts with a fresh database and may crash, reopen and crash again at any point. */
  ghost predicate Run(run: seq<World>) {
    && run != [] && run[0].Up? && Init(run[0].s)
    && forall i {:trigger StepAt(run, i)} :: 0 <= i < |run| - 1 ==> StepAt(run, i)
  }

  ghost predicate StepAt(run: seq<World>, i: nat)
    requires i + 1 < |run|
  {
    Step(run[i], run[i + 1])
  }

  lemma InitInv(s: State)
    requires Init(s)
    ensures Inv(s)
  {
    assert StoreOf(s) == {} && SetOf(s.mem) + SetOf(s.inflight) == {};
    assert LogHolds([], {});
  }

  lemma NextKeepsInv(s: State, s': State)
    requires Inv(s) && Next(s, s')
    ensures Inv(s')
  {
    if batch :| LogWrite(s, s', batch) { LogWriteKeepsInv(s, s', batch); }
    else if ApplyWrite(s, s') { ApplyWriteKeepsInv(s, s'); }
    else if SwitchMemTable(s, s') { SwitchKeepsInv(s, s'); }
    else if TakeSnapshot(s, s') { TakeSnapshotKeepsInv(s, s'); }
    else if i :| ReleaseSnapshot(s, s', i) { ReleaseSnapshotKeepsInv(s, s', i); }
    else if level, f :| Flush(s, s', level, f) { FlushKeepsInv(s, s', level, f); }
    else if FlushEmpty(s, s') { FlushEmptyKeepsInv(s, s'); }
    else if level, f :| TrivialMove(s, s', level, f) { MoveKeepsInv(s, s', level, f); }
    else { FileStepKeepsInv(s, s'); }
  }

  lemma FileStepKeepsInv(s: State, s': State)
    requires Inv(s)
    requires || (exists partial :: OpenOutput(s, s', partial)) || (exists f :: FinishOutput(s, s', f))
             || (exists j :: StartCompaction(s, s', j)) || InstallCompaction(s, s')
             || (exists numbers :: AbandonCompaction(s, s', numbers))
             || (exists tables, logs, manifests :: RemoveObsoleteFiles(s, s', tables, logs, manifests))
    ensures Inv(s')
  {
    if partial :| OpenOutput(s, s', partial) { OpenOutputKeepsInv(s, s', partial); }
    else if f :| FinishOutput(s, s', f) { FinishOutputKeepsInv(s, s', f); }
    else if j :| StartCompaction(s, s', j) { StartKeepsInv(s, s', j); }
    else if InstallCompaction(s, s') { InstallKeepsInv(s, s'); }
    else if numbers :| AbandonCompaction(s, s', numbers) { AbandonKeepsInv(s, s', numbers); }
    else {
      var tables, logs, manifests :| RemoveObsoleteFiles(s, s', tables, logs, manifests);
      RemoveKeepsInv(s, s', tables, logs, manifests);
    }
  }

  lemma StepKeepsOk(w: World, w': World)
    requires WorldOk(w) && Step(w, w')
    ensures WorldOk(w')
  {
    if Crash(w, w') {
      if w.Up? { CrashLeavesDisk(w.s); }
    } else if w.Up? {
      NextKeepsInv(w.s, w'.s);
    } else if w'.Down? {
      OpenStepKeepsOk(w.o, w'.o);
    } else {
      FinishOpenKeepsOk(w.o, w'.s);
    }
  }

  lemma {:induction false} RunInv(run: seq<World>, i: nat)
    requires Run(run) && i < |run|
    ensures WorldOk(run[i])
  {
    if i == 0 {
      InitInv(run[0].s);
    } else {
      RunInv(run, i - 1);
      assert StepAt(run, i - 1);
      StepKeepsOk(run[i - 1], run[i]);
    }
  }

  /** All that was acknowledged is at or below the last sequence number. */
  lemma LatestReadsAll(s: State, user: UserKey)
    requires Inv(s)
    ensures Read(s.history, user, s.lastSequence) == Read(s.history, user, MAX_SEQUENCE)
  {
    var H := s.history;
    assert forall e :: Visible(H, user, s.lastSequence, e) <==> Visible(H, user, MAX_SEQUENCE, e);
    if e :| Visible(H, user, MAX_SEQUENCE, e) {
      var n := NewestExists(H, user, s.lastSequence, e);
      assert Newest(H, user, MAX_SEQUENCE, n);
      ReadNewest(H, user, s.lastSequence, n);
      ReadNewest(H, user, MAX_SEQUENCE, n);
    } else {
      ReadNothing(H, user, s.lastSequence);
      ReadNothing(H, user, MAX_SEQUENCE);
    }
  }

  /** In every state of every run a reader, at a snapshot it may hold or at none, searching memtables
      and levels the way DBImpl::Get does, reads what the acknowledged writes say: at the snapshot, or
      all of them. */
  method GetInRun(ghost run: seq<World>, ghost i: nat, s: State, user: UserKey, snapshot: Option<nat>)
    returns (value: Option<Value>)
    requires Run(run) && i < |run| && run[i] == Up(s) && (snapshot.Some? ==> snapshot.value >= Horizon(s))
    ensures value == Read(s.history, user, if snapshot.Some? then snapshot.value else MAX_SEQUENCE)
  {
    RunInv(run, i);
    LatestReadsAll(s, user);
    var snap := if snapshot.Some? then snapshot.value else s.lastSequence;
    var charge;
    value, charge := Get(s.mem, s.imm, s.version, user, snap);
  }

  /** In every state of every run a client iterating at a snapshot it may hold sees each key that the
      acknowledged writes show, once, in order and with its value, and no other. */
  method IterateInRun(ghost run: seq<World>, ghost i: nat, s: State, snap: nat) returns (it: DBIter)
    requires Run(run) && i < |run| && run[i] == Up(s) && snap >= Horizon(s)
    ensures fresh(it) && it.Valid() && it.sequence == snap
    ensures forall user, value :: Lists(it.Shows(), user, value) <==> Read(s.history, user, snap) == Some(value)
    ensures forall i, j :: 0 <= i < j < |it.Shows()| ==> it.Shows()[i].ik.user < it.Shows()[j].ik.user
  {
    RunInv(run, i);
    it := NewIterator(s.mem, s.imm, s.version, snap);
  }

  /** All that was ever acknowledged, or found in a log after a crash. */
  function HistoryOf(w: World): set<Entry> {
    match w
    case Up(s) => s.history
    case Down(o) => o.history
  }

  /** The history only grows, and while the database is up only with sequence numbers above those
      already given out. */
  lemma HistoryStep(w: World, w': World)
    requires WorldOk(w) && Step(w, w')
    ensures HistoryOf(w) <= HistoryOf(w')
    ensures w.Up? ==> forall e :: e in HistoryOf(w') && e !in HistoryOf(w) ==> e.ik.num > w.s.lastSequence
  {
    if w.Up? && w'.Up? { NextHistory(w.s, w'.s); }
  }

  lemma NextHistory(s: State, s': State)
    requires InFlightOk(s) && Next(s, s')
    ensures s'.history == s.history || s'.history == s.history + SetOf(s.inflight)
    ensures forall e :: e in s'.history && e !in s.history ==> e.ik.num > s.lastSequence
  {
    assert s'.history == s.history || s'.history == s.history + SetOf(s.inflight) by {
      if ApplyWrite(s, s') { }
    }
  }

  /** The snapshot stays live from state i to state j. */
  ghost predicate Held(run: seq<World>, i: nat, j: nat, snap: nat) {
    i <= j < |run| && forall k :: i <= k <= j ==> run[k].Up? && snap in run[k].s.snapshots
  }

  /** A step leaves the history up to a live snapshot as it is. */
  lemma SameBelow(w: World, w': World, snap: nat)
    requires WorldOk(w) && Step(w, w') && w.Up? && snap in w.s.snapshots
    ensures forall e: Entry :: e.ik.num <= snap ==> (e in HistoryOf(w) <==> e in HistoryOf(w'))
  {
    HistoryStep(w, w');
    assert snap <= w.s.lastSequence;
  }

  lemma SameBelowAt(run: seq<World>, k: nat, snap: nat)
    requires Run(run) && k + 1 < |run| && run[k].Up? && snap in run[k].s.snapshots
    ensures forall e: Entry :: e.ik.num <= snap ==> (e in HistoryOf(run[k]) <==> e in HistoryOf(run[k + 1]))
  {
    RunInv(run, k);
    assert StepAt(run, k);
    SameBelow(run[k], run[k + 1], snap);
  }

  lemma {:induction false} HistoryBelow(run: seq<World>, i: nat, j: nat, snap: nat)
    requires Run(run) && Held(run, i, j, snap)
    ensures forall e: Entry :: e.ik.num <= snap ==> (e in HistoryOf(run[i]) <==> e in HistoryOf(run[j]))
    decreases j - i
  {
    if i < j {
      HistoryBelow(run, i, j - 1, snap);
      SameBelowAt(run, j - 1, snap);
    }
  }

  lemma SnapshotAboveHorizon(s: State, snap: nat)
    requires Inv(s) && snap in s.snapshots
    ensures snap >= Horizon(s)
  {
    var i :| 0 <= i < |s.snapshots| && s.snapshots[i] == snap;
  }

  /** Snapshot isolation: while a snapshot is held, no write, flush, move, compaction or file
      removal changes what any key reads at it. */
  lemma SnapshotIsolation(run: seq<World>, i: nat, j: nat, snap: nat, user: UserKey)
    requires Run(run) && Held(run, i, j, snap)
    ensures Read(StoreOf(run[i].s), user, snap) == Read(StoreOf(run[j].s), user, snap)
  {
    RunInv(run, i);
    RunInv(run, j);
    SnapshotAboveHorizon(run[i].s, snap);
    SnapshotAboveHorizon(run[j].s, snap);
    HistoryBelow(run, i, j, snap);
    ReadStable(run[i].s.history, run[j].s.history, user, snap);
  }

  lemma {:induction false} HistoryGrows(run: seq<World>, i: nat, j: nat)
    requires Run(run) && i <= j < |run|
    ensures HistoryOf(run[i]) <= HistoryOf(run[j])
    decreases j - i
  {
    if i < j {
      HistoryGrows(run, i, j - 1);
      RunInv(run, j - 1);
      assert StepAt(run, j - 1);
      HistoryStep(run[j - 1], run[j]);
    }
  }

  /** Durability: whatever crashes, half-finished recoveries and file removals lie between, an entry
      once acknowledged is part of the history that the latest reads of every later open state
      reflect. */
  lemma AcknowledgedSurvives(run: seq<World>, i: nat, j: nat, e: Entry, user: UserKey)
    requires Run(run) && i <= j < |run| && e in HistoryOf(run[i])
    ensures e in HistoryOf(run[j])
    ensures run[j].Up? ==> var s := run[j].s;
      e.ik.num <= s.lastSequence && Read(StoreOf(s), user, s.lastSequence) == Read(s.history, user, s.lastSequence)
  {
    HistoryGrows(run, i, j);
    RunInv(run, j);
    assert run[j].Up? ==> Horizon(run[j].s) <= run[j].s.lastSequence;
  }

  /** The files of a world. */
  function DiskOf(w: World): Disk {
    match w
    case Up(s) => s.disk
    case Down(o) => o.disk
  }

  /** What a crash at this point would have to bring back. */
  ghost function Owed(w: World): set<Entry> {
    match w
    case Up(s) => s.history + SetOf(s.inflight)
    case Down(o) => o.history
  }

  /** In every state of every run, also in the middle of opening, the files on disk suffice: CURRENT
      names a complete manifest, each table of its version is there with its contents, and tables and
      remaining logs together read as all that was written. */
  lemma NothingNeededIsRemoved(run: seq<World>, i: nat)
    requires Run(run) && i < |run|
    ensures DiskOk(DiskOf(run[i]), Owed(run[i]))
  {
    RunInv(run, i);
    if run[i].Up? { CrashLeavesDisk(run[i].s); }
  }

  /** The step appends a batch to the log. */
  ghost predicate LogsAt(run: seq<World>, i: nat)
    requires i + 1 < |run|
  {
    run[i].Up? && run[i + 1].Up? && LogWrite(run[i].s, run[i + 1].s, run[i + 1].s.inflight)
  }

  /** The entries of all batches that were appended to the log before state `j`. */
  ghost function Written(run: seq<World>, j: nat): set<Entry>
    requires j < |run|
  {
    if j == 0 then {}
    else Written(run, j - 1) + if LogsAt(run, j - 1) then SetOf(run[j].s.inflight) else {}
  }

  lemma OwedStep(s: State, s': State)
    requires Next(s, s')
    ensures Owed(Up(s')) == Owed(Up(s)) + if LogWrite(s, s', s'.inflight) then SetOf(s'.inflight) else {}
  {
    if LogWrite(s, s', s'.inflight) {
      assert SetOf([]) == {};
    } else if ApplyWrite(s, s') {
      assert SetOf([]) == {};
    } else {
      QuietStep(s, s');
    }
  }

  lemma QuietStep(s: State, s': State)
    requires Next(s, s') && !LogWrite(s, s', s'.inflight) && !ApplyWrite(s, s')
    ensures s'.history == s.history && s'.inflight == s.inflight
  {
    assert forall batch :: LogWrite(s, s', batch) ==> batch == s'.inflight;
  }

  /** The history is made of the batches that clients wrote, each whole, and of nothing else, also
      across crashes: what a later state owes is what was logged before it. */
  lemma {:induction false} OwedIsWritten(run: seq<World>, j: nat)
    requires Run(run) && j < |run|
    ensures Owed(run[j]) == Written(run, j)
  {
    assert SetOf([]) == {};
    if j > 0 {
      OwedIsWritten(run, j - 1);
      assert StepAt(run, j - 1);
      OwedWorldStep(run[j - 1], run[j]);
    }
  }

  lemma OwedWorldStep(w: World, w': World)
    requires Step(w, w')
    ensures var logs := w.Up? && w'.Up? && LogWrite(w.s, w'.s, w'.s.inflight);
      Owed(w') == Owed(w) + if logs then SetOf(w'.s.inflight) else {}
  {
    if w.Up? && w'.Up? {
      OwedStep(w.s, w'.s);
    } else {
      assert SetOf([]) == {};
    }
  }

  /** Right after a batch is applied, each of its keys reads as the last update of the batch says, and
      every other key as before. */
  lemma LastWriteWins(s: State, s': State, e: Entry, other: UserKey)
    requires Inv(s) && ApplyWrite(s, s') && e in s.inflight
    requires forall d :: d in s.inflight && d.ik.user == e.ik.user ==> d.ik.num <= e.ik.num
    requires forall d :: d in s.inflight ==> d.ik.user != other
    ensures Read(StoreOf(s'), e.ik.user, s'.lastSequence) == Outcome(Some(e))
    ensures Read(StoreOf(s'), other, s'.lastSequence) == Read(StoreOf(s), other, s.lastSequence)
  {
    ApplyWriteKeepsInv(s, s');
    assert Horizon(s) <= s.lastSequence && Horizon(s') <= s'.lastSequence;
    forall d | Visible(s'.history, e.ik.user, s'.lastSequence, d) ensures d.ik.num <= e.ik.num {
      if d in s.history { assert d.ik.num <= s.lastSequence; }
    }
    assert e.ik.num <= s'.lastSequence;
    ReadNewest(s'.history, e.ik.user, s'.lastSequence, e);
    OtherKeySame(s.history, s'.history, other, s.lastSequence, s'.lastSequence);
  }

  lemma OtherKeySame(H: set<Entry>, H': set<Entry>, user: UserKey, snap: nat, snap': nat)
    requires Functional(H) && Functional(H') && snap <= snap' && (forall e :: e in H ==> e.ik.num <= snap)
    requires forall e: Entry :: e.ik.user == user ==> (e in H' <==> e in H)
    ensures Read(H', user, snap') == Read(H, user, snap)
  {
    assert forall e :: Visible(H', user, snap', e) <==> Visible(H, user, snap, e);
    if e :| Visible(H, user, snap, e) {
      var n := NewestExists(H, user, snap, e);
      assert Newest(H', user, snap', n);
      ReadNewest(H, user, snap, n);
      ReadNewest(H', user, snap', n);
    } else {
      ReadNothing(H, user, snap);
      ReadNothing(H', user, snap');
    }
  }

  /** A snapshot just taken reads all that was acknowledged. */
  lemma SnapshotIsFresh(s: State, s': State, user: UserKey)
    requires Inv(s) && TakeSnapshot(s, s')
    ensures s'.snapshots != []
    ensures Read(StoreOf(s'), user, s'.snapshots[|s'.snapshots| - 1]) == Read(s'.history, user, MAX_SEQUENCE)
  {
    TakeSnapshotKeepsInv(s, s');
    LatestReadsAll(s', user);
    assert Horizon(s') <= s'.lastSequence;
  }

  lemma CrashIs(w: World)
    ensures Crash(w, Down(ClosedOn(DiskOf(w), Owed(w))))
  {
    match w
    case Up(s) => assert Owed(w) == s.history + SetOf(s.inflight);
    case Down(o) =>
  }

  lemma CrashFirst(w: World, rest: seq<World>, v: World, w': World)
    requires Steps(rest, v, w') && Step(w, v)
    ensures Steps([w] + rest, w, w')
  {
    var more := [w] + rest;
    forall k | 0 <= k < |more| - 1 ensures Step(more[k], more[k + 1]) {
      if k > 0 {
        var m := k - 1;
        assert Step(rest[m], rest[m + 1]);
      }
    }
  }

  /** From every state of every run, should the process die there, steps lead to an open database
      that has all that was written. */
  lemma CanReopen(run: seq<World>, i: nat) returns (more: seq<World>, s: State)
    requires Run(run) && i < |run|
    ensures Steps(more, run[i], Up(s)) && |more| > 1 && Crash(run[i], more[1]) && s.history == Owed(run[i])
  {
    RunInv(run, i);
    var o := ClosedOn(DiskOf(run[i]), Owed(run[i]));
    CrashIs(run[i]);
    StepKeepsOk(run[i], Down(o));
    var rest;
    rest, s := CanOpen(o);
    more := [run[i]] + rest;
    CrashFirst(run[i], rest, Down(o), Up(s));
  }

  // ---------- when compactions and flushes meet their side conditions ----------

  /** A compaction whose next-level inputs end on a user key boundary resurrects nothing. */
  lemma BoundaryClosedIsHarmless(s: State, j: Job)
    requires Inv(s) && s.job == Some(j) && BoundaryClosed(s.version[j.level + 1], j.in1)
    ensures Harmless(s, j)
  {
    NothingResurrected(s.mem, s.imm, s.version, j.base, j.level, j.in0, j.in1, j.smallest);
  }

  /** While inputs without gaps, such as PickCompaction's, are compacted, no flushed table that may
      go to the output level lands between them. */
  lemma CoveredFlushIsClear(s: State, j: Job, f: File)
    requires Inv(s) && s.job == Some(j) && Covered(j.in0 + j.in1)
    requires CanPlace(s.version, j.level + 1, f)
    ensures Clear(f, j.in0, j.in1)
  {
    CoveredIsClear(s.version, j.level, j.in0, j.in1, f);
  }
}
