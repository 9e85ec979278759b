/** Every step of the engine keeps the invariant. */
module EngineInvariant {
  import opened DbFormat
  import opened Mvcc
  import opened Version
  import opened Lookup
  import opened Picking
  import opened Compaction
  import opened Edits
  import opened Interleaving
  import opened Engine

  // ---------- writes ----------

  lemma SetOfConcat(a: seq<Entry>, b: seq<Entry>)
    ensures SetOf(a + b) == SetOf(a) + SetOf(b)
  {
  }

  lemma RisingAppend(a: seq<Entry>, b: seq<Entry>)
    requires Rising(a) && Rising(b) && forall d, e :: d in a && e in b ==> d.ik.num < e.ik.num
    ensures Rising(a + b)
  {
    var r := a + b;
    forall i, j | 0 <= i < j < |r| ensures r[i].ik.num < r[j].ik.num {
      if i < |a| <= j { assert r[i] in a && r[j] in b; }
    }
  }

  lemma LogWriteKeepsInv(s: State, s': State, batch: Batch)
    requires Inv(s) && LogWrite(s, s', batch)
    ensures Inv(s')
  {
    assert StoreOf(s') == StoreOf(s) && Horizon(s') == Horizon(s);
    var log := s.disk.logs[s.logFile];
    FlattenSnoc(log, batch);
    SetOfConcat(Flatten(log), batch);
    forall d, e | d in Flatten(log) && e in batch ensures d.ik.num < e.ik.num {
      assert d in SetOf(Flatten(log));
      assert d in StoreOf(s);
    }
    RisingAppend(Flatten(log), batch);
    assert LogHolds(s'.disk.logs[s'.logFile], SetOf(s'.mem) + SetOf(s'.inflight));
    forall d, e | d in ImmRun(s'.imm) && (e in s'.mem || e in s'.inflight) ensures d.ik.num < e.ik.num {
      if e in batch { assert d in StoreOf(s); }
    }
  }

  /** Adding the same newer entries to two maps that read alike keeps them alike. */
  lemma ReadAdd(S: set<Entry>, H: set<Entry>, B: set<Entry>, user: UserKey, snap: nat)
    requires Functional(S + B) && Functional(H + B)
    requires Read(S, user, snap) == Read(H, user, snap)
    requires forall d, e :: (d in S || d in H) && e in B ==> d.ik.num < e.ik.num
    ensures Read(S + B, user, snap) == Read(H + B, user, snap)
  {
    if b :| Visible(B, user, snap, b) {
      var t := NewestExists(B, user, snap, b);
      forall T | T == S || T == H ensures Newest(T + B, user, snap, t) {
        forall d | Visible(T + B, user, snap, d) ensures d.ik.num <= t.ik.num {
          if d in B { assert Visible(B, user, snap, d); }
        }
      }
      ReadNewest(S + B, user, snap, t);
      ReadNewest(H + B, user, snap, t);
    } else {
      ReadSkips(S, B, user, snap);
      ReadSkips(H, B, user, snap);
    }
  }

  lemma ReadSkips(S: set<Entry>, B: set<Entry>, user: UserKey, snap: nat)
    requires Functional(S + B) && forall e :: !Visible(B, user, snap, e)
    ensures Read(S + B, user, snap) == Read(S, user, snap)
  {
    forall e | Visible(S + B, user, snap, e) ensures Visible(S, user, snap, e) {
      assert !Visible(B, user, snap, e);
    }
    assert forall e :: Visible(S, user, snap, e) ==> Visible(S + B, user, snap, e);
    ReadSame(S, S + B, user, snap);
  }

  /** A batch in flight continues the history with unused sequence numbers. */
  lemma InFlightFunctional(s: State)
    requires HistoryOk(s) && InFlightOk(s)
    ensures Functional(s.history + SetOf(s.inflight))
    ensures forall d, e :: d in s.history && e in s.inflight ==> d.ik.num < e.ik.num
    ensures Rising(s.inflight)
  {
    forall d, e | d in s.history + SetOf(s.inflight) && e in s.history + SetOf(s.inflight)
                  && d.ik.user == e.ik.user && d.ik.num == e.ik.num
      ensures d == e
    {
    }
  }

  lemma ApplyInsert(s: State)
    requires HistoryOk(s) && InFlightOk(s) && Sorted(s.mem)
    ensures Sorted(InsertAll(s.mem, s.inflight))
    ensures SetOf(InsertAll(s.mem, s.inflight)) == SetOf(s.mem) + SetOf(s.inflight)
  {
    forall d, e | d in s.mem && e in s.inflight ensures d.ik != e.ik {
      assert d in StoreOf(s);
    }
    InsertAllSorted(s.mem, s.inflight);
  }

  lemma ApplyReads(s: State, s': State)
    requires Inv(s) && ApplyWrite(s, s')
    requires SetOf(s'.mem) == SetOf(s.mem) + SetOf(s.inflight)
    ensures SnapshotsOk(s') && HistoryOk(s') && Agrees(StoreOf(s'), s'.history, Horizon(s'))
  {
    var B := SetOf(s.inflight);
    InFlightFunctional(s);
    assert StoreOf(s') == StoreOf(s) + B;
    assert StoreOf(s) + B <= s'.history;
    forall user, snap | snap >= Horizon(s') ensures Read(StoreOf(s'), user, snap) == Read(s'.history, user, snap) {
      ReadAdd(StoreOf(s), s.history, B, user, snap);
    }
  }

  lemma ApplyDisk(s: State, s': State)
    requires Inv(s) && ApplyWrite(s, s')
    requires SetOf(s'.mem) == SetOf(s.mem) + SetOf(s.inflight)
    ensures LogsOk(s') && SequenceOk(s')
  {
    forall e | e in s'.mem ensures e in s.mem || e in s.inflight { assert e in SetOf(s'.mem); }
    forall e | e in s.mem || e in s.inflight ensures e in s'.mem { assert e in SetOf(s'.mem); }
    assert SetOf(s'.mem) + SetOf(s'.inflight) == SetOf(s.mem) + SetOf(s.inflight);
  }

  lemma ApplyWriteKeepsInv(s: State, s': State)
    requires Inv(s) && ApplyWrite(s, s')
    ensures Inv(s')
  {
    ApplyInsert(s);
    ApplyStacked(s, s');
    ApplyReads(s, s');
    ApplyDisk(s, s');
    assert Horizon(s') >= Horizon(s);
  }

  lemma ApplyStacked(s: State, s': State)
    requires Inv(s) && s'.imm == s.imm && s'.version == s.version && Sorted(s'.mem)
    requires SetOf(s'.mem) == SetOf(s.mem) + SetOf(s.inflight)
    ensures Stacked(s'.mem, s'.imm, s'.version) && InRange(s'.mem)
  {
    InFlightFunctional(s);
    forall e | e in s'.mem ensures e in s.mem || e in s.inflight { assert e in SetOf(s'.mem); }
    forall d, e | d in s'.mem && (e in SetOf(ImmRun(s.imm)) || e in Contents(s.version)) && d.ik.user == e.ik.user
      ensures d.ik.num > e.ik.num
    {
      assert e in StoreOf(s);
    }
  }

  // ---------- memtable switch and snapshots ----------

  lemma SwitchDisk(s: State, s': State)
    requires Inv(s) && SwitchMemTable(s, s')
    ensures LogsOk(s') && SequenceOk(s') && TablesOk(s')
  {
    assert SetOf(s'.mem) + SetOf(s'.inflight) == {};
    assert LogHolds([], {});
    assert SetOf(s.mem) + SetOf(s.inflight) == SetOf(s.mem);
  }

  lemma SwitchKeepsInv(s: State, s': State)
    requires Inv(s) && SwitchMemTable(s, s')
    ensures Inv(s')
  {
    assert StoreOf(s') == StoreOf(s);
    SwitchDisk(s, s');
    assert Horizon(s') == Horizon(s);
  }

  lemma TakeSnapshotKeepsInv(s: State, s': State)
    requires Inv(s) && TakeSnapshot(s, s')
    ensures Inv(s')
  {
    assert Horizon(s') == Horizon(s);
    assert StoreOf(s') == StoreOf(s);
  }

  lemma ReleaseSnapshotKeepsInv(s: State, s': State, i: nat)
    requires Inv(s) && ReleaseSnapshot(s, s', i)
    ensures Inv(s')
  {
    assert StoreOf(s') == StoreOf(s);
    assert Horizon(s') >= Horizon(s);
  }

  // ---------- flush ----------

  lemma FlushNewest(s: State, f: File)
    requires Inv(s) && s.imm.Some? && f.entries == s.imm.value && f.number == s.nextFile
    ensures NewestFile(s.version, f)
  {
    forall l, g | 0 <= l < |s.version| && g in s.version[l] ensures NewerThan(f, g) {
      forall d, e | d in f.entries && e in g.entries && d.ik.user == e.ik.user ensures d.ik.num > e.ik.num {
        Holds(s.version, l, g, e);
      }
    }
  }

  lemma FlushJob(s: State, s': State, level: nat, f: File)
    requires Inv(s) && Flush(s, s', level, f)
    ensures JobOk(s')
  {
    if s.job.Some? {
      var j := s.job.value;
      FlushNewest(s, f);
      AddKeepsPick(s.version, level, f, j.level, j.in0, j.in1);
      AddAtMembers(s.version, level, f);
      forall l, g, x | j.level + 2 <= l < |s'.version| && g in s'.version[l] && (x in j.in0 || x in j.in1)
        ensures g in j.base[l] || NewerThan(g, x)
      {
        if x in j.in0 { assert x in s.version[j.level]; } else { assert x in s.version[j.level + 1]; }
        assert g in s.version[l] || g == f;
        assert g in s.version[l] ==> g in j.base[l] || NewerThan(g, x);
      }
    }
  }

  lemma FlushDisk(s: State, s': State, level: nat, f: File)
    requires Inv(s) && Flush(s, s', level, f)
    requires Contents(s'.version) == Contents(s.version) + SetOf(f.entries)
    ensures TablesOk(s') && OutputsOk(s') && LogsOk(s') && SequenceOk(s')
  {
    AddAtMembers(s.version, level, f);
    forall e | e in Contents(s'.version) ensures e.ik.num <= s.lastSequence {
      assert e in StoreOf(s);
    }
    assert forall n :: n in s'.disk.logs && n >= s.logFile ==> n == s.logFile;
  }

  lemma FlushKeepsInv(s: State, s': State, level: nat, f: File)
    requires Inv(s) && Flush(s, s', level, f)
    ensures Inv(s')
  {
    FlushNewest(s, f);
    FlushKeepsVersion(s.version, level, f);
    assert StoreOf(s') == StoreOf(s);
    assert Horizon(s') == Horizon(s);
    assert Stacked(s'.mem, s'.imm, s'.version);
    FlushJob(s, s', level, f);
    FlushDisk(s, s', level, f);
  }

  lemma FlushEmptyKeepsInv(s: State, s': State)
    requires Inv(s) && FlushEmpty(s, s')
    ensures Inv(s')
  {
    assert StoreOf(s') == StoreOf(s);
    assert Horizon(s') == Horizon(s);
    forall e | e in Contents(s'.version) ensures e.ik.num <= s.lastSequence {
      assert e in StoreOf(s);
    }
    assert LogsOk(s') && SequenceOk(s');
  }

  // ---------- compaction ----------

  lemma StartKeepsInv(s: State, s': State, j: Job)
    requires Inv(s) && StartCompaction(s, s', j)
    ensures Inv(s')
  {
    assert StoreOf(s') == StoreOf(s);
    assert Horizon(s') == Horizon(s);
  }

  lemma AbandonKeepsInv(s: State, s': State, numbers: set<nat>)
    requires Inv(s) && AbandonCompaction(s, s', numbers)
    ensures Inv(s')
  {
    assert StoreOf(s') == StoreOf(s);
    assert Horizon(s') == Horizon(s);
  }

  lemma OpenOutputKeepsInv(s: State, s': State, partial: seq<Entry>)
    requires Inv(s) && OpenOutput(s, s', partial)
    ensures Inv(s')
  {
    assert StoreOf(s') == StoreOf(s);
    assert Horizon(s') == Horizon(s);
  }

  lemma FinishOutputKeepsInv(s: State, s': State, f: File)
    requires Inv(s) && FinishOutput(s, s', f)
    ensures Inv(s')
  {
    assert StoreOf(s') == StoreOf(s);
    assert Horizon(s') == Horizon(s);
    FinishOutputKeepsOutputs(s, s', f);
  }

  lemma FinishOutputKeepsOutputs(s: State, s': State, f: File)
    requires OutputsOk(s) && FinishOutput(s, s', f)
    ensures OutputsOk(s')
  {
    var was, outs := s.job.value.outputs, s'.job.value.outputs;
    forall i, k | 0 <= i < k < |outs| ensures outs[i].number != outs[k].number {
      assert was[i] in was;
    }
  }

  lemma RemoveKeepsInv(s: State, s': State, tables: set<nat>, logs: set<nat>, manifests: set<nat>)
    requires Inv(s) && RemoveObsoleteFiles(s, s', tables, logs, manifests)
    ensures Inv(s')
  {
    assert StoreOf(s') == StoreOf(s);
    assert Horizon(s') == Horizon(s);
    assert ManifestOf(s'.disk) == ManifestOf(s.disk);
  }

  lemma ResultIsGood(s: State, j: Job)
    requires Inv(s) && s.job == Some(j) && IsResult(j)
    ensures GoodOutputs(s.version, j.in0, j.in1, j.outputs)
    ensures LevelContents(j.outputs) <= InputEntries(j.in0, j.in1)
  {
    forall o, e | o in j.outputs && e in o.entries ensures FromInputs(j.in0, j.in1, e) {
      assert e in LevelContents(j.outputs);
      assert e in InputEntries(j.in0, j.in1);
    }
    forall l, g, o | 0 <= l < |s.version| && g in s.version[l] && o in j.outputs ensures !SameNumber(o, g) {
      assert o.number in s.pendingOutputs;
    }
  }

  lemma InstallVersion(s: State, j: Job)
    requires Inv(s) && s.job == Some(j) && IsResult(j)
    ensures j.level + 1 < |s.version| && InputEntries(j.in0, j.in1) <= Contents(s.version)
    ensures VersionOk(Replace(s.version, j.level, j.in0, j.in1, j.outputs))
    ensures Contents(Replace(s.version, j.level, j.in0, j.in1, j.outputs))
         == (Contents(s.version) - InputEntries(j.in0, j.in1)) + LevelContents(j.outputs)
  {
    ResultIsGood(s, j);
    CompactionKeepsVersion(s.version, j.level, j.in0, j.in1, j.outputs);
    ReplaceContents(s.version, j.level, j.in0, j.in1, j.outputs);
    InputsInContents(s.version, j.level, j.in0, j.in1);
  }

  /** Only the inputs change, to what survives of them. */
  lemma SurvivorsStay(rest: set<Entry>, contents: set<Entry>, inputs: set<Entry>, kept: set<Entry>,
                      base: Version, level: nat, smallest: nat)
    requires rest !! inputs && inputs <= contents
    requires forall e :: e in kept <==> Survives(inputs, base, level, smallest, e)
    ensures rest + ((contents - inputs) + kept) == Compacted(rest + contents, inputs, base, level, smallest)
    ensures (contents - inputs) + kept <= contents
  {
  }

  /** Replacing the inputs by the outputs is, for readers, the compacted store. */
  lemma InstallStore(s: State, s': State)
    requires Inv(s) && InstallCompaction(s, s')
    ensures VersionOk(s'.version) && Contents(s'.version) <= Contents(s.version)
    ensures var j := s.job.value;
      StoreOf(s') == Compacted(StoreOf(s), InputEntries(j.in0, j.in1), j.base, j.level, j.smallest)
  {
    var j := s.job.value;
    var inputs := InputEntries(j.in0, j.in1);
    InstallVersion(s, j);
    MemtablesApart(s, inputs);
    SurvivorsStay(SetOf(s.mem) + SetOf(ImmRun(s.imm)), Contents(s.version), inputs, LevelContents(j.outputs),
                  j.base, j.level, j.smallest);
  }

  lemma MemtablesApart(s: State, inputs: set<Entry>)
    requires Inv(s) && inputs <= Contents(s.version)
    ensures SetOf(s.mem) !! inputs && SetOf(ImmRun(s.imm)) !! inputs
  {
  }

  lemma InstallReads(s: State, s': State)
    requires Inv(s) && InstallCompaction(s, s')
    ensures VersionOk(s'.version) && Contents(s'.version) <= Contents(s.version)
    ensures HistoryOk(s') && Agrees(StoreOf(s'), s'.history, Horizon(s'))
  {
    var j := s.job.value;
    var inputs := InputEntries(j.in0, j.in1);
    InstallStore(s, s');
    InputsInContents(s.version, j.level, j.in0, j.in1);
    forall user, snap | snap >= Horizon(s') ensures Read(StoreOf(s'), user, snap) == Read(s'.history, user, snap) {
      assert !Resurrects(StoreOf(s), inputs, j.base, j.level, j.smallest, user);
      ReadAfter(StoreOf(s), inputs, j.base, j.level, j.smallest, user, snap);
    }
  }

  lemma OldTablesStay(s: State, s': State, l: nat, f: File)
    requires TablesOk(s) && InstallCompaction(s, s') && l < |s.version| && f in s.version[l]
    ensures f.number in s'.disk.tables && s'.disk.tables[f.number] == f.entries
    ensures f.number < s'.nextFile && f.number !in s'.pendingOutputs
  {
  }

  lemma OutputsAreTables(s: State, s': State, f: File)
    requires TablesOk(s) && OutputsOk(s) && InstallCompaction(s, s') && f in s.job.value.outputs
    ensures f.number in s'.disk.tables && s'.disk.tables[f.number] == f.entries
    ensures f.number < s'.nextFile && f.number !in s'.pendingOutputs
  {
    assert f.number in s.pendingOutputs;
    assert f.number in Numbers(s.job.value.outputs);
  }

  lemma InstallTables(s: State, s': State)
    requires VersionOk(s.version) && JobOk(s) && TablesOk(s) && OutputsOk(s) && InstallCompaction(s, s')
    ensures TablesOk(s')
  {
    var j := s.job.value;
    ReplaceMembers(s.version, j.level, j.in0, j.in1, j.outputs);
    forall l, f | 0 <= l < |s'.version| && f in s'.version[l]
      ensures f.number in s'.disk.tables && s'.disk.tables[f.number] == f.entries
      ensures f.number < s'.nextFile && f.number !in s'.pendingOutputs
    {
      if f in j.outputs { OutputsAreTables(s, s', f); } else { OldTablesStay(s, s', l, f); }
    }
  }

  lemma InstallStacked(s: State, s': State)
    requires Stacked(s.mem, s.imm, s.version) && Contents(s'.version) <= Contents(s.version)
    requires s'.mem == s.mem && s'.imm == s.imm
    ensures Stacked(s'.mem, s'.imm, s'.version)
  {
  }

  lemma InstallKeepsInv(s: State, s': State)
    requires Inv(s) && InstallCompaction(s, s')
    ensures Inv(s')
  {
    InstallReads(s, s');
    InstallStacked(s, s');
    InstallTables(s, s');
    InstallSequence(s, s');
  }

  lemma InstallSequence(s: State, s': State)
    requires LogsOk(s) && SequenceOk(s) && HistoryOk(s) && Contents(s'.version) <= Contents(s.version)
    requires s'.mem == s.mem && s'.imm == s.imm && s'.inflight == s.inflight && s'.logFile == s.logFile
    requires s'.nextFile == s.nextFile && s'.disk.logs == s.disk.logs && s'.lastSequence == s.lastSequence
    requires ManifestOf(s'.disk).logNumber == ManifestOf(s.disk).logNumber
    requires ManifestOf(s'.disk).nextFile == s.nextFile && ManifestOf(s.disk).nextFile <= s.nextFile
    requires ManifestOf(s'.disk).lastSequence == s.lastSequence && s'.history == s.history
    ensures LogsOk(s') && SequenceOk(s')
  {
    forall e | e in Contents(s'.version) ensures e.ik.num <= s.lastSequence {
      assert e in StoreOf(s);
    }
  }

  lemma MoveIsGood(v: Version, level: nat, f: File)
    requires VersionOk(v) && GoodPick(v, level, [f], [])
    ensures GoodOutputs(v, [f], [], [f])
    ensures VersionOk(Replace(v, level, [f], [], [f]))
    ensures Contents(Replace(v, level, [f], [], [f])) == Contents(v)
  {
    forall e | e in f.entries ensures FromInputs([f], [], e) {
      assert f in [f];
    }
    assert f in [f] && f in v[level];
    CompactionKeepsVersion(v, level, [f], [], [f]);
    ReplaceContents(v, level, [f], [], [f]);
    InputsInContents(v, level, [f], []);
  }

  lemma MoveTables(s: State, s': State, level: nat, f: File)
    requires VersionOk(s.version) && TablesOk(s) && TrivialMove(s, s', level, f)
    ensures TablesOk(s')
  {
    ReplaceMembers(s.version, level, [f], [], [f]);
    assert f in [f] && f in s.version[level];
    forall l, g | 0 <= l < |s'.version| && g in s'.version[l]
      ensures exists m :: 0 <= m < |s.version| && g in s.version[m]
    {
    }
  }

  lemma MoveKeepsInv(s: State, s': State, level: nat, f: File)
    requires Inv(s) && TrivialMove(s, s', level, f)
    ensures Inv(s')
  {
    MoveIsGood(s.version, level, f);
    assert StoreOf(s') == StoreOf(s);
    assert Horizon(s') == Horizon(s);
    InstallSequence(s, s');
    MoveTables(s, s', level, f);
  }
}
