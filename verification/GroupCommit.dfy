/** Group commit (db/db_impl.cc, DBImpl::Write and BuildBatchGroup): concurrent writers queue up,
    the one at the front logs and applies a group for all of its members. */
module GroupCommit {
  import opened DbFormat

  datatype Op = Op(user: UserKey, kind: Kind, value: Value)

  /** A write batch: its updates, and the size of its encoding in bytes. */
  datatype Batch = Batch(ops: seq<Op>, size: nat)

  /** What a writer asks for; a null batch only asks for a memtable switch. */
  datatype Request = Request(batch: Option<Batch>, sync: bool)

  // ---------- BuildBatchGroup ----------

  function OpsOf(w: Request): seq<Op> { if w.batch.Some? then w.batch.value.ops else [] }

  function SizeOf(w: Request): nat { if w.batch.Some? then w.batch.value.size else 0 }

  /** The updates of the batches, in queue order. */
  function Joined(ws: seq<Request>): seq<Op> {
    if ws == [] then [] else Joined(ws[..|ws| - 1]) + OpsOf(ws[|ws| - 1])
  }

  function TotalSize(ws: seq<Request>): nat {
    if ws == [] then 0 else TotalSize(ws[..|ws| - 1]) + SizeOf(ws[|ws| - 1])
  }

  /** A small first write does not wait for a big group. */
  function MaxSize(first: nat): nat {
    if first <= 0x2_0000 then first + 0x2_0000 else 0x10_0000
  }

  /** Writer `i` may ride in the group that the first writer leads. */
  predicate CanJoin(ws: seq<Request>, i: nat)
    requires i < |ws| && ws[0].batch.Some?
  {
    && (ws[i].sync ==> ws[0].sync)
    && (ws[i].batch.Some? ==> TotalSize(ws[..i + 1]) <= MaxSize(ws[0].batch.value.size))
  }

  /** The first `k` writers are the longest group. */
  ghost predicate IsGroup(ws: seq<Request>, k: nat) {
    && 0 < k <= |ws| && ws[0].batch.Some?
    && (forall i :: 0 < i < k ==> CanJoin(ws, i))
    && (k < |ws| ==> !CanJoin(ws, k))
  }

  /** Of the updates, those from `ends[i]` to `ends[i + 1]` are the batch of writer `i`. */
  ghost predicate Stretch(ws: seq<Request>, ops: seq<Op>, ends: seq<nat>, i: nat)
    requires i < |ws| == |ends| - 1
  {
    && ends[i] <= ends[i + 1] <= |ops|
    && ops[ends[i]..ends[i + 1]] == if ws[i].batch.Some? then ws[i].batch.value.ops else []
  }

  /** The batches end to end and nothing else. */
  ghost predicate EndToEnd(ws: seq<Request>, ops: seq<Op>, ends: seq<nat>) {
    && |ends| == |ws| + 1 && ends[0] == 0 && ends[|ws|] == |ops|
    && forall i {:trigger Stretch(ws, ops, ends, i)} :: 0 <= i < |ws| ==> Stretch(ws, ops, ends, i)
  }

  function Ends(ws: seq<Request>): (r: seq<nat>)
    ensures |r| == |ws| + 1
  {
    if ws == [] then [0] else Ends(ws[..|ws| - 1]) + [|Joined(ws)|]
  }

  lemma {:induction false} JoinedEndToEnd(ws: seq<Request>)
    ensures EndToEnd(ws, Joined(ws), Ends(ws))
    decreases |ws|
  {
    if ws != [] {
      var front := ws[..|ws| - 1];
      JoinedEndToEnd(front);
      EndToEndSnoc(front, Joined(front), Ends(front), ws[|ws| - 1]);
      assert front + [ws[|ws| - 1]] == ws;
    }
  }

  lemma {:induction false} EndsAt(ws: seq<Request>, i: nat)
    requires i <= |ws|
    ensures Ends(ws)[i] == |Joined(ws[..i])|
    decreases |ws|
  {
    if i == |ws| {
      assert ws[..i] == ws;
    } else {
      var front := ws[..|ws| - 1];
      EndsAt(front, i);
      assert front[..i] == ws[..i];
    }
  }

  lemma EndToEndSnoc(ws: seq<Request>, ops: seq<Op>, ends: seq<nat>, w: Request)
    requires EndToEnd(ws, ops, ends)
    ensures EndToEnd(ws + [w], ops + OpsOf(w), ends + [|ops| + |OpsOf(w)|])
  {
    var all, longer, wider := ops + OpsOf(w), ends + [|ops| + |OpsOf(w)|], ws + [w];
    forall i | 0 <= i < |wider| ensures Stretch(wider, all, longer, i) {
      if i < |ws| {
        assert Stretch(ws, ops, ends, i);
        assert all[longer[i]..longer[i + 1]] == ops[ends[i]..ends[i + 1]];
      } else {
        assert all[|ops|..|all|] == OpsOf(w);
      }
    }
  }

  /** There is one way only to put batches end to end. */
  lemma {:induction false} OneEndToEnd(ws: seq<Request>, a: seq<Op>, aEnds: seq<nat>, b: seq<Op>, bEnds: seq<nat>, n: nat)
    requires EndToEnd(ws, a, aEnds) && EndToEnd(ws, b, bEnds) && n <= |ws|
    ensures aEnds[n] == bEnds[n] <= |a| && bEnds[n] <= |b| && a[..aEnds[n]] == b[..bEnds[n]]
  {
    if n > 0 {
      OneEndToEnd(ws, a, aEnds, b, bEnds, n - 1);
      assert Stretch(ws, a, aEnds, n - 1) && Stretch(ws, b, bEnds, n - 1);
      assert a[..aEnds[n]] == a[..aEnds[n - 1]] + a[aEnds[n - 1]..aEnds[n]];
      assert b[..bEnds[n]] == b[..bEnds[n - 1]] + b[bEnds[n - 1]..bEnds[n]];
    }
  }

  lemma {:induction false} TotalSizeAdds(a: seq<Request>, b: seq<Request>)
    ensures TotalSize(a + b) == TotalSize(a) + TotalSize(b)
  {
    if b == [] {
      assert a + b == a;
    } else {
      TotalSizeAdds(a, b[..|b| - 1]);
      assert (a + b)[..|a + b| - 1] == a + b[..|b| - 1];
    }
  }

  /** Over 128 kilobytes a first write takes no more with it than makes up a megabyte; up to there it
      takes no more than another 128 kilobytes. */
  lemma {:induction false} GroupFits(ws: seq<Request>, k: nat, m: nat)
    requires IsGroup(ws, k) && 0 < m <= k
    ensures var first := ws[0].batch.value.size;
      TotalSize(ws[..m]) <= if first <= 131072 then first + 131072 else if first <= 1048576 then 1048576 else first
  {
    TotalSizeAdds(ws[..m - 1], [ws[m - 1]]);
    assert ws[..m - 1] + [ws[m - 1]] == ws[..m];
    if m == 1 {
      assert ws[..0] == [];
    } else {
      GroupFits(ws, k, m - 1);
      assert CanJoin(ws, m - 1);
    }
  }

  /** Who is left behind asked for a sync that the leader does not do, or is too big. */
  lemma LeftBehind(ws: seq<Request>, k: nat)
    requires IsGroup(ws, k) && k < |ws|
    ensures var first := ws[0].batch.value.size;
      || (ws[k].sync && !ws[0].sync)
      || (ws[k].batch.Some?
          && TotalSize(ws[..k]) + ws[k].batch.value.size > if first <= 131072 then first + 131072 else 1048576)
  {
    TotalSizeAdds(ws[..k], [ws[k]]);
    assert ws[..k] + [ws[k]] == ws[..k + 1];
  }

  method BuildBatchGroup(ws: seq<Request>) returns (k: nat, ops: seq<Op>)
    requires ws != [] && ws[0].batch.Some?
    ensures IsGroup(ws, k) && ops == Joined(ws[..k])
    ensures EndToEnd(ws[..k], ops, Ends(ws[..k]))
    ensures k == 1 ==> ops == ws[0].batch.value.ops
  {
    var size := ws[0].batch.value.size;
    var maxSize := MaxSize(size);
    ops, k := ws[0].batch.value.ops, 1;
    assert ws[..1][..0] == [] && ws[..1][0] == ws[0];
    while k < |ws|
      invariant 1 <= k <= |ws| && (k == 1 ==> ops == ws[0].batch.value.ops)
      invariant forall i :: 0 < i < k ==> CanJoin(ws, i)
      invariant size == TotalSize(ws[..k]) && ops == Joined(ws[..k])
    {
      assert ws[..k + 1][..k] == ws[..k];
      var w := ws[k];
      if w.sync && !ws[0].sync {
        break;
      }
      if w.batch.Some? {
        size := size + w.batch.value.size;
        if size > maxSize {
          break;
        }
        ops := ops + w.batch.value.ops;
      }
      k := k + 1;
    }
    JoinedEndToEnd(ws[..k]);
  }

  // ---------- the state machine ----------

  /** Where the thread of a writer is. */
  datatype Place = Waiting | Leading | Returned

  /** What the writer at the front of the queue is doing, for a group of the first `k`. */
  datatype Phase =
    | Idle
    | MakingRoom
    | Logging(k: nat)
    | Syncing(k: nat)
    | Inserting(k: nat, done: nat)
    | Finishing(k: nat, formed: bool, logged: bool, ok: bool)

  datatype Record = Record(first: nat, ops: seq<Op>)

  /** A finished group: writers [from, to), its updates numbered from `first`, the index of its
      log record if there is one, and the status its members got. No code reads these. */
  datatype Group = Group(from: nat, to: nat, first: nat, ops: seq<Op>, record: Option<nat>, ok: bool)

  /** All requests in order of arrival; the queue holds indices into them. `status` is set for a
      writer when it is done. `mem` is what the memtables were given; `synced` the log records
      known to be on stable storage, `fileStart` the first record of the current log file. */
  datatype State = State(
    requests: seq<Request>, queue: seq<nat>, status: map<nat, bool>, places: seq<Place>,
    phase: Phase, lastSequence: nat,
    log: seq<Record>, fileStart: nat, synced: set<nat>, mem: map<nat, Op>, bgError: bool,
    groups: seq<Group>)

  ghost predicate Init(s: State) {
    s == State([], [], map[], [], Idle, 0, [], 0, {}, map[], false, [])
  }

  /** How many writers left the queue, and the requests still in it. */
  function Head(s: State): int { |s.requests| - |s.queue| }

  function Queued(s: State): seq<Request>
    requires |s.queue| <= |s.requests|
  {
    s.requests[Head(s)..]
  }

  /** The updates of the first `k` in the queue. */
  function Ops(s: State, k: nat): seq<Op> {
    if k <= |s.queue| <= |s.requests| then Joined(s.requests[Head(s)..Head(s) + k]) else []
  }

  ghost predicate Enqueue(s: State, s': State, request: Request) {
    s' == s.(requests := s.requests + [request], queue := s.queue + [|s.requests|], places := s.places + [Waiting])
  }

  /** The thread whose writer reached the front of the queue takes the lead. */
  ghost predicate Lead(s: State, s': State, w: nat) {
    && s.queue != [] && w == s.queue[0] && w < |s.places|
    && s.places[w].Waiting? && w !in s.status
    && s' == s.(phase := MakingRoom, places := s.places[w := Leading])
  }

  /** MakeRoomForWrite may start a new log file. */
  ghost predicate RotateLog(s: State, s': State) {
    s.phase.MakingRoom? && s' == s.(fileStart := |s.log|)
  }

  /** No room, or a null batch: the leader finishes alone, writing nothing. */
  ghost predicate Refuse(s: State, s': State, ok: bool) {
    && s.phase.MakingRoom? && 0 < |s.queue| <= |s.requests|
    && (ok ==> s.requests[Head(s)].batch.None? && !s.bgError)
    && s' == s.(phase := Finishing(1, false, false, ok))
  }

  ghost predicate Build(s: State, s': State, k: nat) {
    && s.phase.MakingRoom? && !s.bgError && |s.queue| <= |s.requests| && IsGroup(Queued(s), k)
    && s' == s.(phase := Logging(k))
  }

  ghost predicate Append(s: State, s': State, ok: bool) {
    && s.phase.Logging? && 0 < s.phase.k <= |s.queue| <= |s.requests|
    && var k := s.phase.k;
       if ok then
         s' == s.(log := s.log + [Record(s.lastSequence + 1, Ops(s, k))],
                  phase := if s.requests[Head(s)].sync then Syncing(k) else Inserting(k, 0))
       else s' == s.(phase := Finishing(k, true, false, false))
  }

  ghost predicate Sync(s: State, s': State, ok: bool) {
    && s.phase.Syncing?
    && if ok then
         s' == s.(synced := s.synced + (set i {:trigger s.log[i]} | s.fileStart <= i < |s.log|), phase := Inserting(s.phase.k, 0))
       else s' == s.(phase := Finishing(s.phase.k, true, true, false))
  }

  /** One update of the group reaches the memtable; readers may run in between. */
  ghost predicate InsertOne(s: State, s': State) {
    && s.phase.Inserting? && s.phase.k <= |s.queue| <= |s.requests|
    && var k, i := s.phase.k, s.phase.done;
       && i < |Ops(s, k)|
       && s' == s.(mem := s.mem[s.lastSequence + 1 + i := Ops(s, k)[i]], phase := Inserting(k, i + 1))
  }

  ghost predicate Inserted(s: State, s': State) {
    && s.phase.Inserting? && s.phase.k <= |s.queue| <= |s.requests|
    && s.phase.done == |Ops(s, s.phase.k)|
    && s' == s.(phase := Finishing(s.phase.k, true, true, true))
  }

  /** The group the leader is about to finish. */
  function Closing(s: State): Group
    requires s.phase.Finishing? && 0 < s.phase.k <= |s.queue| <= |s.requests| && (s.phase.logged ==> s.log != [])
  {
    var k := s.phase.k;
    Group(Head(s), Head(s) + k, s.lastSequence + 1, if s.phase.formed then Ops(s, k) else [],
          if s.phase.logged then Some(|s.log| - 1) else None, s.phase.ok)
  }

  /** The leader publishes the sequence number, wakes the members of its group and returns. */
  ghost predicate Finish(s: State, s': State) {
    && s.phase.Finishing? && 0 < s.phase.k <= |s.queue| <= |s.requests| && (s.phase.logged ==> s.log != [])
    && |s.places| == |s.requests|
    && var g := Closing(s);
       s' == s.(
         phase := Idle, queue := s.queue[s.phase.k..], lastSequence := s.lastSequence + |g.ops|,
         bgError := s.bgError || (s.phase.logged && !s.phase.ok),
         status := s.status + (map w {:trigger s.places[w]} | g.from <= w < g.to :: g.ok),
         places := s.places[g.from := Returned],
         groups := s.groups + [g])
  }

  /** A waiting thread finds its writer done. */
  ghost predicate Return(s: State, s': State, w: nat) {
    && w < |s.places| && s.places[w].Waiting? && w in s.status
    && s' == s.(places := s.places[w := Returned])
  }

  ghost predicate BackgroundError(s: State, s': State) {
    s' == s.(bgError := true)
  }

  datatype Step =
    | Enqueues(request: Request)
    | Leads(writer: nat)
    | RotatesLog
    | Refuses(ok: bool)
    | Builds(k: nat)
    | Appends(ok: bool)
    | Syncs(ok: bool)
    | InsertsOne
    | EndsInsert
    | Finishes
    | Returns(writer: nat)
    | Fails

  ghost predicate Takes(s: State, s': State, step: Step) {
    match step
    case Enqueues(request) => Enqueue(s, s', request)
    case Leads(w) => Lead(s, s', w)
    case RotatesLog => RotateLog(s, s')
    case Refuses(ok) => Refuse(s, s', ok)
    case Builds(k) => Build(s, s', k)
    case Appends(ok) => Append(s, s', ok)
    case Syncs(ok) => Sync(s, s', ok)
    case InsertsOne => InsertOne(s, s')
    case EndsInsert => Inserted(s, s')
    case Finishes => Finish(s, s')
    case Returns(w) => Return(s, s', w)
    case Fails => BackgroundError(s, s')
  }

  ghost predicate Next(s: State, s': State) {
    exists step :: Takes(s, s', step)
  }

  // ---------- the invariant ----------

  ghost predicate QueueOk(s: State) {
    && |s.queue| <= |s.requests| && |s.places| == |s.requests|
    && (forall i :: 0 <= i < |s.queue| ==> s.queue[i] == Head(s) + i)
    && (forall w :: w in s.status <==> 0 <= w < Head(s))
    && (forall w :: 0 <= w < Head(s) ==> !s.places[w].Leading?)
    && (forall w :: Head(s) <= w < |s.places| ==>
          s.places[w] == if w == Head(s) && !s.phase.Idle? then Leading else Waiting)
  }

  /** A group whose leader does not sync has no member that asked for it. */
  ghost predicate SyncRule(requests: seq<Request>, from: int, to: int) {
    0 <= from < to <= |requests| && forall w :: from <= w < to && requests[w].sync ==> requests[from].sync
  }

  /** The size of the group in progress, and whether its record is in the log. */
  function Size(p: Phase): nat {
    if p.Idle? then 0 else if p.MakingRoom? then 1 else p.k
  }

  predicate InLog(p: Phase) { p.Syncing? || p.Inserting? || (p.Finishing? && p.logged) }

  predicate Settled(p: Phase) { p.Inserting? || (p.Finishing? && p.logged && p.ok) }

  ghost predicate PhaseOk(s: State)
    requires QueueOk(s)
  {
    && (!s.phase.Idle? ==> 0 < Size(s.phase) <= |s.queue| && SyncRule(s.requests, Head(s), Head(s) + Size(s.phase)))
    && s.fileStart <= |s.log| && (s.phase.Syncing? ==> s.fileStart < |s.log|)
    && (s.phase.Inserting? ==> s.phase.done <= |Ops(s, s.phase.k)|)
    && (Settled(s.phase) && s.requests[Head(s)].sync ==> |s.log| - 1 in s.synced)
    && (s.phase.Finishing? ==>
          && (if s.phase.formed then s.phase.ok ==> s.phase.logged else s.phase.k == 1 && !s.phase.logged)
          && (s.phase.ok && !s.phase.formed ==> s.requests[Head(s)].batch.None?))
  }

  /** The records of the groups that reached the log. */
  ghost function Logged(groups: seq<Group>): seq<Record> {
    if groups == [] then []
    else var g := groups[|groups| - 1];
      Logged(groups[..|groups| - 1]) + if g.record.Some? then [Record(g.first, g.ops)] else []
  }

  ghost predicate LogOk(s: State) {
    s.log == Logged(s.groups) + if InLog(s.phase) then [Record(s.lastSequence + 1, Ops(s, s.phase.k))] else []
  }

  /** Updates numbered one after the other. */
  ghost function Entries(first: nat, ops: seq<Op>): map<nat, Op> {
    if ops == [] then map[] else Entries(first, ops[..|ops| - 1])[first + |ops| - 1 := ops[|ops| - 1]]
  }

  /** The updates of the groups that succeeded. */
  ghost function Applied(groups: seq<Group>): map<nat, Op> {
    if groups == [] then map[]
    else var g := groups[|groups| - 1];
      Applied(groups[..|groups| - 1]) + if g.ok then Entries(g.first, g.ops) else map[]
  }

  /** The updates of the group in progress that are in the memtable. */
  ghost function Given(s: State): seq<Op> {
    if s.phase.Inserting? && s.phase.done <= |Ops(s, s.phase.k)| then Ops(s, s.phase.k)[..s.phase.done]
    else if Settled(s.phase) then Ops(s, s.phase.k)
    else []
  }

  ghost predicate MemOk(s: State) {
    s.mem == Applied(s.groups) + Entries(s.lastSequence + 1, Given(s))
  }

  function EndOf(groups: seq<Group>, i: nat): nat
    requires i <= |groups|
  {
    if i == 0 then 0 else groups[i - 1].to
  }

  function NextSeq(groups: seq<Group>, i: nat): nat
    requires i <= |groups|
  {
    if i == 0 then 1 else groups[i - 1].first + |groups[i - 1].ops|
  }

  /** Group `i` takes up the writers and the sequence numbers where the previous one ended. */
  ghost predicate GroupOk(s: State, i: nat)
    requires i < |s.groups|
  {
    var g := s.groups[i];
    && g.from == EndOf(s.groups, i) && g.first == NextSeq(s.groups, i)
    && SyncRule(s.requests, g.from, g.to)
    && (forall w :: g.from <= w < g.to ==> w in s.status && s.status[w] == g.ok)
    && Recorded(s, g)
  }

  /** What the log and stable storage have of a finished group. */
  ghost predicate Recorded(s: State, g: Group)
    requires g.from < g.to <= |s.requests|
  {
    && (g.ops == Joined(s.requests[g.from..g.to]) || (g.record.None? && g.ops == [] && g.to == g.from + 1))
    && (g.ok ==> g.ops == Joined(s.requests[g.from..g.to]))
    && (g.ok ==> g.record.Some? || (g.to == g.from + 1 && s.requests[g.from].batch.None?))
    && (g.record.Some? ==> g.record.value < |s.log| && s.log[g.record.value] == Record(g.first, g.ops))
    && (g.ok && g.record.Some? && s.requests[g.from].sync ==> g.record.value in s.synced)
  }

  ghost predicate GroupsOk(s: State) {
    && (forall i {:trigger GroupOk(s, i)} :: 0 <= i < |s.groups| ==> GroupOk(s, i))
    && EndOf(s.groups, |s.groups|) == Head(s)
    && NextSeq(s.groups, |s.groups|) == s.lastSequence + 1
  }

  ghost predicate Inv(s: State) {
    && QueueOk(s) && PhaseOk(s) && LogOk(s) && MemOk(s) && GroupsOk(s)
  }

  // ---------- every step keeps the invariant ----------

  /** Nothing a finished group says is taken back. */
  ghost predicate Grows(s: State, s': State) {
    && s'.groups == s.groups && s'.status == s.status && s'.lastSequence == s.lastSequence && Head(s') == Head(s)
    && s.requests <= s'.requests && s.log <= s'.log && s.synced <= s'.synced
  }

  lemma GrowsKeepsGroups(s: State, s': State)
    requires GroupsOk(s) && Grows(s, s')
    ensures GroupsOk(s')
  {
    forall i | 0 <= i < |s'.groups| ensures GroupOk(s', i) {
      assert GroupOk(s, i);
      var g := s.groups[i];
      assert s'.requests[g.from..g.to] == s.requests[g.from..g.to];
    }
  }

  lemma GrowsKeepsOps(s: State, s': State, k: nat)
    requires Grows(s, s') && k <= |s.queue| <= |s.requests| && k <= |s'.queue| <= |s'.requests|
    ensures Ops(s', k) == Ops(s, k)
  {
    assert s'.requests[Head(s)..Head(s) + k] == s.requests[Head(s)..Head(s) + k];
  }

  /** A step that leaves log and memtable alone, and does not change what the group in progress
      has put there. */
  lemma StillInPlace(s: State, s': State)
    requires LogOk(s) && MemOk(s) && Grows(s, s') && s'.log == s.log && s'.mem == s.mem
    requires |s.queue| <= |s.requests| && |s'.queue| <= |s'.requests|
    requires InLog(s.phase) == InLog(s'.phase) && Settled(s.phase) == Settled(s'.phase)
    requires InLog(s.phase) ==> s.phase.k == s'.phase.k <= |s.queue| && |s.queue| <= |s'.queue|
    requires Settled(s.phase) ==> Given(s) == Given(s')
    ensures LogOk(s') && MemOk(s')
  {
    if InLog(s.phase) { GrowsKeepsOps(s, s', s.phase.k); }
  }

  lemma EnqueueKeepsQueue(s: State, s': State, request: Request)
    requires QueueOk(s) && PhaseOk(s) && Enqueue(s, s', request)
    ensures QueueOk(s') && PhaseOk(s')
  {
    GrowsKeepsOps(s, s', Size(s.phase));
  }

  lemma EnqueueKeepsInv(s: State, s': State, request: Request)
    requires Inv(s) && Enqueue(s, s', request)
    ensures Inv(s')
  {
    EnqueueKeepsQueue(s, s', request);
    GrowsKeepsGroups(s, s');
    GrowsKeepsOps(s, s', Size(s.phase));
    StillInPlace(s, s');
  }

  lemma LeadKeepsInv(s: State, s': State, w: nat)
    requires Inv(s) && Lead(s, s', w)
    ensures Inv(s')
  {
    GrowsKeepsGroups(s, s');
    StillInPlace(s, s');
  }

  lemma BuildKeepsInv(s: State, s': State, k: nat)
    requires Inv(s) && Build(s, s', k)
    ensures Inv(s')
  {
    GrowsKeepsGroups(s, s');
    forall w | Head(s) <= w < Head(s) + k && s.requests[w].sync ensures s.requests[Head(s)].sync {
      assert Queued(s)[w - Head(s)] == s.requests[w];
      assert w > Head(s) ==> CanJoin(Queued(s), w - Head(s));
    }
    StillInPlace(s, s');
  }

  lemma AppendKeepsInv(s: State, s': State, ok: bool)
    requires Inv(s) && Append(s, s', ok)
    ensures Inv(s')
  {
    GrowsKeepsGroups(s, s');
    AppendKeepsRest(s, s', ok);
  }

  lemma AppendKeepsRest(s: State, s': State, ok: bool)
    requires QueueOk(s) && PhaseOk(s) && LogOk(s) && MemOk(s) && Append(s, s', ok)
    ensures QueueOk(s') && PhaseOk(s') && LogOk(s') && MemOk(s')
  {
    GrowsKeepsOps(s, s', s.phase.k);
    assert Given(s) == Given(s') == [];
  }

  lemma SyncKeepsInv(s: State, s': State, ok: bool)
    requires Inv(s) && Sync(s, s', ok)
    ensures Inv(s')
  {
    GrowsKeepsGroups(s, s');
    GrowsKeepsOps(s, s', s.phase.k);
  }

  lemma InsertOneKeepsInv(s: State, s': State)
    requires Inv(s) && InsertOne(s, s')
    ensures Inv(s')
  {
    GrowsKeepsGroups(s, s');
    GrowsKeepsOps(s, s', s.phase.k);
    InsertOneKeepsMem(s, s');
  }

  lemma InsertOneKeepsMem(s: State, s': State)
    requires MemOk(s) && InsertOne(s, s') && Ops(s', s.phase.k) == Ops(s, s.phase.k)
    ensures MemOk(s')
  {
    var ops, i := Ops(s, s.phase.k), s.phase.done;
    assert Given(s) == ops[..i] && Given(s') == ops[..i + 1];
    MemStep(Applied(s.groups), s.lastSequence + 1, ops, i);
  }

  lemma MemStep(mem: map<nat, Op>, first: nat, ops: seq<Op>, i: nat)
    requires i < |ops|
    ensures (mem + Entries(first, ops[..i]))[first + i := ops[i]] == mem + Entries(first, ops[..i + 1])
  {
    assert ops[..i + 1][..i] == ops[..i];
  }

  lemma InsertedKeepsInv(s: State, s': State)
    requires Inv(s) && Inserted(s, s')
    ensures Inv(s')
  {
    GrowsKeepsGroups(s, s');
    GrowsKeepsOps(s, s', s.phase.k);
    StillInPlace(s, s');
  }

  lemma RefuseKeepsInv(s: State, s': State, ok: bool)
    requires Inv(s) && Refuse(s, s', ok)
    ensures Inv(s')
  {
    GrowsKeepsGroups(s, s');
    StillInPlace(s, s');
  }

  lemma RotateLogKeepsInv(s: State, s': State)
    requires Inv(s) && RotateLog(s, s')
    ensures Inv(s')
  {
    GrowsKeepsGroups(s, s');
    StillInPlace(s, s');
  }

  lemma ReturnKeepsInv(s: State, s': State, w: nat)
    requires Inv(s) && Return(s, s', w)
    ensures Inv(s')
  {
    GrowsKeepsGroups(s, s');
    GrowsKeepsOps(s, s', Size(s.phase));
    StillInPlace(s, s');
  }

  lemma BackgroundErrorKeepsInv(s: State, s': State)
    requires Inv(s) && BackgroundError(s, s')
    ensures Inv(s')
  {
    GrowsKeepsGroups(s, s');
    GrowsKeepsOps(s, s', Size(s.phase));
    StillInPlace(s, s');
  }

  lemma FinishKeepsQueue(s: State, s': State)
    requires QueueOk(s) && PhaseOk(s) && Finish(s, s')
    ensures QueueOk(s') && PhaseOk(s') && Head(s') == Head(s) + s.phase.k
  {
  }

  lemma FinishKeepsGroups(s: State, s': State)
    requires Inv(s) && Finish(s, s') && Head(s') == Head(s) + s.phase.k
    ensures GroupsOk(s')
  {
    var n := |s.groups|;
    forall i | 0 <= i < |s'.groups| ensures GroupOk(s', i) {
      if i < n {
        FinishKeepsGroup(s, s', i);
      } else {
        ClosingOk(s, s');
      }
    }
  }

  lemma {:induction false} EndsRise(s: State, i: nat)
    requires GroupsOk(s) && i <= |s.groups|
    ensures EndOf(s.groups, i) <= Head(s)
    decreases |s.groups| - i
  {
    if i < |s.groups| {
      assert GroupOk(s, i);
      EndsRise(s, i + 1);
    }
  }

  lemma FinishKeepsGroup(s: State, s': State, i: nat)
    requires QueueOk(s) && GroupsOk(s) && i < |s.groups| && Finish(s, s')
    ensures GroupOk(s', i)
  {
    assert GroupOk(s, i);
    EndsRise(s, i + 1);
    var g := s.groups[i];
    assert s'.groups[i] == g && EndOf(s'.groups, i) == EndOf(s.groups, i) && NextSeq(s'.groups, i) == NextSeq(s.groups, i);
  }

  lemma ClosingOk(s: State, s': State)
    requires QueueOk(s) && PhaseOk(s) && LogOk(s) && GroupsOk(s) && Finish(s, s')
    ensures GroupOk(s', |s.groups|)
  {
    var n, g := |s.groups|, Closing(s);
    assert s'.groups[n] == g;
    assert EndOf(s'.groups, n) == EndOf(s.groups, n) && NextSeq(s'.groups, n) == NextSeq(s.groups, n);
    ClosingRecorded(s, s');
  }

  lemma ClosingRecorded(s: State, s': State)
    requires QueueOk(s) && PhaseOk(s) && LogOk(s) && Finish(s, s')
    ensures Recorded(s', Closing(s))
  {
    if s.phase.ok && !s.phase.formed { NullGroup(s); }
  }

  /** A null batch adds no updates. */
  lemma NullGroup(s: State)
    requires 0 < |s.queue| <= |s.requests| && s.requests[Head(s)].batch.None?
    ensures Ops(s, 1) == []
  {
    var w := s.requests[Head(s)];
    assert s.requests[Head(s)..Head(s) + 1] == [w];
    assert [w][..|[w]| - 1] == [];
    assert Joined([w]) == Joined([]) + OpsOf(w);
  }

  lemma FinishKeepsLog(s: State, s': State)
    requires QueueOk(s) && PhaseOk(s) && LogOk(s) && Finish(s, s')
    ensures LogOk(s')
  {
    assert s'.groups[..|s.groups|] == s.groups;
  }

  lemma FinishKeepsMem(s: State, s': State)
    requires QueueOk(s) && PhaseOk(s) && MemOk(s) && Finish(s, s')
    ensures MemOk(s')
  {
    var g := Closing(s);
    GivenAtEnd(s);
    AppliedStep(s.groups, g);
    SettleMem(Applied(s.groups), g.first, Given(s), g.ok, g.ops, s'.lastSequence + 1);
    assert Given(s') == [];
  }

  lemma SettleMem(mem: map<nat, Op>, first: nat, given: seq<Op>, ok: bool, ops: seq<Op>, next: nat)
    requires given == if ok then ops else []
    ensures mem + Entries(first, given) == mem + (if ok then Entries(first, ops) else map[]) + Entries(next, [])
  {
  }

  lemma GivenAtEnd(s: State)
    requires QueueOk(s) && PhaseOk(s) && s.phase.Finishing? && (s.phase.logged ==> s.log != [])
    ensures Given(s) == if s.phase.ok then Closing(s).ops else []
  {
  }

  lemma AppliedStep(groups: seq<Group>, g: Group)
    ensures Applied(groups + [g]) == Applied(groups) + if g.ok then Entries(g.first, g.ops) else map[]
  {
    assert (groups + [g])[..|groups|] == groups;
  }

  lemma FinishKeepsInv(s: State, s': State)
    requires Inv(s) && Finish(s, s')
    ensures Inv(s')
  {
    FinishKeepsQueue(s, s');
    FinishKeepsLog(s, s');
    FinishKeepsMem(s, s');
    FinishKeepsGroups(s, s');
  }

  lemma InitInv(s: State)
    requires Init(s)
    ensures Inv(s)
  {
  }

  lemma NextKeepsInv(s: State, s': State)
    requires Inv(s) && Next(s, s')
    ensures Inv(s')
  {
    var step :| Takes(s, s', step);
    match step {
      case Enqueues(request) => EnqueueKeepsInv(s, s', request);
      case Leads(w) => LeadKeepsInv(s, s', w);
      case RotatesLog => RotateLogKeepsInv(s, s');
      case Refuses(ok) => RefuseKeepsInv(s, s', ok);
      case Builds(k) => BuildKeepsInv(s, s', k);
      case Appends(ok) => AppendKeepsInv(s, s', ok);
      case Syncs(ok) => SyncKeepsInv(s, s', ok);
      case InsertsOne => InsertOneKeepsInv(s, s');
      case EndsInsert => InsertedKeepsInv(s, s');
      case Finishes => FinishKeepsInv(s, s');
      case Returns(w) => ReturnKeepsInv(s, s', w);
      case Fails => BackgroundErrorKeepsInv(s, s');
    }
  }

  // ---------- what holds in every run ----------

  ghost predicate Run(states: seq<State>) {
    && states != [] && Init(states[0])
    && forall i :: 0 <= i < |states| - 1 ==> Next(states[i], states[i + 1])
  }

  lemma {:induction false} RunInv(states: seq<State>, n: nat)
    requires Run(states) && n < |states|
    ensures Inv(states[n])
  {
    if n == 0 {
      InitInv(states[0]);
    } else {
      RunInv(states, n - 1);
      NextKeepsInv(states[n - 1], states[n]);
    }
  }

  /** Every writer that left the queue was in exactly one group, and the groups follow each other in
      the order the writers arrived. */
  lemma InOneGroup(s: State, w: nat) returns (i: nat)
    requires Inv(s) && w < Head(s)
    ensures i < |s.groups| && s.groups[i].from <= w < s.groups[i].to
    ensures forall j :: 0 <= j < |s.groups| && s.groups[j].from <= w < s.groups[j].to ==> j == i
  {
    InvChained(s);
    i := FindGroup(s.groups, |s.groups|, w);
    forall j | 0 <= j < |s.groups| && s.groups[j].from <= w < s.groups[j].to ensures j == i {
      if j < i { GroupsApart(s.groups, j, i); } else if i < j { GroupsApart(s.groups, i, j); }
    }
  }

  lemma {:induction false} FindGroup(groups: seq<Group>, m: nat, w: nat) returns (i: nat)
    requires Chained(groups) && m <= |groups| && w < EndOf(groups, m)
    ensures i < m && groups[i].from <= w < groups[i].to
  {
    assert Linked(groups, m - 1);
    if groups[m - 1].from <= w { i := m - 1; } else { i := FindGroup(groups, m - 1, w); }
  }

  /** A group takes up writers and sequence numbers where the previous one ended. */
  ghost predicate Linked(groups: seq<Group>, i: nat) {
    i < |groups| && groups[i].from == EndOf(groups, i) && groups[i].from < groups[i].to && groups[i].first == NextSeq(groups, i)
  }

  ghost predicate Chained(groups: seq<Group>) {
    forall i {:trigger Linked(groups, i)} :: 0 <= i < |groups| ==> Linked(groups, i)
  }

  lemma InvChained(s: State)
    requires GroupsOk(s)
    ensures Chained(s.groups)
  {
    forall i | 0 <= i < |s.groups| ensures Linked(s.groups, i) {
      assert GroupOk(s, i);
    }
  }

  /** Writers and sequence numbers of an earlier group come before those of a later one. */
  lemma {:induction false} GroupsApart(groups: seq<Group>, i: nat, j: nat)
    requires Chained(groups) && i < j < |groups|
    ensures groups[i].to <= groups[j].from
    ensures groups[i].first + |groups[i].ops| <= groups[j].first
    decreases j
  {
    assert Linked(groups, j);
    if i < j - 1 {
      GroupsApart(groups, i, j - 1);
      assert Linked(groups, j - 1);
    }
  }

  lemma {:induction false} EntriesAt(first: nat, ops: seq<Op>, n: nat)
    ensures n in Entries(first, ops) <==> first <= n < first + |ops|
    ensures n in Entries(first, ops) ==> Entries(first, ops)[n] == ops[n - first]
  {
    if ops != [] { EntriesAt(first, ops[..|ops| - 1], n); }
  }

  /** The group that holds sequence number `n`, among the first `m`. */
  ghost predicate Holds(groups: seq<Group>, i: int, n: nat) {
    0 <= i < |groups| && groups[i].first <= n < groups[i].first + |groups[i].ops|
  }

  lemma {:induction false} AppliedAt(groups: seq<Group>, m: nat, n: nat)
    requires Chained(groups) && m <= |groups|
    ensures n in Applied(groups[..m]) <==> exists i :: i < m && Holds(groups, i, n) && groups[i].ok
    ensures forall i :: i < m && Holds(groups, i, n) && groups[i].ok ==> Applied(groups[..m])[n] == groups[i].ops[n - groups[i].first]
  {
    if m > 0 {
      var g := groups[m - 1];
      AppliedAt(groups, m - 1, n);
      EntriesAt(g.first, g.ops, n);
      assert groups[..m][..m - 1] == groups[..m - 1];
      forall i | i < m - 1 && Holds(groups, i, n) ensures !Holds(groups, m - 1, n) { GroupsApart(groups, i, m - 1); }
    }
  }

  /** Updates numbered up to the published sequence number are there for the whole group or for
      none of it, whatever the group in progress has inserted so far. */
  lemma AllOrNothing(s: State, i: nat, n: nat)
    requires Inv(s) && Holds(s.groups, i, n)
    ensures n <= s.lastSequence
    ensures n in s.mem <==> s.groups[i].ok
    ensures n in s.mem ==> s.mem[n] == s.groups[i].ops[n - s.groups[i].first]
  {
    var m := |s.groups|;
    InvChained(s);
    if i < m - 1 { GroupsApart(s.groups, i, m - 1); }
    AppliedAt(s.groups, m, n);
    assert s.groups[..m] == s.groups;
    EntriesAt(s.lastSequence + 1, Given(s), n);
    forall j | Holds(s.groups, j, n) ensures j == i {
      HeldOnce(s.groups, i, j, n);
    }
  }

  lemma HeldOnce(groups: seq<Group>, i: nat, j: nat, n: nat)
    requires Chained(groups) && Holds(groups, i, n) && Holds(groups, j, n)
    ensures i == j
  {
    if j < i { GroupsApart(groups, j, i); } else if i < j { GroupsApart(groups, i, j); }
  }

  /** A reader at the published sequence number sees updates of finished groups only. */
  lemma NothingElse(s: State, n: nat)
    requires Inv(s) && n in s.mem && n <= s.lastSequence
    ensures exists i :: Holds(s.groups, i, n) && s.groups[i].ok
  {
    InvChained(s);
    AppliedAt(s.groups, |s.groups|, n);
    assert s.groups[..|s.groups|] == s.groups;
    EntriesAt(s.lastSequence + 1, Given(s), n);
  }

  /** One update of one write: its place among the requests and in its batch. */
  datatype Update = Update(writer: nat, index: nat)

  ghost predicate Acknowledged(s: State, u: Update) {
    && u.writer in s.status && s.status[u.writer] && u.writer < |s.requests|
    && s.requests[u.writer].batch.Some? && u.index < |s.requests[u.writer].batch.value.ops|
  }

  function OpAt(s: State, u: Update): Op
    requires u.writer < |s.requests| && s.requests[u.writer].batch.Some?
    requires u.index < |s.requests[u.writer].batch.value.ops|
  {
    s.requests[u.writer].batch.value.ops[u.index]
  }

  predicate Precedes(u: Update, v: Update) {
    u.writer < v.writer || (u.writer == v.writer && u.index < v.index)
  }

  lemma {:induction false} EndsRising(ws: seq<Request>, ops: seq<Op>, ends: seq<nat>, i: nat, j: nat)
    requires EndToEnd(ws, ops, ends) && i <= j <= |ws|
    ensures ends[i] <= ends[j] <= |ops|
    decreases j
  {
    if j > 0 { assert Stretch(ws, ops, ends, j - 1); }
    if i < j { EndsRising(ws, ops, ends, i, j - 1); }
  }

  /** Every position of the joined batches belongs to a batch. */
  lemma {:induction false} FindWriter(ws: seq<Request>, ops: seq<Op>, ends: seq<nat>, m: nat, p: nat) returns (j: nat)
    requires EndToEnd(ws, ops, ends) && m <= |ws| && p < ends[m]
    ensures j < m && ends[j] <= p < ends[j + 1] && Stretch(ws, ops, ends, j)
  {
    assert Stretch(ws, ops, ends, m - 1);
    if ends[m - 1] <= p { j := m - 1; } else { j := FindWriter(ws, ops, ends, m - 1, p); }
  }

  lemma InStretch(ws: seq<Request>, ops: seq<Op>, ends: seq<nat>, j: nat, o: nat)
    requires EndToEnd(ws, ops, ends) && j < |ws|
    ensures ends[j] + o < ends[j + 1] <==> ws[j].batch.Some? && o < |ws[j].batch.value.ops|
    ensures ends[j] + o < ends[j + 1] ==> ends[j + 1] <= |ops| && ops[ends[j] + o] == ws[j].batch.value.ops[o]
  {
    assert Stretch(ws, ops, ends, j);
  }

  /** The requests of the group's members. */
  function Members(s: State, g: Group): seq<Request> {
    if g.from <= g.to <= |s.requests| then s.requests[g.from..g.to] else []
  }

  /** Group `i` put the update into the memtable under number `n`. */
  ghost predicate Numbered(s: State, i: nat, n: nat, u: Update) {
    && i < |s.groups| && s.groups[i].ok && s.groups[i].from <= u.writer < s.groups[i].to <= |s.requests|
    && Acknowledged(s, u)
    && n == s.groups[i].first + Ends(Members(s, s.groups[i]))[u.writer - s.groups[i].from] + u.index
  }

  lemma GroupJoined(s: State, i: nat)
    requires GroupsOk(s) && i < |s.groups| && s.groups[i].ok
    ensures s.groups[i].from < s.groups[i].to <= |s.requests|
    ensures var ws := Members(s, s.groups[i]); EndToEnd(ws, s.groups[i].ops, Ends(ws))
    ensures forall w :: s.groups[i].from <= w < s.groups[i].to ==> w in s.status && s.status[w]
  {
    assert GroupOk(s, i);
    JoinedEndToEnd(s.requests[s.groups[i].from..s.groups[i].to]);
  }

  /** Where the update stands among those of its group. */
  lemma NumberedInGroup(s: State, i: nat, n: nat, u: Update)
    requires GroupsOk(s) && Numbered(s, i, n, u)
    ensures var g, ws := s.groups[i], Members(s, s.groups[i]);
      && EndToEnd(ws, g.ops, Ends(ws)) && g.first <= n < g.first + Ends(ws)[u.writer - g.from + 1] <= g.first + |g.ops|
      && g.ops[n - g.first] == OpAt(s, u)
  {
    GroupJoined(s, i);
    var g, ws := s.groups[i], Members(s, s.groups[i]);
    InStretch(ws, g.ops, Ends(ws), u.writer - g.from, u.index);
  }

  lemma NumberedFacts(s: State, i: nat, n: nat, u: Update)
    requires Inv(s) && Numbered(s, i, n, u)
    ensures Holds(s.groups, i, n) && n in s.mem && n <= s.lastSequence && s.mem[n] == OpAt(s, u)
  {
    NumberedInGroup(s, i, n, u);
    assert Holds(s.groups, i, n);
    AllOrNothing(s, i, n);
  }

  lemma NumberOf(s: State, u: Update) returns (i: nat, n: nat)
    requires Inv(s) && Acknowledged(s, u)
    ensures Numbered(s, i, n, u)
  {
    i := InOneGroup(s, u.writer);
    assert GroupOk(s, i);
    var g := s.groups[i];
    n := g.first + Ends(Members(s, g))[u.writer - g.from] + u.index;
  }

  lemma UpdateOf(s: State, n: nat) returns (i: nat, u: Update)
    requires Inv(s) && n in s.mem && n <= s.lastSequence
    ensures Numbered(s, i, n, u)
  {
    NothingElse(s, n);
    i :| Holds(s.groups, i, n) && s.groups[i].ok;
    GroupJoined(s, i);
    u := WriterIn(s, i, n);
  }

  lemma WriterIn(s: State, i: nat, n: nat) returns (u: Update)
    requires Holds(s.groups, i, n) && s.groups[i].ok && s.groups[i].from < s.groups[i].to <= |s.requests|
    requires EndToEnd(Members(s, s.groups[i]), s.groups[i].ops, Ends(Members(s, s.groups[i])))
    requires forall w :: s.groups[i].from <= w < s.groups[i].to ==> w in s.status && s.status[w]
    ensures Numbered(s, i, n, u)
  {
    var g := s.groups[i];
    var ws := Members(s, g);
    var j := FindWriter(ws, g.ops, Ends(ws), |ws|, n - g.first);
    u := Update(g.from + j, n - g.first - Ends(ws)[j]);
    InStretch(ws, g.ops, Ends(ws), j, u.index);
  }

  lemma NumbersRise(s: State, i: nat, m: nat, u: Update, j: nat, n: nat, v: Update)
    requires GroupsOk(s) && Numbered(s, i, m, u) && Numbered(s, j, n, v) && Precedes(u, v)
    ensures m < n
  {
    if i == j {
      RiseTogether(s, i, m, u, n, v);
    } else {
      NumberedInGroup(s, i, m, u);
      NumberedInGroup(s, j, n, v);
      InvChained(s);
      RiseByGroup(s.groups, i, m, u.writer, j, n, v.writer);
    }
  }

  lemma RiseTogether(s: State, i: nat, m: nat, u: Update, n: nat, v: Update)
    requires GroupsOk(s) && Numbered(s, i, m, u) && Numbered(s, i, n, v) && Precedes(u, v)
    ensures m < n
  {
    var g, ws := s.groups[i], Members(s, s.groups[i]);
    NumberedInGroup(s, i, m, u);
    RiseInGroup(ws, g.ops, Ends(ws), m - g.first, u.writer - g.from, u.index, n - g.first, v.writer - g.from, v.index);
  }

  lemma RiseByGroup(groups: seq<Group>, i: nat, m: nat, a: nat, j: nat, n: nat, b: nat)
    requires Chained(groups) && Holds(groups, i, m) && Holds(groups, j, n) && i != j && a <= b
    requires groups[i].from <= a < groups[i].to && groups[j].from <= b < groups[j].to
    ensures m < n
  {
    if i < j { GroupsApart(groups, i, j); } else { GroupsApart(groups, j, i); }
  }

  lemma RiseInGroup(ws: seq<Request>, ops: seq<Op>, ends: seq<nat>, p: int, a: nat, o: nat, q: int, b: nat, r: nat)
    requires EndToEnd(ws, ops, ends) && a <= b < |ws|
    requires p == ends[a] + o < ends[a + 1] && q == ends[b] + r && (a == b ==> o < r)
    ensures p < q
  {
    if a < b { EndsRising(ws, ops, ends, a + 1, b); }
  }

  ghost predicate SomeGroupNumbered(s: State, n: nat, u: Update) {
    exists i :: Numbered(s, i, n, u)
  }

  ghost predicate Originates(s: State, n: nat) {
    exists u :: SomeGroupNumbered(s, n, u)
  }

  /** The origin of what is under a number. */
  ghost function Origin(s: State, n: nat): (u: Update)
    requires Originates(s, n)
    ensures SomeGroupNumbered(s, n, u)
  {
    var u :| SomeGroupNumbered(s, n, u); u
  }

  /** The number is visible to a reader. */
  predicate Visible(s: State, n: nat) { n in s.mem && n <= s.lastSequence }

  /** Up to the published number the memtable holds the updates of the acknowledged writes and
      nothing else, each under one number, in order of arrival and within a write in its own order. */
  lemma VisibleIsAcknowledged(s: State) returns (origin: map<nat, Update>)
    requires Inv(s)
    ensures forall n :: n in origin <==> n in s.mem && n <= s.lastSequence
    ensures forall n :: n in origin ==> Acknowledged(s, origin[n]) && s.mem[n] == OpAt(s, origin[n])
    ensures forall u :: Acknowledged(s, u) ==> exists n :: n in origin && origin[n] == u
    ensures forall m, n :: m in origin && n in origin && m < n ==> Precedes(origin[m], origin[n])
  {
    origin := Origins(s);
    forall m, n | m in origin && n in origin && m < n ensures Precedes(origin[m], origin[n]) {
      OriginsRise(s, m, n);
    }
    forall u | Acknowledged(s, u) ensures exists n :: n in origin && origin[n] == u {
      var n := NumberedOnce(s, u);
    }
  }

  lemma Origins(s: State) returns (origin: map<nat, Update>)
    requires Inv(s)
    ensures forall n :: n in origin <==> n in s.mem && n <= s.lastSequence
    ensures forall n :: n in origin ==> Originates(s, n) && origin[n] == Origin(s, n)
    ensures forall n :: n in origin ==> Acknowledged(s, origin[n]) && s.mem[n] == OpAt(s, origin[n])
  {
    forall n | Visible(s, n)
      ensures Originates(s, n) && Acknowledged(s, Origin(s, n)) && s.mem[n] == OpAt(s, Origin(s, n))
    {
      OriginFacts(s, n);
    }
    assert forall n :: n in s.mem && n <= s.lastSequence ==> Visible(s, n);
    origin := map n | n in s.mem && n <= s.lastSequence :: Origin(s, n);
  }

  lemma OriginFacts(s: State, n: nat)
    requires Inv(s) && Visible(s, n)
    ensures Originates(s, n) && Acknowledged(s, Origin(s, n)) && s.mem[n] == OpAt(s, Origin(s, n))
  {
    var i, u := UpdateOf(s, n);
    assert SomeGroupNumbered(s, n, u);
    var j :| Numbered(s, j, n, Origin(s, n));
    NumberedFacts(s, j, n, Origin(s, n));
  }

  lemma NumberedOnce(s: State, u: Update) returns (n: nat)
    requires Inv(s) && Acknowledged(s, u)
    ensures Visible(s, n) && Originates(s, n) && Origin(s, n) == u
  {
    var i: nat;
    i, n := NumberOf(s, u);
    NumberedFacts(s, i, n, u);
    OneOrigin(s, i, n, u);
  }

  lemma OriginsRise(s: State, m: nat, n: nat)
    requires Inv(s) && m < n
    requires Originates(s, m) && Originates(s, n)
    ensures Precedes(Origin(s, m), Origin(s, n))
  {
    var i :| Numbered(s, i, m, Origin(s, m));
    var j :| Numbered(s, j, n, Origin(s, n));
    if Precedes(Origin(s, n), Origin(s, m)) {
      NumbersRise(s, j, n, Origin(s, n), i, m, Origin(s, m));
    } else if Origin(s, n) == Origin(s, m) {
      SameNumber(s, i, m, j, n, Origin(s, m));
    }
  }

  lemma SameNumber(s: State, i: nat, m: nat, j: nat, n: nat, u: Update)
    requires Inv(s) && Numbered(s, i, m, u) && Numbered(s, j, n, u)
    ensures i == j && m == n
  {
    InvChained(s);
    if i < j { GroupsApart(s.groups, i, j); } else if j < i { GroupsApart(s.groups, j, i); }
  }

  lemma OneOrigin(s: State, i: nat, n: nat, u: Update)
    requires Inv(s) && Numbered(s, i, n, u)
    ensures SomeGroupNumbered(s, n, u) && Origin(s, n) == u
  {
    assert SomeGroupNumbered(s, n, u);
    var v := Origin(s, n);
    var j :| Numbered(s, j, n, v);
    if Precedes(u, v) { NumbersRise(s, i, n, u, j, n, v); } else if Precedes(v, u) { NumbersRise(s, j, n, v, i, n, u); }
  }

  /** A write that was acknowledged is in one logged record, whose updates are the batches of its group
      end to end, and in the memtable under the matching sequence numbers; if it asked for it, the
      record is on stable storage. */
  lemma AcknowledgedIsLogged(s: State, u: Update) returns (g: Group, ends: seq<nat>, n: nat)
    requires Inv(s) && Acknowledged(s, u)
    ensures g in s.groups && g.from <= u.writer < g.to <= |s.requests| && g.ok && g.record.Some? && g.record.value < |s.log|
    ensures s.log[g.record.value].first == g.first
    ensures EndToEnd(s.requests[g.from..g.to], s.log[g.record.value].ops, ends)
    ensures n == g.first + ends[u.writer - g.from] + u.index <= s.lastSequence
    ensures n in s.mem && s.mem[n] == OpAt(s, u)
    ensures s.requests[u.writer].sync ==> g.record.value in s.synced
  {
    var i: nat;
    i, n := NumberOf(s, u);
    NumberedFacts(s, i, n, u);
    GroupJoined(s, i);
    g := s.groups[i];
    ends := Ends(s.requests[g.from..g.to]);
    assert GroupOk(s, i);
  }

  /** A writer's status never changes, and a thread that returned stays so: each write finishes
      once. */
  lemma FinishesOnce(s: State, s': State, w: nat)
    requires QueueOk(s) && Next(s, s') && w in s.status
    ensures w in s'.status && s'.status[w] == s.status[w]
    ensures s.places[w].Returned? ==> |s.places| <= |s'.places| && s'.places[w].Returned?
  {
    var step :| Takes(s, s', step);
    if step.Finishes? {
      assert w < Closing(s).from;
    } else {
      StatusStays(s, s', step);
    }
  }

  lemma StatusStays(s: State, s': State, step: Step)
    requires QueueOk(s) && Takes(s, s', step) && !step.Finishes?
    ensures s'.status == s.status && |s.places| <= |s'.places|
    ensures forall w :: 0 <= w < |s.places| && s.places[w].Returned? ==> s'.places[w].Returned?
  {
  }

  // ---------- after a failed sync ----------

  /** The group's record is in the log, but may not be on stable storage. */
  predicate SyncFailed(g: Group) { g.record.Some? && !g.ok }

  /** Once a sync failed, the leader at work has written nothing, and no later group has. */
  ghost predicate Stopped(s: State) {
    forall i :: 0 <= i < |s.groups| && SyncFailed(s.groups[i]) ==>
      && s.bgError && (s.phase.Idle? || s.phase.MakingRoom? || (s.phase.Finishing? && !s.phase.formed))
      && forall j :: i < j < |s.groups| ==> s.groups[j].ops == [] && s.groups[j].record.None?
  }

  lemma StepKeepsStopped(s: State, s': State, step: Step)
    requires Stopped(s) && Takes(s, s', step) && !step.Finishes?
    ensures Stopped(s')
  {
  }

  lemma FinishKeepsStopped(s: State, s': State)
    requires QueueOk(s) && PhaseOk(s) && Stopped(s) && Finish(s, s')
    ensures Stopped(s')
  {
  }

  lemma {:induction false} StoppedInRun(states: seq<State>, n: nat)
    requires Run(states) && n < |states|
    ensures Stopped(states[n])
  {
    if n > 0 {
      StoppedInRun(states, n - 1);
      RunInv(states, n - 1);
      var step :| Takes(states[n - 1], states[n], step);
      if step.Finishes? {
        FinishKeepsStopped(states[n - 1], states[n]);
      } else {
        StepKeepsStopped(states[n - 1], states[n], step);
      }
    }
  }

  /** After a failed sync no update is logged or applied any more. */
  lemma FailedSyncIsLast(states: seq<State>, n: nat, i: nat, j: nat)
    requires Run(states) && n < |states| && i < j < |states[n].groups| && SyncFailed(states[n].groups[i])
    ensures states[n].bgError && states[n].groups[j].ops == [] && states[n].groups[j].record.None?
  {
    StoppedInRun(states, n);
  }

  // ---------- sequence ranges in the log ----------

  /** The records cover the numbers from 1 up to `n`, without a gap or an overlap. */
  ghost predicate Tiles(log: seq<Record>, n: nat) {
    if log == [] then n == 1
    else var last := log[|log| - 1];
      last.first + |last.ops| == n && Tiles(log[..|log| - 1], last.first)
  }

  lemma {:induction false} LoggedEnds(groups: seq<Group>, m: nat, n: nat)
    requires Chained(groups) && m <= |groups| && Tiles(Logged(groups[..m]), n)
    ensures n <= NextSeq(groups, m)
  {
    if m > 0 {
      assert Linked(groups, m - 1);
      LoggedStep(groups, m);
      if groups[m - 1].record.None? { LoggedEnds(groups, m - 1, n); }
    }
  }

  lemma LoggedStep(groups: seq<Group>, m: nat)
    requires 0 < m <= |groups|
    ensures var g, log := groups[m - 1], Logged(groups[..m - 1]);
            if g.record.None? then Logged(groups[..m]) == log
            else Logged(groups[..m]) == log + [Record(g.first, g.ops)]
  {
    assert groups[..m][..m - 1] == groups[..m - 1];
  }

  lemma TilesStep(log: seq<Record>, r: Record, n: nat)
    ensures Tiles(log + [r], n) <==> r.first + |r.ops| == n && Tiles(log, r.first)
  {
    assert (log + [r])[..|log|] == log;
  }

  /** The log is gapless exactly when no append of a group with updates failed. */
  lemma {:induction false} LogIsGapless(groups: seq<Group>, m: nat)
    requires Chained(groups) && m <= |groups|
    ensures Tiles(Logged(groups[..m]), NextSeq(groups, m))
       <==> forall i :: 0 <= i < m && groups[i].ops != [] ==> groups[i].record.Some?
  {
    if m > 0 {
      var g, log := groups[m - 1], Logged(groups[..m - 1]);
      assert Linked(groups, m - 1);
      LoggedStep(groups, m);
      LogIsGapless(groups, m - 1);
      if g.record.Some? {
        TilesStep(log, Record(g.first, g.ops), NextSeq(groups, m));
      } else if Tiles(log, NextSeq(groups, m)) {
        LoggedEnds(groups, m - 1, NextSeq(groups, m));
      }
    }
  }
}
