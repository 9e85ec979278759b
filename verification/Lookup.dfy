/** Point lookups: Version::Get over ForEachOverlapping, and DBImpl::Get over the memtables. */
module Lookup {
  import opened DbFormat
  import opened Mvcc
  import opened Version

  /** A file that a search of the version looks at. */
  datatype Probe = Probe(level: nat, file: File)

  /** The file is one of the version's and can be compacted into a next level. */
  ghost predicate Chargeable(v: Version, p: Probe) {
    p.level + 1 < |v| && p.file in v[p.level]
  }

  /** Level-0 files whose user key range covers the key, newest first. */
  function ByNewest(level: Level, user: UserKey): (r: seq<File>)
    ensures forall f {:trigger f in r} {:trigger f in level, Overlaps(f, Some(user), Some(user))} ::
              f in r <==> f in level && Overlaps(f, Some(user), Some(user))
    ensures forall i, j :: 0 <= i < j < |r| ==> r[i].number >= r[j].number
    ensures |r| <= |level|
  {
    if level == [] then []
    else
      var rest := ByNewest(level[1..], user);
      assert level == [level[0]] + level[1..];
      if Overlaps(level[0], Some(user), Some(user)) then PutByNumber(rest, level[0]) else rest
  }

  function PutByNumber(s: seq<File>, f: File): (r: seq<File>)
    requires forall i, j :: 0 <= i < j < |s| ==> s[i].number >= s[j].number
    ensures forall g :: g in r <==> g in s || g == f
    ensures forall i, j :: 0 <= i < j < |r| ==> r[i].number >= r[j].number
    ensures |r| == |s| + 1
  {
    if s == [] || f.number >= s[0].number then [f] + s
    else
      var rest := PutByNumber(s[1..], f);
      assert s == [s[0]] + s[1..];
      assert forall i :: 0 <= i < |rest| ==> rest[i] in rest;
      [s[0]] + rest
  }

  /** Nothing in the levels above `level` is visible to the lookup. */
  ghost predicate Passed(v: Version, user: UserKey, snap: nat, level: nat) {
    forall l, f {:trigger f in v[l]} :: 0 <= l < level && l < |v| && f in v[l] ==> Silent(f, user, snap)
  }

  lemma Level0Order(level: Level, user: UserKey, snap: nat, files: seq<File>, i: nat, g: File, e: Entry, d: Entry)
    requires Recent(level)
    requires files == ByNewest(level, user) && i < |files|
    requires g.number != files[i].number
    requires forall j :: 0 <= j < i ==> Silent(files[j], user, snap)
    requires e in files[i].entries && e.ik.user == user
    requires g in level && d in g.entries && d.ik.user == user && d.ik.num <= snap
    ensures d.ik.num <= e.ik.num
  {
    if !Overlaps(g, Some(user), Some(user)) { OutsideIsSilent(g, user, snap); }
    assert g in files;
    var j :| 0 <= j < |files| && files[j] == g;
    assert files[i] in files;
    if j > i { assert NewerThan(files[i], g); }
  }

  lemma HitInLevel0(v: Version, user: UserKey, snap: nat, files: seq<File>, i: nat, e: Entry)
    requires VersionOk(v)
    requires files == ByNewest(v[0], user) && i < |files|
    requires forall j :: 0 <= j < i ==> Silent(files[j], user, snap)
    requires RunGet(files[i].entries, user, snap) == Some(e)
    ensures Newest(Contents(v), user, snap, e)
  {
    var f := files[i];
    RunGetIsNewest(f.entries, user, snap);
    assert f in files;
    Holds(v, 0, f, e);
    forall d | Visible(Contents(v), user, snap, d) ensures d.ik.num <= e.ik.num {
      var l, g := WhereIs(v, d);
      if l > 0 {
        assert NewerThan(f, g);
      } else if g == f {
        assert Visible(SetOf(f.entries), user, snap, d);
      } else {
        assert !SameNumber(f, g);
        Level0Order(v[0], user, snap, files, i, g, e, d);
      }
    }
  }

  lemma HitDeeper(v: Version, user: UserKey, snap: nat, level: nat, index: nat, e: Entry)
    requires VersionOk(v)
    requires 1 <= level < |v| && index < |v[level]|
    requires Passed(v, user, snap, level)
    requires forall i :: 0 <= i < index ==> Less(Largest(v[level][i]), LookupKey(user, snap))
    requires RunGet(v[level][index].entries, user, snap) == Some(e)
    ensures Newest(Contents(v), user, snap, e)
  {
    var f := v[level][index];
    RunGetIsNewest(f.entries, user, snap);
    Holds(v, level, f, e);
    forall d | Visible(Contents(v), user, snap, d) ensures d.ik.num <= e.ik.num {
      var l, g := WhereIs(v, d);
      if l == level {
        LevelHitIsNewest(v[level], user, snap, index, e, g, d);
      } else if l > level {
        assert NewerThan(f, g);
      }
    }
  }

  lemma MissIsSilent(f: File, user: UserKey, snap: nat)
    requires RunGet(f.entries, user, snap).None?
    ensures Silent(f, user, snap)
  {
    RunGetIsNewest(f.entries, user, snap);
    forall e | e in f.entries ensures !(e.ik.user == user && e.ik.num <= snap) {
      assert !Visible(SetOf(f.entries), user, snap, e);
    }
  }

  lemma Level0Silent(v: Version, user: UserKey, snap: nat, files: seq<File>)
    requires |v| > 0 && files == ByNewest(v[0], user)
    requires forall j :: 0 <= j < |files| ==> Silent(files[j], user, snap)
    ensures Passed(v, user, snap, 1)
  {
    forall f | f in v[0] ensures Silent(f, user, snap) {
      if Overlaps(f, Some(user), Some(user)) {
        assert f in files;
      } else {
        OutsideIsSilent(f, user, snap);
      }
    }
  }

  // ---------- the files to probe, in order ----------

  /** Index of the first file that ends at or after the key. */
  function FileIndex(level: Level, key: InternalKey): (i: nat)
    ensures i <= |level|
    ensures forall j :: 0 <= j < i ==> Less(Largest(level[j]), key)
    ensures i < |level| ==> !Less(Largest(level[i]), key)
  {
    if level == [] || !Less(Largest(level[0]), key) then 0
    else
      var i := FileIndex(level[1..], key);
      assert forall j :: 1 <= j < i + 1 ==> level[j] == level[1..][j - 1];
      i + 1
  }

  /** The one file of a deeper level that may hold the key, if there is one. */
  function ProbesAt(v: Version, user: UserKey, key: InternalKey, level: nat): (r: seq<Probe>)
    requires level < |v|
    ensures |r| <= 1 && forall p :: p in r ==> p.level == level && p.file in v[level]
  {
    var i := FileIndex(v[level], key);
    if i < |v[level]| && !(user < Smallest(v[level][i]).user) then [Probe(level, v[level][i])] else []
  }

  function ProbesFrom(v: Version, user: UserKey, key: InternalKey, level: nat): seq<Probe>
    requires level <= |v|
    decreases |v| - level
  {
    if level == |v| then [] else ProbesAt(v, user, key, level) + ProbesFrom(v, user, key, level + 1)
  }

  function Probes0(files: seq<File>): (r: seq<Probe>)
    ensures |r| == |files| && forall i :: 0 <= i < |r| ==> r[i] == Probe(0, files[i])
  {
    seq(|files|, i requires 0 <= i < |files| => Probe(0, files[i]))
  }

  /** All files that may hold the key: in level 0 newest first, then one a level. */
  function Probes(v: Version, user: UserKey, key: InternalKey): seq<Probe>
    requires |v| == NUM_LEVELS
  {
    Probes0(ByNewest(v[0], user)) + ProbesFrom(v, user, key, 1)
  }

  lemma FileIndexIs(level: Level, key: InternalKey, i: nat)
    requires i <= |level| && forall j :: 0 <= j < i ==> Less(Largest(level[j]), key)
    requires i < |level| ==> !Less(Largest(level[i]), key)
    ensures FileIndex(level, key) == i
  {
  }

  /** The step of ForEachOverlapping for one deeper level, with its binary search. */
  method ProbeLevel(v: Version, user: UserKey, key: InternalKey, level: nat) returns (ps: seq<Probe>)
    requires VersionOk(v) && 1 <= level < |v|
    ensures ps == ProbesAt(v, user, key, level)
  {
    var index := FindFile(v[level], key);
    FileIndexIs(v[level], key, index);
    if index < |v[level]| && !(user < Smallest(v[level][index]).user) {
      return [Probe(level, v[level][index])];
    }
    return [];
  }

  /** Level by level, and within level 0 newest first. */
  ghost predicate SearchOrder(p: Probe, q: Probe) {
    p.level < q.level || (p.level == q.level == 0 && p.file.number > q.file.number)
  }

  /** The file may hold the key; below level 0 it ends at or after the lookup key. */
  ghost predicate MayHold(user: UserKey, key: InternalKey, p: Probe) {
    Overlaps(p.file, Some(user), Some(user)) && (p.level > 0 ==> !Less(Largest(p.file), key))
  }

  /** The file, or the one that stands for it, is probed. */
  ghost predicate Reached(ps: seq<Probe>, l: nat, f: File) {
    exists p :: p in ps && p.level == l && (l == 0 ==> p.file == f) && !Less(Largest(f), Largest(p.file))
  }

  ghost predicate InOrder(ps: seq<Probe>) {
    forall i, j {:trigger SearchOrder(ps[i], ps[j])} :: 0 <= i < j < |ps| ==> SearchOrder(ps[i], ps[j])
  }

  /** The probes are, in order, all such files of level 0 and the first of them in each deeper level,
      for the levels from `from` up to `to`. */
  ghost predicate AreProbes(v: Version, user: UserKey, key: InternalKey, from: nat, to: nat, ps: seq<Probe>) {
    && to <= |v| && InOrder(ps)
    && (forall p {:trigger p in ps} :: p in ps ==> from <= p.level < to && p.file in v[p.level] && MayHold(user, key, p))
    && (forall l: nat, f: File {:trigger MayHold(user, key, Probe(l, f))} ::
          from <= l < to && f in v[l] && MayHold(user, key, Probe(l, f)) ==> Reached(ps, l, f))
  }

  lemma ProbesAtAre(v: Version, user: UserKey, key: InternalKey, level: nat)
    requires VersionOk(v) && 1 <= level < |v| && key.user == user
    ensures AreProbes(v, user, key, level, level + 1, ProbesAt(v, user, key, level))
  {
    var i, ps := FileIndex(v[level], key), ProbesAt(v, user, key, level);
    forall f: File | f in v[level] && MayHold(user, key, Probe(level, f)) ensures Reached(ps, level, f) {
      var j :| 0 <= j < |v[level]| && v[level][j] == f;
      if i < j { LevelBefore(v[level], i, j); NotBeforeBoth(v[level][i], f); }
      assert ps == [Probe(level, v[level][i])] && ps[0] in ps;
    }
  }

  lemma InOrderJoin(a: seq<Probe>, b: seq<Probe>, m: nat)
    requires InOrder(a) && InOrder(b) && (forall p :: p in a ==> p.level < m) && (forall p :: p in b ==> m <= p.level)
    ensures InOrder(a + b)
  {
    var ps := a + b;
    forall i, j | 0 <= i < j < |ps| ensures SearchOrder(ps[i], ps[j]) {
      if i < |a| <= j {
        assert a[i] in a && b[j - |a|] in b;
      } else if |a| <= i {
        assert SearchOrder(b[i - |a|], b[j - |a|]);
      }
    }
  }

  lemma ProbesJoin(v: Version, user: UserKey, key: InternalKey, from: nat, m: nat, to: nat, a: seq<Probe>, b: seq<Probe>)
    requires from <= m <= to && AreProbes(v, user, key, from, m, a) && AreProbes(v, user, key, m, to, b)
    ensures AreProbes(v, user, key, from, to, a + b)
  {
    InOrderJoin(a, b, m);
    forall l: nat, f: File | from <= l < to && f in v[l] && MayHold(user, key, Probe(l, f)) ensures Reached(a + b, l, f) {
      assert Reached(a, l, f) || Reached(b, l, f);
    }
  }

  lemma {:induction false} DeepProbesAre(v: Version, user: UserKey, key: InternalKey, level: nat)
    requires VersionOk(v) && 1 <= level <= |v| && key.user == user
    ensures AreProbes(v, user, key, level, |v|, ProbesFrom(v, user, key, level))
    decreases |v| - level
  {
    if level < |v| {
      ProbesAtAre(v, user, key, level);
      DeepProbesAre(v, user, key, level + 1);
      ProbesJoin(v, user, key, level, level + 1, |v|, ProbesAt(v, user, key, level), ProbesFrom(v, user, key, level + 1));
    }
  }

  ghost predicate DistinctNumbers(s: seq<File>) {
    forall i, j {:trigger s[i], s[j]} :: 0 <= i < j < |s| ==> s[i].number != s[j].number
  }

  lemma {:induction false} PutIsDistinct(s: seq<File>, f: File)
    requires DistinctNumbers(s) && forall g :: g in s ==> g.number != f.number
    requires forall i, j :: 0 <= i < j < |s| ==> s[i].number >= s[j].number
    ensures DistinctNumbers(PutByNumber(s, f))
  {
    if s != [] && f.number < s[0].number {
      PutIsDistinct(s[1..], f);
      var rest := PutByNumber(s[1..], f);
      assert forall i :: 0 <= i < |rest| ==> rest[i] in rest;
      assert forall i :: 0 <= i < |s[1..]| ==> s[1..][i].number != s[0].number;
      assert s[0] in s;
    }
  }

  lemma {:induction false} NewestIsDistinct(level: Level, user: UserKey)
    requires DistinctNumbers(level)
    ensures DistinctNumbers(ByNewest(level, user))
  {
    if level != [] {
      NewestIsDistinct(level[1..], user);
      var rest := ByNewest(level[1..], user);
      forall g | g in rest ensures g.number != level[0].number {
        assert g in level[1..];
      }
      if Overlaps(level[0], Some(user), Some(user)) { PutIsDistinct(rest, level[0]); }
    }
  }

  lemma LevelIsDistinct(v: Version, l: nat)
    requires VersionOk(v) && l < |v|
    ensures DistinctNumbers(v[l])
  {
    forall i, j | 0 <= i < j < |v[l]| ensures v[l][i].number != v[l][j].number {
      var f, g := v[l][i], v[l][j];
      assert BySmallest(f, g) && f in v[l] && g in v[l];
      assert SameNumber(f, g) ==> f == g;
    }
  }

  lemma Level0ProbesAre(v: Version, user: UserKey, key: InternalKey)
    requires VersionOk(v)
    ensures AreProbes(v, user, key, 0, 1, Probes0(ByNewest(v[0], user)))
  {
    var files := ByNewest(v[0], user);
    var ps := Probes0(files);
    LevelIsDistinct(v, 0);
    NewestIsDistinct(v[0], user);
    forall i, j | 0 <= i < j < |ps| ensures SearchOrder(ps[i], ps[j]) {
      assert files[i].number != files[j].number;
    }
    forall p | p in ps ensures p.level == 0 && p.file in v[0] && MayHold(user, key, p) {
      assert p.file in files;
    }
    forall f: File | f in v[0] && MayHold(user, key, Probe(0, f)) ensures Reached(ps, 0, f) {
      assert f in files;
      var i :| 0 <= i < |files| && files[i] == f;
      assert ps[i] in ps;
      Bounds(f, f.entries[0]);
    }
  }

  lemma ProbesAre(v: Version, user: UserKey, key: InternalKey)
    requires VersionOk(v) && key.user == user
    ensures AreProbes(v, user, key, 0, NUM_LEVELS, Probes(v, user, key))
  {
    Level0ProbesAre(v, user, key);
    DeepProbesAre(v, user, key, 1);
    ProbesJoin(v, user, key, 0, 1, |v|, Probes0(ByNewest(v[0], user)), ProbesFrom(v, user, key, 1));
  }

  /** ForEachOverlapping. */
  method ForEachOverlapping(v: Version, user: UserKey, key: InternalKey) returns (ps: seq<Probe>)
    requires VersionOk(v)
    ensures ps == Probes(v, user, key) && (key.user == user ==> AreProbes(v, user, key, 0, NUM_LEVELS, ps))
  {
    if key.user == user { ProbesAre(v, user, key); }
    ps := Probes0(ByNewest(v[0], user));
    var level := 1;
    while level < NUM_LEVELS
      invariant 1 <= level <= NUM_LEVELS
      invariant Probes(v, user, key) == ps + ProbesFrom(v, user, key, level)
    {
      var here := ProbeLevel(v, user, key, level);
      Regroup(ps, here, ProbesFrom(v, user, key, level + 1));
      ps := ps + here;
      level := level + 1;
    }
  }

  lemma Regroup(a: seq<Probe>, b: seq<Probe>, c: seq<Probe>)
    ensures a + (b + c) == a + b + c
  {
  }

  /** Probe `k` is the first that knows the key at the snapshot; past the end, none does. */
  ghost predicate FirstHit(ps: seq<Probe>, user: UserKey, snap: nat, k: nat) {
    && k <= |ps|
    && (forall j :: 0 <= j < k ==> RunGet(ps[j].file.entries, user, snap).None?)
    && (k < |ps| ==> RunGet(ps[k].file.entries, user, snap).Some?)
  }

  lemma FirstHitTail(here: seq<Probe>, more: seq<Probe>, user: UserKey, snap: nat, k: nat)
    requires FirstHit(here + more, user, snap, k) && |here| <= k
    ensures FirstHit(more, user, snap, k - |here|)
    ensures forall p :: p in here ==> RunGet(p.file.entries, user, snap).None?
    ensures k < |here + more| ==> (here + more)[k] == more[k - |here|]
  {
    var ps := here + more;
    forall p | p in here ensures RunGet(p.file.entries, user, snap).None? {
      var j :| 0 <= j < |here| && here[j] == p;
      assert ps[j] == p;
    }
    forall j | 0 <= j < k - |here| ensures RunGet(more[j].file.entries, user, snap).None? {
      assert more[j] == ps[|here| + j];
    }
  }

  lemma LevelPassed(v: Version, user: UserKey, snap: nat, level: nat)
    requires VersionOk(v) && 1 <= level < |v| && Passed(v, user, snap, level)
    requires forall p :: p in ProbesAt(v, user, LookupKey(user, snap), level) ==> RunGet(p.file.entries, user, snap).None?
    ensures Passed(v, user, snap, level + 1)
  {
    var key := LookupKey(user, snap);
    var i := FileIndex(v[level], key);
    assert i < |v[level]| && !(user < Smallest(v[level][i]).user) ==> Probe(level, v[level][i]) in ProbesAt(v, user, key, level);
    forall f | f in v[level] ensures Silent(f, user, snap) {
      LevelMissIsSilent(v[level], user, snap, i, f);
    }
  }

  /** The hit at `k` is the newest visible entry; past the end, all levels are silent. */
  ghost predicate Answers(v: Version, user: UserKey, snap: nat, ps: seq<Probe>, k: nat) {
    if k < |ps| then
      var r := RunGet(ps[k].file.entries, user, snap);
      r.Some? && Newest(Contents(v), user, snap, r.value)
    else Passed(v, user, snap, |v|)
  }

  lemma HitHere(v: Version, user: UserKey, snap: nat, level: nat, p: Probe)
    requires VersionOk(v) && 1 <= level < |v| && Passed(v, user, snap, level)
    requires p in ProbesAt(v, user, LookupKey(user, snap), level) && RunGet(p.file.entries, user, snap).Some?
    ensures Newest(Contents(v), user, snap, RunGet(p.file.entries, user, snap).value)
  {
    HitDeeper(v, user, snap, level, FileIndex(v[level], LookupKey(user, snap)), RunGet(p.file.entries, user, snap).value);
  }

  lemma AnswersTail(v: Version, user: UserKey, snap: nat, here: seq<Probe>, more: seq<Probe>, k: nat)
    requires |here| <= k && Answers(v, user, snap, more, k - |here|)
    ensures Answers(v, user, snap, here + more, k)
  {
  }

  lemma AnswersHead(v: Version, user: UserKey, snap: nat, level: nat, here: seq<Probe>, more: seq<Probe>)
    requires VersionOk(v) && 1 <= level < |v| && Passed(v, user, snap, level)
    requires here == ProbesAt(v, user, LookupKey(user, snap), level) != [] && FirstHit(here + more, user, snap, 0)
    ensures Answers(v, user, snap, here + more, 0)
  {
    assert (here + more)[0] == here[0];
    HitHere(v, user, snap, level, here[0]);
  }

  /** In the deeper levels the first hit is the newest visible entry, and without one all is silent. */
  lemma {:induction false} DeepHit(v: Version, user: UserKey, snap: nat, level: nat, k: nat)
    requires VersionOk(v) && 1 <= level <= |v| && Passed(v, user, snap, level)
    requires FirstHit(ProbesFrom(v, user, LookupKey(user, snap), level), user, snap, k)
    ensures Answers(v, user, snap, ProbesFrom(v, user, LookupKey(user, snap), level), k)
    decreases |v| - level, 1
  {
    if level < |v| {
      var key := LookupKey(user, snap);
      var here, more := ProbesAt(v, user, key, level), ProbesFrom(v, user, key, level + 1);
      if here != [] && k == 0 {
        AnswersHead(v, user, snap, level, here, more);
      } else {
        DeepTail(v, user, snap, level, here, more, k);
      }
    }
  }

  lemma {:induction false} DeepTail(v: Version, user: UserKey, snap: nat, level: nat, here: seq<Probe>, more: seq<Probe>, k: nat)
    requires VersionOk(v) && 1 <= level < |v| && Passed(v, user, snap, level) && |here| <= k
    requires here == ProbesAt(v, user, LookupKey(user, snap), level)
    requires more == ProbesFrom(v, user, LookupKey(user, snap), level + 1)
    requires FirstHit(here + more, user, snap, k)
    ensures Answers(v, user, snap, here + more, k)
    decreases |v| - level, 0
  {
    FirstHitTail(here, more, user, snap, k);
    LevelPassed(v, user, snap, level);
    DeepHit(v, user, snap, level + 1, k - |here|);
    AnswersTail(v, user, snap, here, more, k);
  }

  lemma AllPassed(v: Version, user: UserKey, snap: nat)
    requires Passed(v, user, snap, |v|)
    ensures forall e :: !Visible(Contents(v), user, snap, e)
  {
    forall e ensures !Visible(Contents(v), user, snap, e) {
      if e in Contents(v) {
        var l, g := WhereIs(v, e);
        assert Silent(g, user, snap);
      }
    }
  }

  /** The first probe that knows the key yields the newest visible entry of the whole version. */
  lemma HitIsNewest(v: Version, user: UserKey, snap: nat, k: nat)
    requires VersionOk(v) && FirstHit(Probes(v, user, LookupKey(user, snap)), user, snap, k)
    ensures var ps := Probes(v, user, LookupKey(user, snap));
      if k < |ps| then Newest(Contents(v), user, snap, RunGet(ps[k].file.entries, user, snap).value)
      else forall e :: !Visible(Contents(v), user, snap, e)
  {
    var files: seq<File>, deep: seq<Probe> := ByNewest(v[0], user), ProbesFrom(v, user, LookupKey(user, snap), 1);
    var first: seq<Probe> := Probes0(files);
    if k < |files| {
      forall j | 0 <= j < k ensures Silent(files[j], user, snap) {
        assert (first + deep)[j].file == files[j];
        MissIsSilent(files[j], user, snap);
      }
      assert (first + deep)[k].file == files[k];
      HitInLevel0(v, user, snap, files, k, RunGet(files[k].entries, user, snap).value);
    } else {
      FirstHitTail(first, deep, user, snap, k);
      forall j | 0 <= j < |files| ensures Silent(files[j], user, snap) {
        assert first[j] in first;
        MissIsSilent(files[j], user, snap);
      }
      Level0Silent(v, user, snap, files);
      DeepHit(v, user, snap, 1, k - |files|);
      if k == |first + deep| { AllPassed(v, user, snap); }
    }
  }

  // ---------- what a read is charged for ----------

  /** The first file probed, once a second one was needed. */
  function ChargeAfter(ps: seq<Probe>, probed: nat): Option<Probe> {
    if probed >= 2 && ps != [] then Some(ps[0]) else None
  }

  /** The probes are files of the levels from `level` on, and one with another behind it is not in
      the last level. */
  ghost predicate InLevels(v: Version, ps: seq<Probe>, level: nat) {
    && (forall p :: p in ps ==> level <= p.level < |v| && p.file in v[p.level])
    && (|ps| >= 2 ==> ps[0].level + 1 < |v|)
  }

  lemma InLevelsCons(v: Version, here: seq<Probe>, more: seq<Probe>, level: nat)
    requires |here| <= 1 && (forall p :: p in here ==> p.level == level < |v| && p.file in v[level])
    requires InLevels(v, more, level + 1)
    ensures InLevels(v, here + more, level)
  {
    if here != [] {
      assert here[0] in here;
      assert more != [] ==> more[0] in more;
    } else {
      assert here + more == more;
    }
  }

  lemma {:induction false} DeepLevels(v: Version, user: UserKey, key: InternalKey, level: nat)
    requires level <= |v|
    ensures InLevels(v, ProbesFrom(v, user, key, level), level)
    decreases |v| - level
  {
    if level < |v| {
      DeepLevels(v, user, key, level + 1);
      InLevelsCons(v, ProbesAt(v, user, key, level), ProbesFrom(v, user, key, level + 1), level);
    }
  }

  /** A charged file can be compacted into a next level. */
  lemma ChargedHasNext(v: Version, user: UserKey, key: InternalKey)
    requires |v| == NUM_LEVELS && |Probes(v, user, key)| >= 2
    ensures Chargeable(v, Probes(v, user, key)[0])
  {
    var files, deep := ByNewest(v[0], user), ProbesFrom(v, user, key, 1);
    DeepLevels(v, user, key, 1);
    if files != [] {
      assert files[0] in files;
    } else {
      assert Probes(v, user, key) == deep;
      assert deep[0] in deep;
    }
  }

  /** What the search of `ps` found, how many files it probed, and whom it charges. */
  ghost predicate Searched(ps: seq<Probe>, user: UserKey, snap: nat, r: Option<Entry>, charge: Option<Probe>, probed: nat) {
    && probed <= |ps| && (r.Some? ==> probed > 0)
    && FirstHit(ps, user, snap, if r.Some? then probed - 1 else |ps|)
    && (if r.Some? then r == RunGet(ps[probed - 1].file.entries, user, snap) else probed == |ps|)
    && charge == ChargeAfter(ps, probed)
  }

  /** Version::Get's callback, called until a file knows the key. */
  method Search(ps: seq<Probe>, user: UserKey, snap: nat) returns (r: Option<Entry>, charge: Option<Probe>, ghost probed: nat)
    ensures Searched(ps, user, snap, r, charge, probed)
  {
    var last: Option<Probe> := None;
    r, charge := None, None;
    var i := 0;
    while i < |ps|
      invariant 0 <= i <= |ps| && charge == ChargeAfter(ps, i) && r.None?
      invariant last == if i == 0 then None else Some(ps[i - 1])
      invariant forall j :: 0 <= j < i ==> RunGet(ps[j].file.entries, user, snap).None?
    {
      if charge.None? && last.Some? { charge := last; }
      last := Some(ps[i]);
      r := RunGet(ps[i].file.entries, user, snap);
      i := i + 1;
      if r.Some? {
        probed := i;
        return;
      }
    }
    probed := i;
  }

  /** Whom a search of the version charges: the first file probed, if it did not settle the matter. */
  ghost predicate ChargedRight(v: Version, user: UserKey, snap: nat, charge: Option<Probe>)
    requires |v| == NUM_LEVELS
  {
    var ps := Probes(v, user, LookupKey(user, snap));
    charge == if |ps| >= 2 && RunGet(ps[0].file.entries, user, snap).None? then Some(ps[0]) else None
  }

  /** Version::Get. Stopping at the first file that knows the key yields the newest visible entry of
      all levels; the read is charged to the first file probed exactly if a second probe was made. */
  method VersionGet(v: Version, user: UserKey, snap: nat) returns (r: Option<Entry>, charge: Option<Probe>, ghost probed: nat)
    requires VersionOk(v)
    ensures r.Some? ==> Newest(Contents(v), user, snap, r.value)
    ensures r.None? ==> forall e :: !Visible(Contents(v), user, snap, e)
    ensures Searched(Probes(v, user, LookupKey(user, snap)), user, snap, r, charge, probed)
    ensures ChargedRight(v, user, snap, charge) && (charge.Some? ==> Chargeable(v, charge.value))
  {
    var ps := ForEachOverlapping(v, user, LookupKey(user, snap));
    r, charge, probed := Search(ps, user, snap);
    HitIsNewest(v, user, snap, if r.Some? then probed - 1 else |ps|);
    if charge.Some? { ChargedHasNext(v, user, LookupKey(user, snap)); }
  }

  /** Version::RecordReadSample: the first of two files that may hold the key is charged. */
  method ReadSample(v: Version, user: UserKey, key: InternalKey) returns (charge: Option<Probe>)
    requires VersionOk(v)
    ensures var ps := Probes(v, user, key); charge == if |ps| >= 2 then Some(ps[0]) else None
    ensures charge.Some? ==> Chargeable(v, charge.value)
  {
    var ps := ForEachOverlapping(v, user, key);
    var matches, first: Option<Probe> := 0, None;
    while matches < |ps| && matches < 2
      invariant 0 <= matches <= |ps| && matches <= 2
      invariant first == if matches == 0 then None else Some(ps[0])
    {
      matches := matches + 1;
      if matches == 1 { first := Some(ps[0]); }
    }
    if matches >= 2 {
      ChargedHasNext(v, user, key);
      return first;
    }
    return None;
  }

  /** Runs newest first: an entry of an earlier run is newer than any of a later one. */
  ghost predicate NewerRun(s: seq<Entry>, S: set<Entry>) {
    forall d, e :: d in s && e in S && d.ik.user == e.ik.user ==> d.ik.num > e.ik.num
  }

  /** All the entries a reader of the database can reach. */
  ghost function Store(mem: seq<Entry>, imm: Option<seq<Entry>>, v: Version): set<Entry> {
    SetOf(mem) + SetOf(ImmRun(imm)) + Contents(v)
  }

  function ImmRun(imm: Option<seq<Entry>>): seq<Entry> {
    if imm.Some? then imm.value else []
  }

  ghost predicate Stacked(mem: seq<Entry>, imm: Option<seq<Entry>>, v: Version) {
    && Sorted(mem) && Sorted(ImmRun(imm))
    && NewerRun(mem, SetOf(ImmRun(imm)))
    && NewerRun(mem, Contents(v))
    && NewerRun(ImmRun(imm), Contents(v))
  }

  lemma NewestInFirst(S: set<Entry>, T: set<Entry>, U: set<Entry>, user: UserKey, snap: nat, e: Entry)
    requires Newest(S, user, snap, e) && S <= U
    requires forall d :: d in U ==> d in S || d in T
    requires forall d :: d in T && d.ik.user == user ==> e.ik.num > d.ik.num || d.ik.num > snap
    ensures Newest(U, user, snap, e)
  {
    forall d | Visible(U, user, snap, d) ensures d.ik.num <= e.ik.num {
      if d in S { assert Visible(S, user, snap, d); }
    }
  }

  /** DBImpl::Get: the memtable, then the immutable memtable, then the current version. Whatever
      entry the search stops on is what the multi-version map reads. */
  method Get(mem: seq<Entry>, imm: Option<seq<Entry>>, v: Version, user: UserKey, snap: nat)
    returns (value: Option<Value>, charge: Option<Probe>)
    requires VersionOk(v) && Stacked(mem, imm, v) && Functional(Store(mem, imm, v))
    ensures value == Read(Store(mem, imm, v), user, snap)
    ensures charge.Some? ==> Chargeable(v, charge.value)
    ensures if RunGet(mem, user, snap).Some? || RunGet(ImmRun(imm), user, snap).Some? then charge.None?
            else ChargedRight(v, user, snap, charge)
  {
    hide Searched;
    hide ChargedRight;
    ghost var all := Store(mem, imm, v);
    charge := None;
    RunGetIsNewest(mem, user, snap);
    var r := RunGet(mem, user, snap);
    if r.Some? {
      NewestInFirst(SetOf(mem), SetOf(ImmRun(imm)) + Contents(v), all, user, snap, r.value);
      ReadNewest(all, user, snap, r.value);
      return Outcome(r), None;
    }
    RunGetIsNewest(ImmRun(imm), user, snap);
    r := RunGet(ImmRun(imm), user, snap);
    if r.Some? {
      forall d | d in SetOf(mem) && d.ik.user == user ensures d.ik.num > snap {
        assert !Visible(SetOf(mem), user, snap, d);
      }
      NewestInFirst(SetOf(ImmRun(imm)), SetOf(mem) + Contents(v), all, user, snap, r.value);
      ReadNewest(all, user, snap, r.value);
      return Outcome(r), None;
    }
    ghost var probed;
    r, charge, probed := VersionGet(v, user, snap);
    assert forall e :: Visible(all, user, snap, e) ==> Visible(Contents(v), user, snap, e) by {
      forall e | Visible(all, user, snap, e) ensures e in Contents(v) {
        assert !Visible(SetOf(mem), user, snap, e) && !Visible(SetOf(ImmRun(imm)), user, snap, e);
      }
    }
    if r.Some? {
      assert Newest(all, user, snap, r.value);
      ReadNewest(all, user, snap, r.value);
    } else {
      ReadNothing(all, user, snap);
    }
    value := Outcome(r);
  }
}
