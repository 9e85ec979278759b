/** Which level is compacted next: scores by size, charges for wasted seeks, and PickCompaction's
    choice between them (Version::UpdateStats, VersionSet::Finalize and PickCompaction of
    db/version_set.cc). */
module Choosing {
  import opened DbFormat
  import opened Mvcc
  import opened Version
  import opened Lookup
  import opened Picking

  const L0_COMPACTION_TRIGGER := 4.0

  /** What a level from 1 on may hold: ten megabytes, and ten times as much with each level. */
  ghost function ByteLimit(level: nat): (r: real)
    ensures r > 0.0
  {
    if level <= 1 then 10.0 * 1048576.0 else ByteLimit(level - 1) * 10.0
  }

  method MaxBytesForLevel(level: nat) returns (result: real)
    ensures result == ByteLimit(level)
  {
    result := 10.0 * 1048576.0;
    var l := level;
    ghost var done := 1;
    while l > 1
      invariant done >= 1 && result == ByteLimit(done) && (level >= 1 ==> l >= 1 && l + done == level + 1)
      invariant level == 0 ==> l == 0 && done == 1
    {
      result := result * 10.0;
      l := l - 1;
      done := done + 1;
    }
  }

  /** How badly a level wants compaction: by number of files in level 0, by bytes elsewhere. */
  ghost function Score(v: Version, level: nat): (r: real)
    requires level < |v|
    ensures r >= 0.0
  {
    if level == 0 then |v[0]| as real / L0_COMPACTION_TRIGGER
    else
      NotNegative(TotalFileSize(v[level]) as real, ByteLimit(level));
      TotalFileSize(v[level]) as real / ByteLimit(level)
  }

  lemma NotNegative(x: real, y: real)
    requires x >= 0.0 && y > 0.0
    ensures x / y >= 0.0
  {
  }

  /** The first level of greatest score among those that have a level below them. */
  ghost predicate IsBest(v: Version, best: nat, score: real) {
    && best + 1 < |v| && score == Score(v, best)
    && (forall l :: 0 <= l < |v| - 1 ==> Score(v, l) <= score)
    && (forall l :: 0 <= l < best ==> Score(v, l) < score)
  }

  method Finalize(v: Version) returns (best: nat, score: real)
    requires |v| == NUM_LEVELS
    ensures IsBest(v, best, score)
  {
    var bestLevel := -1;
    score := -1.0;
    for level: nat := 0 to NUM_LEVELS - 1
      invariant -1 <= bestLevel < level && (level > 0 ==> bestLevel >= 0)
      invariant if bestLevel < 0 then score == -1.0 else score == Score(v, bestLevel)
      invariant forall l :: 0 <= l < level ==> Score(v, l) <= score
      invariant forall l :: 0 <= l < bestLevel ==> Score(v, l) < score
    {
      var here;
      if level == 0 {
        here := |v[level]| as real / L0_COMPACTION_TRIGGER;
      } else {
        var limit := MaxBytesForLevel(level);
        here := TotalFileSize(v[level]) as real / limit;
      }
      if here > score {
        bestLevel, score := level, here;
      }
    }
    best := bestLevel;
  }

  lemma ZeroOver(y: real)
    requires y > 0.0
    ensures 0.0 / y == 0.0
  {
  }

  /** A level that is due has a file to start from. */
  lemma DueIsNonempty(v: Version, level: nat)
    requires level < |v| && Score(v, level) >= 1.0
    ensures v[level] != []
  {
    if level > 0 {
      ZeroOver(ByteLimit(level));
    }
  }

  /** The byte limits of the levels that are judged by size, from level 1 on. */
  const LIMITS: seq<nat> := [0, 10485760, 104857600, 1048576000, 10485760000, 104857600000]

  /** Four files in level 0, or the limit in bytes in one of the levels 1 to 5. */
  predicate Due(v: Version, level: nat)
    requires level < 6 <= |v|
  {
    if level == 0 then |v[0]| >= 4 else TotalFileSize(v[level]) >= LIMITS[level]
  }

  lemma LimitOf(level: nat)
    requires 1 <= level <= 5
    ensures ByteLimit(level) == LIMITS[level] as real
  {
    assert ByteLimit(1) == 10485760.0;
    assert ByteLimit(2) == 104857600.0;
    assert ByteLimit(3) == 1048576000.0;
    assert ByteLimit(4) == 10485760000.0;
    assert ByteLimit(5) == 104857600000.0;
  }

  lemma AtLeastOne(x: real, y: real)
    requires y > 0.0
    ensures x / y * y == x && (x / y >= 1.0 <==> x >= y)
  {
    if x >= y { assert x / y >= y / y; }
    assert x / y * y == x;
  }

  /** A level is due just if its score is 1 or more; the score is how often the limit is reached. */
  lemma ScoreSaysDue(v: Version, level: nat)
    requires level < 6 <= |v|
    ensures Score(v, level) >= 1.0 <==> Due(v, level)
    ensures level == 0 ==> Score(v, 0) * 4.0 == |v[0]| as real
    ensures level > 0 ==> Score(v, level) * LIMITS[level] as real == TotalFileSize(v[level]) as real
  {
    if level > 0 {
      LimitOf(level);
      AtLeastOne(TotalFileSize(v[level]) as real, ByteLimit(level));
    }
  }

  /** Enough files of some size make a level due; too few of some size do not. */
  lemma EnoughFiles(v: Version, level: nat, least: nat, most: nat)
    requires 1 <= level < 6 <= |v| && forall f :: f in v[level] ==> least <= f.size <= most
    ensures |v[level]| * least >= LIMITS[level] ==> Due(v, level)
    ensures |v[level]| * most < LIMITS[level] ==> !Due(v, level)
  {
    TotalBetween(v[level], least, most);
  }

  lemma BestSaysDue(v: Version, best: nat, score: real)
    requires |v| == NUM_LEVELS && IsBest(v, best, score)
    ensures score >= 1.0 <==> exists l :: 0 <= l < 6 && Due(v, l)
    ensures score >= 1.0 ==> Due(v, best)
  {
    forall l | 0 <= l < 6 ensures Score(v, l) >= 1.0 <==> Due(v, l) { ScoreSaysDue(v, l); }
  }

  datatype Pick = Pick(level: nat, in0: seq<File>, in1: seq<File>, grandparents: seq<File>, pointer: InternalKey)

  /** The compaction has its inputs in two levels that exist, and they are a good pick without gaps. */
  ghost predicate PickOk(v: Version, p: Pick) {
    && p.level + 1 < |v| && GoodPick(v, p.level, p.in0, p.in1)
    && Covered(p.in0 + p.in1) && Grandparents(v, p.level, p.in0 + p.in1, p.grandparents)
    && IsLargestKey(p.in0, p.pointer)
  }

  /** The compaction grew from the given file. */
  ghost predicate StartsAt(v: Version, p: Pick, f: File, byteLimit: nat) {
    p.level + 1 < |v| && f in p.in0 && PickedFrom(v, p.level, f, byteLimit, p.in0, p.in1)
  }

  /** The mutable part of a Version. */
  class Stats {
    const files: Version
    var compactionLevel: nat
    var compactionScore: real
    var allowedSeeks: map<nat, int>
    var fileToCompact: Option<Probe>

    ghost predicate Valid()
      reads this
    {
      && VersionOk(files) && Functional(Contents(files))
      && IsBest(files, compactionLevel, compactionScore)
      && (forall l, f {:trigger f in files[l]} :: 0 <= l < |files| && f in files[l] ==> f.number in allowedSeeks)
      && (fileToCompact.Some? ==> Chargeable(files, fileToCompact.value) && Spent(fileToCompact.value.file))
    }

    predicate Spent(f: File)
      reads this
    {
      f.number in allowedSeeks && allowedSeeks[f.number] <= 0
    }

    constructor (files: Version, allowedSeeks: map<nat, int>)
      requires VersionOk(files) && Functional(Contents(files))
      requires forall l, f {:trigger f in files[l]} :: 0 <= l < |files| && f in files[l] ==> f.number in allowedSeeks
      ensures Valid() && this.files == files && this.allowedSeeks == allowedSeeks && fileToCompact.None?
    {
      this.files, this.allowedSeeks, fileToCompact := files, allowedSeeks, None;
      new;
      compactionLevel, compactionScore := Finalize(files);
    }

    /** UpdateStats: one seek less for the charged file; the first file to run out is remembered. */
    method UpdateStats(charge: Option<Probe>) returns (due: bool)
      requires Valid() && (charge.Some? ==> Chargeable(files, charge.value))
      modifies this`allowedSeeks, this`fileToCompact
      ensures Valid()
      ensures charge.None? ==> allowedSeeks == old(allowedSeeks)
      ensures charge.Some? ==> var n := charge.value.file.number;
                n in old(allowedSeeks) && allowedSeeks == old(allowedSeeks)[n := old(allowedSeeks)[n] - 1]
      ensures due <==> charge.Some? && old(fileToCompact).None? && Spent(charge.value.file)
      ensures fileToCompact == if due then charge else old(fileToCompact)
    {
      due := false;
      if charge.Some? {
        var n := charge.value.file.number;
        assert charge.value.file in files[charge.value.level];
        allowedSeeks := allowedSeeks[n := allowedSeeks[n] - 1];
        if allowedSeeks[n] <= 0 && fileToCompact.None? {
          fileToCompact := charge;
          due := true;
        }
      }
    }

    /** RecordReadSample: a sampled key that two files may hold charges the first of them. */
    method RecordReadSample(user: UserKey, key: InternalKey) returns (due: bool)
      requires Valid()
      modifies this`allowedSeeks, this`fileToCompact
      ensures Valid()
      ensures var ps := Probes(files, user, key);
        && (due <==> |ps| >= 2 && old(fileToCompact).None? && Spent(ps[0].file))
        && (|ps| < 2 ==> allowedSeeks == old(allowedSeeks))
        && fileToCompact == if due then Some(ps[0]) else old(fileToCompact)
    {
      var charge := ReadSample(files, user, key);
      due := UpdateStats(charge);
    }

    /** PickCompaction: a level due by size comes first, then a file that ran out of seeks. Whatever
        is picked has a level below it. */
    method PickCompaction(pointers: seq<Option<InternalKey>>, byteLimit: nat) returns (c: Option<Pick>)
      requires Valid() && |pointers| == NUM_LEVELS
      ensures c.None? <==> compactionScore < 1.0 && fileToCompact.None?
      ensures c.None? <==> (forall l :: 0 <= l < 6 ==> !Due(files, l)) && fileToCompact.None?
      ensures (exists l :: 0 <= l < 6 && Due(files, l)) ==> c.Some? && c.value.level < 6 && Due(files, c.value.level)
      ensures c.Some? ==> PickOk(files, c.value)
      ensures compactionScore >= 1.0 ==> c.Some? && c.value.level == compactionLevel
      ensures compactionScore >= 1.0 ==>
                exists f :: IsNext(files[compactionLevel], pointers[compactionLevel], f) && StartsAt(files, c.value, f, byteLimit)
      ensures compactionScore < 1.0 && fileToCompact.Some? ==>
                c.value.level == fileToCompact.value.level && StartsAt(files, c.value, fileToCompact.value.file, byteLimit)
    {
      BestSaysDue(files, compactionLevel, compactionScore);
      if compactionScore >= 1.0 {
        DueIsNonempty(files, compactionLevel);
        var in0, in1, grandparents, next := PickInputs(files, compactionLevel, pointers[compactionLevel], None, byteLimit);
        c := Some(Pick(compactionLevel, in0, in1, grandparents, next));
      } else if fileToCompact.Some? {
        var level := fileToCompact.value.level;
        var in0, in1, grandparents, next := PickInputs(files, level, pointers[level], Some(fileToCompact.value.file), byteLimit);
        c := Some(Pick(level, in0, in1, grandparents, next));
      } else {
        c := None;
      }
    }
  }
}
