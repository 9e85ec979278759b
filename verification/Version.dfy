/** Table files, levels and versions (db/version_edit.h, db/version_set.h, db/version_set.cc). */
module Version {
  import opened DbFormat
  import opened Mvcc

  datatype FileData = FileData(number: nat, size: nat, entries: seq<Entry>)

  /** A table file holds a nonempty strictly sorted run; its metadata keys are its end points. */
  type File = f: FileData | f.entries != [] && Sorted(f.entries) && InRange(f.entries)
    witness FileData(0, 0, [Entry(InternalKey(0.0, 0, Put), "")])

  type Level = seq<File>
  type Version = seq<Level>

  function Smallest(f: File): InternalKey { f.entries[0].ik }
  function Largest(f: File): InternalKey { f.entries[|f.entries| - 1].ik }

  /** All of `f` precedes all of `g` in internal key order. */
  predicate Before(f: File, g: File) { Less(Largest(f), Smallest(g)) }

  /** Builder::BySmallestKey. */
  predicate BySmallest(f: File, g: File) {
    Less(Smallest(f), Smallest(g)) || (Smallest(f) == Smallest(g) && f.number < g.number)
  }

  /** Wherever the files share a user key, `f` holds the newer version. */
  ghost predicate NewerThan(f: File, g: File) {
    forall d, e :: d in f.entries && e in g.entries && d.ik.user == e.ik.user ==> d.ik.num > e.ik.num
  }

  ghost predicate Ordered(level: Level) {
    forall i, j {:trigger BySmallest(level[i], level[j])} ::
      0 <= i < j < |level| ==> BySmallest(level[i], level[j])
  }

  /** Distinct files do not interleave: the shape of every level from 1 on. */
  ghost predicate Apart(level: Level) {
    forall f, g {:trigger Before(f, g)} :: f in level && g in level && f != g ==> Before(f, g) || Before(g, f)
  }

  /** Level-0 file numbers follow recency. */
  ghost predicate Recent(level: Level) {
    forall f, g {:trigger NewerThan(f, g)} :: f in level && g in level && f.number > g.number ==> NewerThan(f, g)
  }

  predicate SameNumber(f: File, g: File) { f.number == g.number }

  /** A file number names one file in one level. */
  ghost predicate Numbered(v: Version) {
    forall l, m, f, g {:trigger f in v[l], g in v[m], SameNumber(f, g)} ::
      0 <= l < |v| && 0 <= m < |v| && f in v[l] && g in v[m] && SameNumber(f, g) ==> l == m && f == g
  }

  ghost predicate Layered(v: Version) {
    forall l, m, f, g {:trigger f in v[l], g in v[m], NewerThan(f, g)} ::
      0 <= l < m < |v| && f in v[l] && g in v[m] ==> NewerThan(f, g)
  }

  /** The level invariant: shape of every level, recency inside level 0 and across levels. */
  ghost predicate VersionOk(v: Version) {
    && |v| == NUM_LEVELS
    && (forall l :: 0 <= l < |v| ==> Ordered(v[l]))
    && (forall l :: 1 <= l < |v| ==> Apart(v[l]))
    && Recent(v[0])
    && Numbered(v)
    && Layered(v)
  }

  ghost function LevelContents(level: Level): set<Entry> {
    set f, e | f in level && e in f.entries :: e
  }

  ghost function Contents(v: Version): set<Entry> {
    set l, e | 0 <= l < |v| && e in LevelContents(v[l]) :: e
  }

  lemma WhereIs(v: Version, e: Entry) returns (l: nat, f: File)
    requires e in Contents(v)
    ensures l < |v| && f in v[l] && e in f.entries
  {
    l :| 0 <= l < |v| && e in LevelContents(v[l]);
    f :| f in v[l] && e in f.entries;
  }

  lemma Holds(v: Version, l: nat, f: File, e: Entry)
    requires l < |v| && f in v[l] && e in f.entries
    ensures e in Contents(v)
  {
    assert e in LevelContents(v[l]);
  }

  /** Every entry of a file lies between its end points. */
  lemma Bounds(f: File, e: Entry)
    requires e in f.entries
    ensures Smallest(f) == e.ik || Less(Smallest(f), e.ik)
    ensures e.ik == Largest(f) || Less(e.ik, Largest(f))
  {
    var i :| 0 <= i < |f.entries| && f.entries[i] == e;
  }

  lemma BeforeEntries(f: File, g: File, d: Entry, e: Entry)
    requires Before(f, g) && d in f.entries && e in g.entries
    ensures Less(d.ik, e.ik)
  {
    Bounds(f, d);
    Bounds(g, e);
  }

  lemma NotBeforeBoth(f: File, g: File)
    requires Before(f, g)
    ensures !Before(g, f) && Less(Smallest(f), Smallest(g)) && Less(Largest(f), Largest(g))
  {
    Bounds(f, f.entries[0]);
    Bounds(g, g.entries[0]);
  }

  /** In a level that is ordered and apart, positions follow internal key order. */
  lemma LevelBefore(level: Level, i: nat, j: nat)
    requires Ordered(level) && Apart(level) && i < j < |level|
    ensures Before(level[i], level[j])
  {
    var f, g := level[i], level[j];
    assert BySmallest(f, g);
    if f == g { assert false; }
    if Before(g, f) { NotBeforeBoth(g, f); }
  }

  /** Binary search for the first file whose largest key is at or after `key`. */
  method FindFile(level: Level, key: InternalKey) returns (index: nat)
    requires Ordered(level) && Apart(level)
    ensures index <= |level|
    ensures forall i :: 0 <= i < index ==> Less(Largest(level[i]), key)
    ensures forall i :: index <= i < |level| ==> !Less(Largest(level[i]), key)
  {
    var left, right := 0, |level|;
    while left < right
      invariant left <= right <= |level|
      invariant forall i :: 0 <= i < left ==> Less(Largest(level[i]), key)
      invariant forall i :: right <= i < |level| ==> !Less(Largest(level[i]), key)
    {
      var mid := (left + right) / 2;
      if Less(Largest(level[mid]), key) {
        forall i | 0 <= i < mid ensures Less(Largest(level[i]), key) {
          LevelBefore(level, i, mid);
          NotBeforeBoth(level[i], level[mid]);
        }
        left := mid + 1;
      } else {
        forall i | mid < i < |level| ensures !Less(Largest(level[i]), key) {
          LevelBefore(level, mid, i);
          NotBeforeBoth(level[mid], level[i]);
        }
        right := mid;
      }
    }
    index := right;
  }

  predicate AfterFile(user: Option<UserKey>, f: File) {
    user.Some? && user.value > Largest(f).user
  }

  predicate BeforeFile(user: Option<UserKey>, f: File) {
    user.Some? && user.value < Smallest(f).user
  }

  /** The file's user keys may meet the range, where an absent end is unbounded. */
  predicate Overlaps(f: File, lo: Option<UserKey>, hi: Option<UserKey>) {
    !AfterFile(lo, f) && !BeforeFile(hi, f)
  }

  /** Linear over level 0, binary search elsewhere: both decide whether some file overlaps. */
  method SomeFileOverlapsRange(disjointSorted: bool, level: Level, lo: Option<UserKey>, hi: Option<UserKey>)
    returns (found: bool)
    requires disjointSorted ==> Ordered(level) && Apart(level)
    ensures found <==> exists f :: f in level && Overlaps(f, lo, hi)
  {
    if !disjointSorted {
      for i := 0 to |level|
        invariant forall j :: 0 <= j < i ==> !Overlaps(level[j], lo, hi)
      {
        if AfterFile(lo, level[i]) || BeforeFile(hi, level[i]) {
        } else {
          assert level[i] in level && Overlaps(level[i], lo, hi);
          return true;
        }
      }
      return false;
    }
    var index := 0;
    if lo.Some? {
      var key := InternalKey(lo.value, MAX_SEQUENCE, Put);
      index := FindFile(level, key);
      forall i | 0 <= i < |level| ensures AfterFile(lo, level[i]) <==> i < index {
        assert Largest(level[i]).num <= MAX_SEQUENCE by { assert level[i].entries[|level[i].entries| - 1] in level[i].entries; }
      }
    }
    if index >= |level| {
      return false;
    }
    found := !BeforeFile(hi, level[index]);
    if found {
      assert Overlaps(level[index], lo, hi);
    } else {
      forall i | index <= i < |level| ensures BeforeFile(hi, level[i]) {
        if index < i { LevelBefore(level, index, i); NotBeforeBoth(level[index], level[i]); }
      }
    }
  }

  /** No entry of the file is visible to the lookup. */
  ghost predicate Silent(f: File, user: UserKey, snap: nat) {
    forall e :: e in f.entries ==> !(e.ik.user == user && e.ik.num <= snap)
  }

  lemma OutsideIsSilent(f: File, user: UserKey, snap: nat)
    requires !Overlaps(f, Some(user), Some(user))
    ensures Silent(f, user, snap)
  {
    forall e | e in f.entries ensures e.ik.user != user { Bounds(f, e); }
  }

  lemma LevelMissIsSilent(level: Level, user: UserKey, snap: nat, index: nat, f: File)
    requires Ordered(level) && Apart(level) && index <= |level|
    requires forall i :: 0 <= i < index ==> Less(Largest(level[i]), LookupKey(user, snap))
    requires index < |level| ==> !Less(Largest(level[index]), LookupKey(user, snap))
    requires index < |level| ==> user < Smallest(level[index]).user || RunGet(level[index].entries, user, snap).None?
    requires f in level
    ensures Silent(f, user, snap)
  {
    var target := LookupKey(user, snap);
    var j :| 0 <= j < |level| && level[j] == f;
    forall e | e in f.entries && e.ik.user == user && e.ik.num <= snap ensures false {
      Bounds(f, e);
      assert !Less(e.ik, target);
      if j < index {
        LessTrans2(e.ik, Largest(f), target);
      } else {
        var g := level[index];
        if index < j { LevelBefore(level, index, j); NotBeforeBoth(g, f); }
        if user >= Smallest(g).user {
          RunGetIsNewest(g.entries, user, snap);
          if index == j {
            assert Visible(SetOf(g.entries), user, snap, e);
          } else {
            var last := g.entries[|g.entries| - 1];
            BeforeEntries(g, f, last, e);
            assert last in g.entries;
            Bounds(g, g.entries[0]);
            assert Visible(SetOf(g.entries), user, snap, last);
          }
        }
      }
    }
  }

  lemma LessTrans2(a: InternalKey, b: InternalKey, c: InternalKey)
    requires (Less(a, b) || a == b) && Less(b, c)
    ensures Less(a, c)
  {
  }

  /** The hit of one file is the newest in its whole level. */
  lemma LevelHitIsNewest(level: Level, user: UserKey, snap: nat, index: nat, e: Entry, f: File, d: Entry)
    requires Ordered(level) && Apart(level) && index < |level|
    requires forall i :: 0 <= i < index ==> Less(Largest(level[i]), LookupKey(user, snap))
    requires RunGet(level[index].entries, user, snap) == Some(e)
    requires f in level && d in f.entries && d.ik.user == user && d.ik.num <= snap
    ensures d.ik.num <= e.ik.num
  {
    var j :| 0 <= j < |level| && level[j] == f;
    RunGetIsNewest(level[index].entries, user, snap);
    if j < index {
      Bounds(f, d);
    } else if j == index {
      assert Visible(SetOf(f.entries), user, snap, d);
    } else {
      LevelBefore(level, index, j);
      BeforeEntries(level[index], f, e, d);
    }
  }
}
