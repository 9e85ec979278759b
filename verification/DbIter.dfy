/** The iterator clients see (db/db_iter.cc): it walks the internal entries and shows, for each
    user key, the newest version at or below its sequence number, unless that is a deletion. */
module DbIter {
  import opened DbFormat
  import opened Mvcc
  import opened Merger

  // ---------- what the iterator shows ----------

  ghost predicate Vis(all: seq<Entry>, snap: nat, i: int) {
    0 <= i < |all| && all[i].ik.num <= snap
  }

  /** An earlier visible entry of the same user key covers entry `i`. */
  ghost predicate Covers(all: seq<Entry>, snap: nat, j: int, i: int) {
    0 <= j < i < |all| && Vis(all, snap, j) && all[j].ik.user == all[i].ik.user
  }

  /** Entry `i` is the newest visible version of its user key, and a value. */
  ghost predicate Shown(all: seq<Entry>, snap: nat, i: int) {
    && Vis(all, snap, i) && all[i].ik.kind.Put?
    && forall j {:trigger Covers(all, snap, j, i)} :: !Covers(all, snap, j, i)
  }

  /** User keys never decrease along the internal order. */
  ghost predicate UsersRise(all: seq<Entry>) {
    forall i, j :: 0 <= i <= j < |all| ==> all[i].ik.user <= all[j].ik.user
  }

  lemma SortedRises(all: seq<Entry>)
    requires Sorted(all)
    ensures UsersRise(all)
  {
    forall i, j | 0 <= i <= j < |all| ensures all[i].ik.user <= all[j].ik.user {
      if i < j { assert Less(all[i].ik, all[j].ik); }
    }
  }

  /** The client's view: the entries shown among the first `n`. */
  ghost function View(all: seq<Entry>, snap: nat, n: nat): (v: seq<Entry>)
    requires n <= |all|
    ensures |v| <= n
  {
    if n == 0 then []
    else View(all, snap, n - 1) + if Shown(all, snap, n - 1) then [all[n - 1]] else []
  }

  /** The index of the view at which entry `i` appears. */
  ghost function Rank(all: seq<Entry>, snap: nat, i: nat): nat
    requires i <= |all|
  {
    |View(all, snap, i)|
  }

  lemma {:induction false} ViewPrefix(all: seq<Entry>, snap: nat, i: nat, n: nat)
    requires i <= n <= |all|
    ensures Rank(all, snap, i) <= |View(all, snap, n)|
    ensures View(all, snap, n)[..Rank(all, snap, i)] == View(all, snap, i)
    decreases n
  {
    if i < n { ViewPrefix(all, snap, i, n - 1); }
  }

  /** A shown entry appears at its rank. */
  lemma ShownAtRank(all: seq<Entry>, snap: nat, i: nat)
    requires i < |all| && Shown(all, snap, i)
    ensures Rank(all, snap, i) < |View(all, snap, |all|)| && View(all, snap, |all|)[Rank(all, snap, i)] == all[i]
    ensures Rank(all, snap, i + 1) == Rank(all, snap, i) + 1
  {
    ViewPrefix(all, snap, i + 1, |all|);
    assert View(all, snap, |all|)[..Rank(all, snap, i + 1)][Rank(all, snap, i)] == all[i];
  }

  ghost predicate NoneShown(all: seq<Entry>, snap: nat, from: int, to: int) {
    forall i :: from <= i < to ==> !Shown(all, snap, i)
  }

  /** Where nothing is shown, the view does not grow. */
  lemma {:induction false} RankStays(all: seq<Entry>, snap: nat, i: nat, n: nat)
    requires i <= n <= |all| && NoneShown(all, snap, i, n)
    ensures Rank(all, snap, n) == Rank(all, snap, i)
    decreases n
  {
    if i < n { RankStays(all, snap, i, n - 1); }
  }

  // ---------- the view is the multi-version map ----------

  lemma {:induction false} InView(all: seq<Entry>, snap: nat, n: nat, e: Entry)
    requires n <= |all|
    ensures e in View(all, snap, n) <==> exists i :: 0 <= i < n && Shown(all, snap, i) && all[i] == e
  {
    if n > 0 { InView(all, snap, n - 1, e); }
  }

  lemma ShownIsNewest(all: seq<Entry>, snap: nat, i: nat)
    requires Sorted(all) && i < |all| && Vis(all, snap, i)
    requires forall j {:trigger Covers(all, snap, j, i)} :: !Covers(all, snap, j, i)
    ensures Newest(SetOf(all), all[i].ik.user, snap, all[i])
  {
    forall d | Visible(SetOf(all), all[i].ik.user, snap, d) ensures d.ik.num <= all[i].ik.num {
      var k :| 0 <= k < |all| && all[k] == d;
      assert !Covers(all, snap, k, i);
      if i < k { assert Less(all[i].ik, all[k].ik); }
    }
  }

  lemma NewestIsShown(all: seq<Entry>, snap: nat, user: UserKey, e: Entry) returns (i: nat)
    requires Sorted(all) && Functional(SetOf(all)) && Newest(SetOf(all), user, snap, e) && e.ik.kind.Put?
    ensures i < |all| && all[i] == e && Shown(all, snap, i)
  {
    i :| 0 <= i < |all| && all[i] == e;
    forall j ensures !Covers(all, snap, j, i) {
      if Covers(all, snap, j, i) {
        assert Less(all[j].ik, all[i].ik) && Visible(SetOf(all), user, snap, all[j]);
      }
    }
  }

  /** A client iterating at a snapshot sees exactly the pairs it could read one by one. */
  lemma ViewIsReads(all: seq<Entry>, snap: nat, user: UserKey, value: Value)
    requires Sorted(all) && Functional(SetOf(all))
    ensures (exists e :: e in View(all, snap, |all|) && e.ik.user == user && e.value == value)
       <==> Read(SetOf(all), user, snap) == Some(value)
  {
    if e :| e in View(all, snap, |all|) && e.ik.user == user && e.value == value {
      InView(all, snap, |all|, e);
      var i :| 0 <= i < |all| && Shown(all, snap, i) && all[i] == e;
      ShownIsNewest(all, snap, i);
      ReadNewest(SetOf(all), user, snap, e);
    } else if Read(SetOf(all), user, snap) == Some(value) {
      var e :| Newest(SetOf(all), user, snap, e);
      ReadNewest(SetOf(all), user, snap, e);
      var i := NewestIsShown(all, snap, user, e);
      InView(all, snap, |all|, e);
    }
  }

  /** The view is strictly increasing in user keys. */
  lemma {:induction false} ViewRises(all: seq<Entry>, snap: nat, n: nat)
    requires Sorted(all) && n <= |all|
    ensures forall i, j :: 0 <= i < j < |View(all, snap, n)| ==> View(all, snap, n)[i].ik.user < View(all, snap, n)[j].ik.user
  {
    if n > 0 {
      ViewRises(all, snap, n - 1);
      SortedRises(all);
      if Shown(all, snap, n - 1) {
        forall e | e in View(all, snap, n - 1) ensures e.ik.user < all[n - 1].ik.user {
          InView(all, snap, n - 1, e);
          var i :| 0 <= i < n - 1 && Shown(all, snap, i) && all[i] == e;
          assert !Covers(all, snap, i, n - 1);
        }
      }
    }
  }

  // ---------- scanning forward ----------

  /** The entries a forward scan is after: shown, and not before `from`. */
  ghost predicate Goal(all: seq<Entry>, snap: nat, from: nat, i: int) {
    from <= i && Shown(all, snap, i)
  }

  /** An entry not covered by one the scan has yet to meet. */
  ghost predicate FirstMet(all: seq<Entry>, snap: nat, pos: nat, i: int) {
    forall j {:trigger Covers(all, snap, j, i)} :: pos <= j ==> !Covers(all, snap, j, i)
  }

  /** What FindNextUserEntry knows at `pos`: no goal is behind it; a key at or below `skip` is no
      goal; and a value it will meet first and that is no goal is at or below `skip`. */
  ghost predicate Scan(all: seq<Entry>, snap: nat, from: nat, pos: nat, skipping: bool, skip: UserKey) {
    && NoneShown(all, snap, from, pos)
    && (forall i {:trigger Vis(all, snap, i)} ::
          pos <= i && Vis(all, snap, i) && skipping && all[i].ik.user <= skip ==> !Goal(all, snap, from, i))
    && (forall i {:trigger Vis(all, snap, i)} ::
          pos <= i && Vis(all, snap, i) && all[i].ik.kind.Put? && !Goal(all, snap, from, i) && FirstMet(all, snap, pos, i)
          ==> skipping && all[i].ik.user <= skip)
    && (forall i {:trigger Vis(all, snap, i)} ::
          pos <= i && Vis(all, snap, i) && skipping ==> skip <= all[i].ik.user)
  }

  /** An entry that is not visible, or hidden by `skip`, is passed over. */
  lemma ScanPast(all: seq<Entry>, snap: nat, from: nat, pos: nat, skipping: bool, skip: UserKey)
    requires pos < |all| && Scan(all, snap, from, pos, skipping, skip)
    requires !Vis(all, snap, pos) || (skipping && all[pos].ik.user <= skip)
    ensures Scan(all, snap, from, pos + 1, skipping, skip)
  {
    assert !Goal(all, snap, from, pos);
    forall i | pos + 1 <= i && Vis(all, snap, i) && all[i].ik.kind.Put? && !Goal(all, snap, from, i) && FirstMet(all, snap, pos + 1, i)
      ensures skipping && all[i].ik.user <= skip
    {
      assert Covers(all, snap, pos, i) || FirstMet(all, snap, pos, i);
    }
  }

  /** A visible deletion hides its key from here on. */
  lemma ScanDelete(all: seq<Entry>, snap: nat, from: nat, pos: nat, skipping: bool, skip: UserKey)
    requires Sorted(all) && pos < |all| && Scan(all, snap, from, pos, skipping, skip)
    requires Vis(all, snap, pos) && all[pos].ik.kind.Deletion?
    ensures Scan(all, snap, from, pos + 1, true, all[pos].ik.user)
  {
    SortedRises(all);
    assert !Goal(all, snap, from, pos);
    forall i | pos + 1 <= i && Vis(all, snap, i) && all[i].ik.user <= all[pos].ik.user ensures !Goal(all, snap, from, i) {
      assert Covers(all, snap, pos, i);
    }
    forall i | pos + 1 <= i && Vis(all, snap, i) && all[i].ik.kind.Put? && !Goal(all, snap, from, i) && FirstMet(all, snap, pos + 1, i)
      ensures all[i].ik.user <= all[pos].ik.user
    {
      assert Covers(all, snap, pos, i) || FirstMet(all, snap, pos, i);
    }
  }

  lemma ScanFound(all: seq<Entry>, snap: nat, from: nat, pos: nat, skipping: bool, skip: UserKey)
    requires pos < |all| && Scan(all, snap, from, pos, skipping, skip)
    requires Vis(all, snap, pos) && all[pos].ik.kind.Put? && !(skipping && all[pos].ik.user <= skip)
    ensures Goal(all, snap, from, pos)
  {
    assert FirstMet(all, snap, pos, pos);
  }

  /** The scan that Seek starts. */
  lemma ScanFromSeek(all: seq<Entry>, snap: nat, target: UserKey, pos: nat)
    requires Sorted(all) && pos == SeekIndex(all, LookupKey(target, snap))
    ensures Scan(all, snap, pos, pos, false, 0.0)
  {
    SortedRises(all);
    forall i | pos <= i && Vis(all, snap, i) && all[i].ik.kind.Put? && FirstMet(all, snap, pos, i) ensures Goal(all, snap, pos, i) {
      AfterSeek(all, snap, target, i);
      forall j ensures !Covers(all, snap, j, i) {
        if 0 <= j < pos && Vis(all, snap, j) { BeforeSeek(all, snap, target, j); }
      }
    }
  }

  lemma BeforeSeek(all: seq<Entry>, snap: nat, target: UserKey, j: nat)
    requires j < SeekIndex(all, LookupKey(target, snap)) && Vis(all, snap, j)
    ensures all[j].ik.user < target
  {
  }

  lemma AfterSeek(all: seq<Entry>, snap: nat, target: UserKey, i: nat)
    requires Sorted(all) && SeekIndex(all, LookupKey(target, snap)) <= i < |all|
    ensures target <= all[i].ik.user
  {
    SortedRises(all);
  }

  lemma ScanFromFirst(all: seq<Entry>, snap: nat)
    ensures Scan(all, snap, 0, 0, false, 0.0)
  {
  }

  /** The scan that Next starts behind the current entry. */
  lemma ScanFromNext(all: seq<Entry>, snap: nat, at: nat)
    requires Sorted(all) && at < |all| && Shown(all, snap, at)
    ensures Scan(all, snap, at + 1, at + 1, true, all[at].ik.user)
  {
    SortedRises(all);
    forall i | at + 1 <= i && Vis(all, snap, i) && all[i].ik.user <= all[at].ik.user ensures !Goal(all, snap, at + 1, i) {
      assert Covers(all, snap, at, i);
    }
    forall i | at + 1 <= i && Vis(all, snap, i) && all[i].ik.kind.Put? && !Goal(all, snap, at + 1, i) && FirstMet(all, snap, at + 1, i)
      ensures all[i].ik.user <= all[at].ik.user
    {
      var j :| Covers(all, snap, j, i);
    }
  }

  /** Going backward, the inner iterator is parked at `p` (-1 when it ran off): before the current
      entry `at`, on a smaller key, with nothing visible in between. */
  ghost predicate Parked(all: seq<Entry>, snap: nat, p: int, at: nat) {
    && -1 <= p < at < |all| && (p >= 0 ==> all[p].ik.user < all[at].ik.user)
    && forall i {:trigger Vis(all, snap, i)} :: p < i < at ==> !Vis(all, snap, i)
  }

  /** The scan that Next starts when it turns around: it meets the current entry again. */
  lemma ScanFromTurn(all: seq<Entry>, snap: nat, p: int, at: nat)
    requires Sorted(all) && Parked(all, snap, p, at) && Shown(all, snap, at)
    ensures Scan(all, snap, at + 1, p + 1, true, all[at].ik.user)
  {
    SortedRises(all);
    forall i | p + 1 <= i && Vis(all, snap, i) && all[i].ik.user <= all[at].ik.user ensures !Goal(all, snap, at + 1, i) {
      if at < i { assert Covers(all, snap, at, i); }
    }
    forall i | p + 1 <= i && Vis(all, snap, i) && all[i].ik.kind.Put? && !Goal(all, snap, at + 1, i) && FirstMet(all, snap, p + 1, i)
      ensures all[i].ik.user <= all[at].ik.user
    {
      assert forall j {:trigger Covers(all, snap, j, i)} :: at < i && j <= p ==> !Covers(all, snap, j, i);
    }
  }

  /** `at` is the first entry shown at or after `from`, or the end. */
  ghost predicate Lands(all: seq<Entry>, snap: nat, from: nat, at: nat) {
    && from <= at <= |all| && NoneShown(all, snap, from, at) && (at < |all| ==> Shown(all, snap, at))
  }

  // ---------- scanning backward ----------

  /** What FindPrevUserEntry knows with the inner iterator at `p`: nothing between is shown, except
      perhaps the candidate `c`, below which nothing visible was met yet. */
  ghost predicate BackScan(all: seq<Entry>, snap: nat, from: nat, p: int, pending: bool, c: nat) {
    && -1 <= p < from <= |all|
    && if pending then
         && p < c < from && Vis(all, snap, c) && all[c].ik.kind.Put?
         && (forall i {:trigger Vis(all, snap, i)} :: p < i < c ==> !Vis(all, snap, i))
         && NoneShown(all, snap, c + 1, from)
       else NoneShown(all, snap, p + 1, from)
  }

  lemma BackPast(all: seq<Entry>, snap: nat, from: nat, p: nat, pending: bool, c: nat)
    requires BackScan(all, snap, from, p, pending, c) && !Vis(all, snap, p)
    ensures BackScan(all, snap, from, p - 1, pending, c)
  {
  }

  /** A visible entry of the candidate's key, or any when there is none, becomes the candidate, or
      clears it when it is a deletion. */
  lemma BackTake(all: seq<Entry>, snap: nat, from: nat, p: nat, pending: bool, c: nat)
    requires Sorted(all) && BackScan(all, snap, from, p, pending, c) && Vis(all, snap, p)
    requires pending ==> !(all[p].ik.user < all[c].ik.user)
    ensures BackScan(all, snap, from, p - 1, all[p].ik.kind.Put?, p)
  {
    SortedRises(all);
    if pending {
      assert Covers(all, snap, p, c);
    }
  }

  /** A candidate with a visible entry of a smaller key before it, or none, is shown. */
  lemma BackFound(all: seq<Entry>, snap: nat, from: nat, p: int, c: nat)
    requires Sorted(all) && BackScan(all, snap, from, p, true, c)
    requires p >= 0 ==> all[p].ik.user < all[c].ik.user
    ensures Shown(all, snap, c) && Parked(all, snap, p, c)
  {
    SortedRises(all);
    forall j ensures !Covers(all, snap, j, c) {
    }
  }

  /** `at` is the last entry shown before `from`, or the end when there is none. */
  ghost predicate LandsBack(all: seq<Entry>, snap: nat, from: nat, at: nat) {
    if at == |all| then NoneShown(all, snap, 0, from)
    else at < from && Shown(all, snap, at) && NoneShown(all, snap, at + 1, from)
  }

  lemma RankForward(all: seq<Entry>, snap: nat, from: nat, at: nat)
    requires Lands(all, snap, from, at)
    ensures Rank(all, snap, at) == Rank(all, snap, from)
  {
    RankStays(all, snap, from, at);
  }

  lemma RankBack(all: seq<Entry>, snap: nat, from: nat, at: nat)
    requires from <= |all| && at <= |all| && LandsBack(all, snap, from, at)
    ensures Rank(all, snap, at) == if Rank(all, snap, from) == 0 then |View(all, snap, |all|)| else Rank(all, snap, from) - 1
  {
    if at == |all| {
      RankStays(all, snap, 0, from);
    } else {
      ShownAtRank(all, snap, at);
      RankStays(all, snap, at + 1, from);
    }
  }

  // ---------- the iterator ----------

  class DBIter {
    const iter: MergingIterator
    const sequence: nat
    var direction: Direction
    var valid: bool
    var savedKey: Option<UserKey>   // the current key when going backward
    var savedValue: Value           // and its value
    ghost var at: nat               // the entry shown, or the end

    /** Where the inner iterator stands, -1 when it ran off. */
    ghost function Spot(): int
      reads this, iter
    {
      if iter.current.Some? then iter.at else -1
    }

    ghost predicate Valid()
      reads this, iter
    {
      && iter.Valid() && at <= |iter.all| && (valid <==> at < |iter.all|)
      && (valid ==> Shown(iter.all, sequence, at))
      && (valid && direction.Forward? ==> iter.at == at)
      && (valid && direction.Reverse? ==>
            && savedKey == Some(iter.all[at].ik.user) && savedValue == iter.all[at].value
            && Parked(iter.all, sequence, Spot(), at))
    }

    /** The client's view, and the index the iterator stands at: past its end when invalid. */
    ghost function Shows(): seq<Entry>
      reads this, iter
    {
      View(iter.all, sequence, |iter.all|)
    }

    ghost function Index(): nat
      requires Valid()
      reads this, iter
    {
      Rank(iter.all, sequence, at)
    }

    /** The iterator is valid just where the view has a pair. */
    lemma ValidIsInside()
      requires Valid()
      ensures valid <==> Index() < |Shows()|
    {
      if valid { ShownAtRank(iter.all, sequence, at); }
    }

    constructor (iter: MergingIterator, sequence: nat)
      requires iter.Valid()
      ensures Valid() && this.iter == iter && this.sequence == sequence && Index() == |Shows()| && !valid
    {
      this.iter, this.sequence := iter, sequence;
      direction, valid, savedKey, savedValue := Forward, false, None, "";
      at := |iter.all|;
    }

    method Key() returns (key: UserKey)
      requires Valid() && valid
      ensures Index() < |Shows()| && key == Shows()[Index()].ik.user
    {
      ShownAtRank(iter.all, sequence, at);
      key := if direction == Forward then iter.Current().ik.user else savedKey.value;
    }

    method GetValue() returns (value: Value)
      requires Valid() && valid
      ensures Index() < |Shows()| && value == Shows()[Index()].value
    {
      ShownAtRank(iter.all, sequence, at);
      value := if direction == Forward then iter.Current().value else savedValue;
    }

    method Next()
      requires Valid() && valid
      modifies this, iter
      ensures Valid() && Index() == old(Index()) + 1 && (valid <==> Index() < |Shows()|)
    {
      ghost var from := at + 1;
      ShownAtRank(iter.all, sequence, at);
      StepPast();
      Onward(true, from);
      RankForward(iter.all, sequence, from, at);
      ValidIsInside();
    }

    /** Moves the inner iterator past the current entry, or, when going backward, back into the
        entries of the current key, and remembers that key. */
    method StepPast()
      requires Valid() && valid
      modifies this, iter
      ensures iter.Valid() && direction.Forward? && savedKey.Some?
      ensures Scan(iter.all, sequence, old(at) + 1, iter.at, true, savedKey.value)
    {
      if direction == Reverse {
        direction := Forward;
        ScanFromTurn(iter.all, sequence, Spot(), at);
        if iter.current.None? { iter.SeekToFirst(); } else { iter.Next(); }
      } else {
        savedKey := Some(iter.Current().ik.user);
        ScanFromNext(iter.all, sequence, at);
        iter.Next();
      }
    }

    /** Scans on unless the inner iterator ran off. */
    method Onward(skipping: bool, ghost from: nat)
      requires iter.Valid() && direction.Forward? && from <= |iter.all| && (skipping ==> savedKey.Some?)
      requires Scan(iter.all, sequence, from, iter.at, skipping, if skipping then savedKey.value else 0.0)
      modifies this, iter
      ensures Valid() && Lands(iter.all, sequence, from, at)
    {
      if iter.current.None? {
        valid, savedKey := false, None;
        at := |iter.all|;
      } else {
        FindNextUserEntry(skipping, if skipping then savedKey.value else 0.0, from);
      }
    }

    /** Moves forward from the inner iterator's entry to the first entry to show. */
    method FindNextUserEntry(skipping: bool, skip: UserKey, ghost from: nat)
      requires iter.Valid() && iter.current.Some? && direction.Forward? && from <= |iter.all|
      requires Scan(iter.all, sequence, from, iter.at, skipping, skip)
      modifies this, iter
      ensures Valid() && Lands(iter.all, sequence, from, at)
    {
      var v := Go(skipping, skip);
      while v.Go? && iter.current.Some?
        invariant iter.Valid() && direction.Forward?
        invariant v.Go? ==> Scan(iter.all, sequence, from, iter.at, v.skipping, v.skip)
        invariant v.Stop? ==> iter.current.Some? && Lands(iter.all, sequence, from, iter.at)
        decreases |iter.all| - iter.at, v.Go?
      {
        v := Examine(v, from);
      }
      savedKey, valid := None, v.Stop?;
      at := iter.at;
    }

    /** Looks at the inner iterator's entry, and moves on unless it is to be shown. */
    method Examine(v: Verdict, ghost from: nat) returns (w: Verdict)
      requires iter.Valid() && iter.current.Some? && from <= |iter.all|
      requires v.Go? && Scan(iter.all, sequence, from, iter.at, v.skipping, v.skip)
      modifies iter
      ensures iter.Valid() && (w.Go? ==> iter.at == old(iter.at) + 1) && (w.Stop? ==> iter.at == old(iter.at))
      ensures w.Go? ==> Scan(iter.all, sequence, from, iter.at, w.skipping, w.skip)
      ensures w.Stop? ==> iter.current.Some? && Lands(iter.all, sequence, from, iter.at)
    {
      JudgeKeeps(iter.all, sequence, from, iter.at, v.skipping, v.skip);
      w := Judge(iter.Current(), sequence, v.skipping, v.skip);
      if w.Go? { iter.Next(); }
    }

    method Seek(target: UserKey)
      requires Valid()
      modifies this, iter
      ensures Valid() && Index() <= |Shows()| && (valid <==> Index() < |Shows()|)
      ensures forall i :: 0 <= i < Index() ==> Shows()[i].ik.user < target
      ensures Index() < |Shows()| ==> Shows()[Index()].ik.user >= target
    {
      direction, savedValue, savedKey := Forward, "", None;
      iter.Seek(LookupKey(target, sequence));
      ghost var from := iter.at;
      ScanFromSeek(iter.all, sequence, target, from);
      Onward(false, from);
      SeekLands(iter.all, sequence, target, from, at);
      ValidIsInside();
    }

    method SeekToFirst()
      requires Valid()
      modifies this, iter
      ensures Valid() && Index() == 0 && (valid <==> |Shows()| > 0)
    {
      direction, savedValue := Forward, "";
      iter.SeekToFirst();
      ScanFromFirst(iter.all, sequence);
      Onward(false, 0);
      RankForward(iter.all, sequence, 0, at);
      ValidIsInside();
    }

    method SeekToLast()
      requires Valid()
      modifies this, iter
      ensures Valid() && Index() == (if |Shows()| == 0 then 0 else |Shows()| - 1) && (valid <==> |Shows()| > 0)
    {
      direction, savedValue := Reverse, "";
      iter.SeekToLast();
      ghost var from := |iter.all|;
      FindPrevUserEntry(from);
      RankBack(iter.all, sequence, from, at);
      ValidIsInside();
    }

    method Prev()
      requires Valid() && valid
      modifies this, iter
      ensures Valid() && Index() == (if old(Index()) == 0 then |Shows()| else old(Index()) - 1) && (valid <==> Index() < |Shows()|)
    {
      ghost var from := at;
      if direction == Forward {
        BackOut();
        if iter.current.None? {
          valid, savedKey, savedValue := false, None, "";
          at := |iter.all|;
          RankBack(iter.all, sequence, from, at);
          ValidIsInside();
          return;
        }
        direction := Reverse;
      }
      FindPrevUserEntry(from);
      RankBack(iter.all, sequence, from, at);
      ValidIsInside();
    }

    /** Moves the inner iterator back until the user key changes. */
    method BackOut()
      requires Valid() && valid && direction.Forward?
      modifies iter, this`savedKey
      ensures iter.Valid() && BackScan(iter.all, sequence, at, Spot(), false, 0)
    {
      var key := iter.Current().ik.user;
      savedKey := Some(key);
      iter.Prev();
      while iter.current.Some? && !(iter.Current().ik.user < key)
        invariant iter.Valid() && OneKey(iter.all, Spot(), at)
        decreases Spot()
      {
        OneKeyFurther(iter.all, iter.at, at);
        iter.Prev();
      }
      NotShownBefore(iter.all, sequence, Spot(), at);
    }

    /** Moves backward to the last entry to show before `from`. */
    method FindPrevUserEntry(ghost from: nat)
      requires iter.Valid() && direction.Reverse? && BackScan(iter.all, sequence, from, Spot(), false, 0)
      modifies this, iter
      ensures Valid() && LandsBack(iter.all, sequence, from, at)
    {
      var kind, more := Deletion, true;
      ghost var c: nat := 0;
      while more && iter.current.Some?
        invariant iter.Valid() && direction.Reverse? && Candidate(from, kind, c)
        invariant !more ==> kind.Put? && iter.current.Some? && iter.all[Spot()].ik.user < iter.all[c].ik.user
        decreases Spot(), more
      {
        more, kind, c := ExamineBack(kind, c, from);
      }
      if kind == Deletion {
        valid, savedKey, savedValue, direction := false, None, "", Forward;
        at := |iter.all|;
      } else {
        BackFound(iter.all, sequence, from, Spot(), c);
        valid := true;
        at := c;
      }
    }

    /** The backward scan's knowledge, with the candidate's key and value saved. */
    ghost predicate Candidate(from: nat, kind: Kind, c: nat)
      reads this, iter
    {
      && BackScan(iter.all, sequence, from, Spot(), kind.Put?, c)
      && (kind.Put? ==> savedKey == Some(iter.all[c].ik.user) && savedValue == iter.all[c].value)
    }

    /** Looks at the inner iterator's entry, and moves back unless a smaller key's visible entry
        settles the candidate. */
    method ExamineBack(was: Kind, ghost c: nat, ghost from: nat) returns (more: bool, kind: Kind, ghost d: nat)
      requires iter.Valid() && iter.current.Some? && Candidate(from, was, c)
      modifies this`savedKey, this`savedValue, iter
      ensures iter.Valid() && Candidate(from, kind, d)
      ensures if more then Spot() == old(Spot()) - 1
              else kind.Put? && iter.current.Some? && Spot() == old(Spot()) && iter.all[Spot()].ik.user < iter.all[d].ik.user
    {
      more, kind, d := true, was, c;
      var e := iter.Current();
      if e.ik.num <= sequence {
        if was != Deletion && e.ik.user < savedKey.value {
          more := false;
          return;
        }
        BackTake(iter.all, sequence, from, iter.at, was.Put?, c);
        kind, d := e.ik.kind, iter.at;
        if kind == Deletion {
          savedKey, savedValue := None, "";
        } else {
          savedKey, savedValue := Some(e.ik.user), e.value;
        }
      } else {
        BackPast(iter.all, sequence, from, iter.at, was.Put?, c);
      }
      iter.Prev();
    }
  }

  /** What FindNextUserEntry does with one entry: show it, or go on with a key to skip. */
  datatype Verdict = Stop | Go(skipping: bool, skip: UserKey)

  function Judge(e: Entry, snap: nat, skipping: bool, skip: UserKey): Verdict {
    if e.ik.num > snap then Go(skipping, skip)
    else match e.ik.kind
      case Deletion => Go(true, e.ik.user)
      case Put => if skipping && e.ik.user <= skip then Go(skipping, skip) else Stop
  }

  lemma JudgeKeeps(all: seq<Entry>, snap: nat, from: nat, pos: nat, skipping: bool, skip: UserKey)
    requires Sorted(all) && pos < |all| && Scan(all, snap, from, pos, skipping, skip)
    ensures var v := Judge(all[pos], snap, skipping, skip);
            if v.Stop? then Goal(all, snap, from, pos) else Scan(all, snap, from, pos + 1, v.skipping, v.skip)
  {
    var v := Judge(all[pos], snap, skipping, skip);
    if v.Stop? {
      ScanFound(all, snap, from, pos, skipping, skip);
    } else if all[pos].ik.num <= snap && all[pos].ik.kind.Deletion? {
      ScanDelete(all, snap, from, pos, skipping, skip);
    } else {
      ScanPast(all, snap, from, pos, skipping, skip);
    }
  }

  /** The entries from behind `p` up to `at` belong to one user key. */
  ghost predicate OneKey(all: seq<Entry>, p: int, at: nat) {
    -1 <= p < at < |all| && forall i {:trigger SameUser(all, i, at)} :: p < i < at ==> SameUser(all, i, at)
  }

  ghost predicate SameUser(all: seq<Entry>, i: int, j: int) {
    0 <= i < |all| && 0 <= j < |all| && all[i].ik.user == all[j].ik.user
  }

  lemma OneKeyFurther(all: seq<Entry>, p: nat, at: nat)
    requires Sorted(all) && OneKey(all, p, at) && !(all[p].ik.user < all[at].ik.user)
    ensures OneKey(all, p - 1, at)
  {
    SortedRises(all);
  }

  lemma NotShownBefore(all: seq<Entry>, snap: nat, p: int, at: nat)
    requires OneKey(all, p, at) && Shown(all, snap, at)
    ensures BackScan(all, snap, at, p, false, 0)
  {
    forall i | p + 1 <= i < at ensures !Shown(all, snap, i) {
      assert SameUser(all, i, at) && !Covers(all, snap, i, at);
    }
  }

  lemma SeekLands(all: seq<Entry>, snap: nat, target: UserKey, from: nat, at: nat)
    requires Sorted(all) && from == SeekIndex(all, LookupKey(target, snap)) && Lands(all, snap, from, at)
    ensures Rank(all, snap, at) <= |View(all, snap, |all|)|
    ensures forall i :: 0 <= i < Rank(all, snap, at) ==> View(all, snap, |all|)[i].ik.user < target
    ensures at < |all| ==> Rank(all, snap, at) < |View(all, snap, |all|)| && View(all, snap, |all|)[Rank(all, snap, at)].ik.user >= target
  {
    RankForward(all, snap, from, at);
    ViewPrefix(all, snap, from, |all|);
    var view := View(all, snap, |all|);
    forall i | 0 <= i < Rank(all, snap, at) ensures view[i].ik.user < target {
      assert view[i] == view[..Rank(all, snap, from)][i];
      assert view[i] in View(all, snap, from);
      InView(all, snap, from, view[i]);
      var k :| 0 <= k < from && Shown(all, snap, k) && all[k] == view[i];
      BeforeSeek(all, snap, target, k);
    }
    if at < |all| {
      ShownAtRank(all, snap, at);
      AfterSeek(all, snap, target, at);
    }
  }
}
