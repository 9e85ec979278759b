/** The merging iterator (table/merger.cc): one cursor over the union of several sorted runs. */
module Merger {
  import opened DbFormat

  datatype Direction = Forward | Reverse

  /** An iterator over one sorted run. A position outside the run makes it invalid; which end it
      fell off is not remembered. */
  datatype Cursor = Cursor(run: seq<Entry>, pos: nat) {
    predicate Valid() { pos < |run| }
    function Here(): Entry requires Valid() { run[pos] }
    function SeekToFirst(): Cursor { this.(pos := 0) }
    function SeekToLast(): Cursor { this.(pos := Back(run, |run|)) }
    function Seek(target: InternalKey): Cursor { this.(pos := SeekIndex(run, target)) }
    function Next(): Cursor { this.(pos := pos + 1) }
    function Prev(): Cursor { this.(pos := Back(run, pos)) }
  }

  /** The position before `n`, or an invalid one. */
  function Back(run: seq<Entry>, n: nat): nat {
    if n == 0 then |run| else n - 1
  }

  /** A sorted part of the merged sequence. */
  ghost predicate Part(run: seq<Entry>, all: seq<Entry>) {
    Sorted(run) && forall e :: e in run ==> e in all
  }

  ghost predicate Homed(e: Entry, runs: seq<seq<Entry>>) {
    exists i :: 0 <= i < |runs| && e in runs[i]
  }

  /** The merged sequence is sorted and holds the entries of the runs and no others. */
  ghost predicate Mixed(runs: seq<seq<Entry>>, all: seq<Entry>) {
    && Sorted(all)
    && (forall i {:trigger Part(runs[i], all)} :: 0 <= i < |runs| ==> Part(runs[i], all))
    && (forall e {:trigger Homed(e, runs)} :: e in all ==> Homed(e, runs))
  }

  ghost predicate Disjoint(a: seq<Entry>, b: seq<Entry>) {
    forall d, e :: d in a && e in b ==> d.ik != e.ik
  }

  /** No internal key occurs in two runs. */
  ghost predicate Distinct(runs: seq<seq<Entry>>) {
    forall i, j {:trigger Disjoint(runs[i], runs[j])} :: 0 <= i < |runs| && 0 <= j < |runs| && i != j ==> Disjoint(runs[i], runs[j])
  }

  /** Where a cursor over `run` stands when the entries before `q` of the merged sequence are
      behind it. */
  ghost function Cut(run: seq<Entry>, all: seq<Entry>, q: nat): (n: nat)
    ensures n <= |run|
  {
    if q < |all| then SeekIndex(run, all[q].ik) else |run|
  }

  lemma SeekIndexIs(s: seq<Entry>, target: InternalKey, n: nat)
    requires n <= |s|
    requires forall j :: 0 <= j < n ==> Less(s[j].ik, target)
    requires n < |s| ==> !Less(s[n].ik, target)
    ensures SeekIndex(s, target) == n
  {
  }

  /** Two entries in the same sorted sequence compare by key as they do by position. */
  lemma SameKey(s: seq<Entry>, i: nat, j: nat)
    requires Sorted(s) && i < |s| && j < |s| && !Less(s[i].ik, s[j].ik) && !Less(s[j].ik, s[i].ik)
    ensures i == j
  {
  }

  lemma CutHit(run: seq<Entry>, all: seq<Entry>, q: nat, j: nat)
    requires Sorted(run) && q < |all| && j < |run| && run[j] == all[q]
    ensures Cut(run, all, q) == j
  {
    SeekIndexIs(run, all[q].ik, j);
  }

  /** A run that holds entry `q` stands on it. */
  lemma CutPast(run: seq<Entry>, all: seq<Entry>, q: nat)
    requires Sorted(all) && Part(run, all) && q < |all|
    ensures all[q] in run ==> Cut(run, all, q) < |run| && run[Cut(run, all, q)] == all[q] && Cut(run, all, q + 1) == Cut(run, all, q) + 1
    ensures all[q] !in run ==> Cut(run, all, q + 1) == Cut(run, all, q)
  {
    var n := Cut(run, all, q);
    if all[q] in run {
      var j :| 0 <= j < |run| && run[j] == all[q];
      CutHit(run, all, q, j);
    }
    var m := if all[q] in run then n + 1 else n;
    if q + 1 < |all| {
      forall j | 0 <= j < m ensures Less(run[j].ik, all[q + 1].ik) {
        if j < n { LessTrans(run[j].ik, all[q].ik, all[q + 1].ik); }
      }
      if m < |run| {
        AtLeastNext(run, all, q, m);
      }
      SeekIndexIs(run, all[q + 1].ik, m);
    } else if m < |run| {
      AtLeastNext(run, all, q, m);
    }
  }

  lemma AtLeastNext(run: seq<Entry>, all: seq<Entry>, q: nat, m: nat)
    requires Sorted(all) && Part(run, all) && q < |all|
    requires m < |run| && !Less(run[m].ik, all[q].ik) && run[m] != all[q]
    ensures q + 1 < |all| && !Less(run[m].ik, all[q + 1].ik)
  {
    assert run[m] in run;
    var k :| 0 <= k < |all| && all[k] == run[m];
    assert k > q;
  }

  lemma CutSeek(run: seq<Entry>, all: seq<Entry>, target: InternalKey)
    requires Sorted(all) && Part(run, all)
    ensures Cut(run, all, SeekIndex(all, target)) == SeekIndex(run, target)
  {
    var q, n := SeekIndex(all, target), SeekIndex(run, target);
    if n < |run| {
      assert run[n] in run;
      var k :| 0 <= k < |all| && all[k] == run[n];
      assert k >= q;
    }
    if q < |all| {
      forall j | 0 <= j < n ensures Less(run[j].ik, all[q].ik) {
        LessPast(run[j].ik, target, all[q].ik);
      }
      SeekIndexIs(run, all[q].ik, n);
    }
  }

  lemma LessPast(a: InternalKey, b: InternalKey, c: InternalKey)
    requires Less(a, b) && !Less(c, b)
    ensures Less(a, c)
  {
  }

  lemma CutZero(run: seq<Entry>, all: seq<Entry>)
    requires Sorted(all) && Part(run, all)
    ensures Cut(run, all, 0) == 0
  {
    if run != [] {
      assert run[0] in run;
      var k :| 0 <= k < |all| && all[k] == run[0];
      SeekIndexIs(run, all[0].ik, 0);
    }
  }

  /** The merged sequence. */
  ghost function Union(runs: seq<seq<Entry>>): seq<Entry> {
    if runs == [] then [] else InsertAll(Union(runs[1..]), runs[0])
  }

  lemma {:induction false} UnionMixed(runs: seq<seq<Entry>>)
    requires Distinct(runs) && forall i :: 0 <= i < |runs| ==> Sorted(runs[i])
    ensures Mixed(runs, Union(runs))
  {
    if runs != [] {
      var first, more, all := runs[0], runs[1..], Union(runs);
      forall i, j | 0 <= i < |more| && 0 <= j < |more| && i != j ensures Disjoint(more[i], more[j]) {
        assert Disjoint(runs[i + 1], runs[j + 1]);
      }
      UnionMixed(more);
      forall d, e | d in Union(more) && e in first ensures d.ik != e.ik {
        assert Homed(d, more);
        var i :| 0 <= i < |more| && d in more[i];
        assert Disjoint(runs[i + 1], runs[0]);
      }
      InsertAllSorted(Union(more), first);
      forall e | e in all ensures Homed(e, runs) {
        if e in first { assert e in runs[0]; } else {
          assert Homed(e, more);
          var i :| 0 <= i < |more| && e in more[i];
          assert e in runs[i + 1];
        }
      }
      forall i | 0 <= i < |runs| ensures Part(runs[i], all) {
        if i > 0 { assert runs[i] == more[i - 1] && Part(more[i - 1], Union(more)); }
      }
    }
  }

  /** Every cursor stands at the cut: on its first entry not among the first `q`, or, going
      backward, on its last entry among them. */
  ghost predicate AtCut(children: seq<Cursor>, all: seq<Entry>, q: nat, d: Direction) {
    forall i :: 0 <= i < |children| ==> CursorAt(children[i], all, q, d)
  }

  ghost predicate CursorAt(c: Cursor, all: seq<Entry>, q: nat, d: Direction) {
    c.pos == if d.Forward? then Cut(c.run, all, q) else Back(c.run, Cut(c.run, all, q))
  }

  /** The children are cursors over the runs. */
  ghost predicate Over(children: seq<Cursor>, runs: seq<seq<Entry>>) {
    |children| == |runs| && forall i :: 0 <= i < |runs| ==> children[i].run == runs[i]
  }

  lemma RunsIn(runs: seq<seq<Entry>>, all: seq<Entry>, i: nat)
    requires Mixed(runs, all) && i < |runs|
    ensures Part(runs[i], all)
  {
  }

  /** Entry `q` of the merged sequence is in one run only. */
  lemma OnlyHome(runs: seq<seq<Entry>>, i: nat, j: nat, e: Entry)
    requires Distinct(runs) && i < |runs| && j < |runs| && i != j && e in runs[i]
    ensures e !in runs[j]
  {
    assert Disjoint(runs[i], runs[j]);
  }

  /** A cursor at the cut stands on entry `q`, when its run holds it, and never on an earlier one. */
  lemma ForwardFacts(c: Cursor, all: seq<Entry>, q: nat)
    requires Sorted(all) && Part(c.run, all)
    requires q <= |all| && CursorAt(c, all, q, Forward)
    ensures q < |all| && all[q] in c.run ==> c.Valid() && c.Here() == all[q]
    ensures c.Valid() ==> q < |all| && !Less(c.Here().ik, all[q].ik) && c.Here() in all
  {
    if q < |all| { CutPast(c.run, all, q); }
    if c.Valid() { assert c.Here() in c.run; }
  }

  lemma ReverseFacts(c: Cursor, all: seq<Entry>, q: nat)
    requires Sorted(all) && Part(c.run, all)
    requires q <= |all| && CursorAt(c, all, q, Reverse)
    ensures q > 0 && all[q - 1] in c.run ==> c.Valid() && c.Here() == all[q - 1]
    ensures c.Valid() ==> q > 0 && !Less(all[q - 1].ik, c.Here().ik) && c.Here() in all
  {
    if q > 0 { CutPast(c.run, all, q - 1); }
    if c.Valid() {
      assert c.Here() in c.run;
      var k :| 0 <= k < |all| && all[k] == c.Here();
      if q < |all| {
        assert Less(all[k].ik, all[q].ik);
        assert k < q;
      }
    }
  }

  /** Stepping the child that stands on entry `q`, and no other, moves the cut by one. */
  lemma CutStep(runs: seq<seq<Entry>>, all: seq<Entry>, q: nat, c: nat, i: nat)
    requires Mixed(runs, all) && Distinct(runs) && q < |all| && c < |runs| && i < |runs| && all[q] in runs[c]
    ensures Cut(runs[i], all, q + 1) == Cut(runs[i], all, q) + if i == c then 1 else 0
  {
    RunsIn(runs, all, i);
    CutPast(runs[i], all, q);
    if i != c { OnlyHome(runs, c, i, all[q]); }
  }

  /** A child re-positioned after the key, as Next does when it turns around. */
  function TurnedOn(c: Cursor, key: InternalKey): Cursor {
    var child := c.Seek(key);
    if child.Valid() && !Less(key, child.Here().ik) && !Less(child.Here().ik, key) then child.Next() else child
  }

  /** A child re-positioned before the key, as Prev does when it turns around. */
  function TurnedBack(c: Cursor, key: InternalKey): Cursor {
    var child := c.Seek(key);
    if child.Valid() then child.Prev() else child.SeekToLast()
  }

  ghost predicate Others(children: seq<Cursor>, all: seq<Entry>, q: nat, d: Direction, c: nat) {
    forall k :: 0 <= k < |children| && k != c ==> CursorAt(children[k], all, q, d)
  }

  lemma AfterIsCut(runs: seq<seq<Entry>>, all: seq<Entry>, q: nat, c: nat, i: nat, child: Cursor)
    requires Mixed(runs, all) && Distinct(runs) && q < |all| && c < |runs| && i < |runs| && i != c && all[q] in runs[c]
    requires child.run == runs[i]
    ensures CursorAt(TurnedOn(child, all[q].ik), all, q + 1, Forward)
  {
    CutStep(runs, all, q, c, i);
    var sought := child.Seek(all[q].ik);
    if sought.Valid() {
      assert sought.Here() in runs[i] && Disjoint(runs[c], runs[i]);
      assert all[q].ik != sought.Here().ik;
    }
  }

  lemma OthersAhead(runs: seq<seq<Entry>>, children: seq<Cursor>, all: seq<Entry>, q: nat, c: nat)
    requires Mixed(runs, all) && Distinct(runs) && Over(children, runs) && q < |all| && c < |runs| && all[q] in runs[c]
    requires AtCut(children, all, q, Forward)
    ensures Others(children, all, q + 1, Forward, c)
  {
    forall k | 0 <= k < |children| && k != c ensures CursorAt(children[k], all, q + 1, Forward) {
      CutStep(runs, all, q, c, k);
    }
  }

  lemma OthersBefore(runs: seq<seq<Entry>>, children: seq<Cursor>, all: seq<Entry>, q: nat, c: nat)
    requires Mixed(runs, all) && Distinct(runs) && Over(children, runs) && q < |all| && c < |runs| && all[q] in runs[c]
    requires AtCut(children, all, q + 1, Reverse)
    ensures Others(children, all, q, Reverse, c)
  {
    forall k | 0 <= k < |children| && k != c ensures CursorAt(children[k], all, q, Reverse) {
      CutStep(runs, all, q, c, k);
    }
  }

  lemma NextIsCut(runs: seq<seq<Entry>>, children: seq<Cursor>, all: seq<Entry>, q: nat, c: nat)
    requires Mixed(runs, all) && Distinct(runs) && Over(children, runs) && q < |all| && c < |runs|
    requires Others(children, all, q + 1, Forward, c) && children[c].Valid() && children[c].Here() == all[q]
    ensures AtCut(children[c := children[c].Next()], all, q + 1, Forward)
  {
    RunsIn(runs, all, c);
    CutHit(runs[c], all, q, children[c].pos);
    CutStep(runs, all, q, c, c);
  }

  lemma PrevIsCut(runs: seq<seq<Entry>>, children: seq<Cursor>, all: seq<Entry>, q: nat, c: nat)
    requires Mixed(runs, all) && Over(children, runs) && q < |all| && c < |runs|
    requires Others(children, all, q, Reverse, c) && children[c].Valid() && children[c].Here() == all[q]
    ensures AtCut(children[c := children[c].Prev()], all, q, Reverse)
  {
    RunsIn(runs, all, c);
    CutHit(runs[c], all, q, children[c].pos);
  }

  /** MergingIterator: a cursor at position `at` of the merged sequence `all`. */
  class MergingIterator {
    var children: seq<Cursor>
    var current: Option<nat>
    var direction: Direction
    ghost const runs: seq<seq<Entry>>
    ghost const all: seq<Entry>
    ghost var at: nat

    ghost predicate Shape()
      reads this
    {
      Mixed(runs, all) && Distinct(runs) && Over(children, runs)
    }

    /** The current child stands on entry `at`; the others stand strictly behind it when moving
        forward and strictly before it when moving backward. */
    ghost predicate Valid()
      reads this
    {
      && Shape() && Found()
      && (current.Some? ==> AtCut(children, all, if direction.Forward? then at else at + 1, direction))
    }

    ghost predicate Found()
      reads this
    {
      && at <= |all|
      && (current.None? <==> at == |all|)
      && (current.Some? ==>
            && current.value < |children| && children[current.value].Valid()
            && children[current.value].Here() == all[at])
    }

    constructor (runs: seq<seq<Entry>>)
      requires Distinct(runs) && forall i :: 0 <= i < |runs| ==> Sorted(runs[i])
      ensures Valid() && this.runs == runs && all == Union(runs) && at == |all|
    {
      children := seq(|runs|, i requires 0 <= i < |runs| => Cursor(runs[i], |runs[i]|));
      current, direction := None, Forward;
      this.runs, this.all, this.at := runs, Union(runs), |Union(runs)|;
      new;
      UnionMixed(runs);
    }

    function Current(): (e: Entry)
      requires Valid() && current.Some?
      reads this
      ensures at < |all| && e == all[at]
    {
      children[current.value].Here()
    }

    method SeekToFirst()
      requires Valid()
      modifies this
      ensures Valid() && at == 0
    {
      var i := 0;
      while i < |children|
        invariant Shape() && 0 <= i <= |children|
        invariant forall k :: 0 <= k < i ==> CursorAt(children[k], all, 0, Forward)
      {
        RunsIn(runs, all, i);
        CutZero(runs[i], all);
        children := children[i := children[i].SeekToFirst()];
        i := i + 1;
      }
      FindSmallest(0);
      direction := Forward;
    }

    method SeekToLast()
      requires Valid()
      modifies this
      ensures Valid() && at == Back(all, |all|)
    {
      var i := 0;
      while i < |children|
        invariant Shape() && 0 <= i <= |children|
        invariant forall k :: 0 <= k < i ==> CursorAt(children[k], all, |all|, Reverse)
      {
        children := children[i := children[i].SeekToLast()];
        i := i + 1;
      }
      FindLargest(|all|);
      direction := Reverse;
    }

    method Seek(target: InternalKey)
      requires Valid()
      modifies this
      ensures Valid() && at == SeekIndex(all, target)
    {
      ghost var q := SeekIndex(all, target);
      var i := 0;
      while i < |children|
        invariant Shape() && 0 <= i <= |children|
        invariant forall k :: 0 <= k < i ==> CursorAt(children[k], all, q, Forward)
      {
        RunsIn(runs, all, i);
        CutSeek(runs[i], all, target);
        children := children[i := children[i].Seek(target)];
        i := i + 1;
      }
      FindSmallest(q);
      direction := Forward;
    }

    /** Puts every child but the current one on its first entry after the current key. */
    method TurnForward(c: nat, key: InternalKey)
      requires Shape() && at < |all| && c < |children| && all[at] in runs[c] && key == all[at].ik
      modifies this`children
      ensures Shape() && Others(children, all, at + 1, Forward, c) && children[c] == old(children[c])
    {
      var i := 0;
      while i < |children|
        invariant Shape() && 0 <= i <= |children| && children[c] == old(children[c])
        invariant forall k :: 0 <= k < i && k != c ==> CursorAt(children[k], all, at + 1, Forward)
      {
        if i != c {
          AfterIsCut(runs, all, at, c, i, children[i]);
          children := children[i := TurnedOn(children[i], key)];
        }
        i := i + 1;
      }
    }

    /** Puts every child but the current one on its last entry before the current key. */
    method TurnReverse(c: nat, key: InternalKey)
      requires Shape() && at < |all| && c < |children| && key == all[at].ik
      modifies this`children
      ensures Shape() && Others(children, all, at, Reverse, c) && children[c] == old(children[c])
    {
      var i := 0;
      while i < |children|
        invariant Shape() && 0 <= i <= |children| && children[c] == old(children[c])
        invariant forall k :: 0 <= k < i && k != c ==> CursorAt(children[k], all, at, Reverse)
      {
        if i != c {
          children := children[i := TurnedBack(children[i], key)];
        }
        i := i + 1;
      }
    }

    method FaceForward(c: nat)
      requires Valid() && current == Some(c)
      modifies this`children, this`direction
      ensures Shape() && Others(children, all, at + 1, Forward, c) && children[c] == old(children[c]) && direction == Forward
    {
      assert children[c].Here() in runs[c];
      if direction != Forward {
        TurnForward(c, Current().ik);
        direction := Forward;
      } else {
        OthersAhead(runs, children, all, at, c);
      }
    }

    method FaceReverse(c: nat)
      requires Valid() && current == Some(c)
      modifies this`children, this`direction
      ensures Shape() && Others(children, all, at, Reverse, c) && children[c] == old(children[c]) && direction == Reverse
    {
      assert children[c].Here() in runs[c];
      if direction != Reverse {
        TurnReverse(c, Current().ik);
        direction := Reverse;
      } else {
        OthersBefore(runs, children, all, at, c);
      }
    }

    method StepNext(c: nat)
      requires Shape() && at < |all| && c < |children| && children[c].Valid() && children[c].Here() == all[at]
      requires Others(children, all, at + 1, Forward, c)
      modifies this`children
      ensures Shape() && AtCut(children, all, at + 1, Forward)
    {
      NextIsCut(runs, children, all, at, c);
      children := children[c := children[c].Next()];
    }

    method StepPrev(c: nat)
      requires Shape() && at < |all| && c < |children| && children[c].Valid() && children[c].Here() == all[at]
      requires Others(children, all, at, Reverse, c)
      modifies this`children
      ensures Shape() && AtCut(children, all, at, Reverse)
    {
      PrevIsCut(runs, children, all, at, c);
      children := children[c := children[c].Prev()];
    }

    /** Turns the children around if need be, and moves the current one on. */
    method GoOn()
      requires Valid() && current.Some?
      modifies this`children, this`direction
      ensures Shape() && at < |all| && AtCut(children, all, at + 1, Forward) && direction == Forward
    {
      var c := current.value;
      FaceForward(c);
      StepNext(c);
    }

    method Next()
      requires Valid() && current.Some?
      modifies this
      ensures Valid() && at == old(at) + 1
    {
      GoOn();
      FindSmallest(at + 1);
    }

    /** Turns the children around if need be, and moves the current one back. */
    method BackUp()
      requires Valid() && current.Some?
      modifies this`children, this`direction
      ensures Shape() && AtCut(children, all, at, Reverse) && direction == Reverse
    {
      var c := current.value;
      FaceReverse(c);
      StepPrev(c);
    }

    method Prev()
      requires Valid() && current.Some?
      modifies this
      ensures Valid() && at == Back(all, old(at))
    {
      BackUp();
      FindLargest(at);
    }

    method FindSmallest(ghost q: nat)
      requires Shape() && q <= |all| && AtCut(children, all, q, Forward)
      modifies this`current, this`at
      ensures Found() && at == q
    {
      var smallest: Option<nat>, i: nat := None, 0;
      while i < |children|
        invariant 0 <= i <= |children|
        invariant smallest.Some? ==> smallest.value < i && children[smallest.value].Valid()
        invariant forall k :: 0 <= k < i && children[k].Valid() ==>
                    smallest.Some? && !Less(children[k].Here().ik, children[smallest.value].Here().ik)
      {
        if children[i].Valid() {
          if smallest.None? || Less(children[i].Here().ik, children[smallest.value].Here().ik) {
            smallest := Some(i);
          }
        }
        i := i + 1;
      }
      SmallestIs(runs, children, all, q, smallest);
      current, at := smallest, q;
    }

    method FindLargest(ghost q: nat)
      requires Shape() && q <= |all| && AtCut(children, all, q, Reverse)
      modifies this`current, this`at
      ensures Found() && at == Back(all, q)
    {
      var largest: Option<nat>, i: nat := None, |children|;
      while i > 0
        invariant 0 <= i <= |children|
        invariant largest.Some? ==> i <= largest.value < |children| && children[largest.value].Valid()
        invariant forall k :: i <= k < |children| && children[k].Valid() ==>
                    largest.Some? && !Less(children[largest.value].Here().ik, children[k].Here().ik)
      {
        i := i - 1;
        if children[i].Valid() {
          if largest.None? || Less(children[largest.value].Here().ik, children[i].Here().ik) {
            largest := Some(i);
          }
        }
      }
      LargestIs(runs, children, all, q, largest);
      current, at := largest, Back(all, q);
    }
  }

  lemma SmallestIs(runs: seq<seq<Entry>>, children: seq<Cursor>, all: seq<Entry>, q: nat, c: Option<nat>)
    requires Mixed(runs, all) && Over(children, runs) && q <= |all| && AtCut(children, all, q, Forward)
    requires c.Some? ==> c.value < |children| && children[c.value].Valid()
    requires forall k :: 0 <= k < |children| && children[k].Valid() ==>
               c.Some? && !Less(children[k].Here().ik, children[c.value].Here().ik)
    ensures c.None? <==> q == |all|
    ensures c.Some? ==> children[c.value].Here() == all[q]
  {
    if c.Some? {
      RunsIn(runs, all, c.value);
      ForwardFacts(children[c.value], all, q);
    }
    if q < |all| {
      assert all[q] in all && Homed(all[q], runs);
      var i :| 0 <= i < |runs| && all[q] in runs[i];
      RunsIn(runs, all, i);
      ForwardFacts(children[i], all, q);
      var k :| 0 <= k < |all| && all[k] == children[c.value].Here();
      SameKey(all, q, k);
    }
  }

  lemma LargestIs(runs: seq<seq<Entry>>, children: seq<Cursor>, all: seq<Entry>, q: nat, c: Option<nat>)
    requires Mixed(runs, all) && Over(children, runs) && q <= |all| && AtCut(children, all, q, Reverse)
    requires c.Some? ==> c.value < |children| && children[c.value].Valid()
    requires forall k :: 0 <= k < |children| && children[k].Valid() ==>
               c.Some? && !Less(children[c.value].Here().ik, children[k].Here().ik)
    ensures c.None? <==> q == 0
    ensures c.Some? ==> children[c.value].Here() == all[q - 1]
  {
    if c.Some? {
      RunsIn(runs, all, c.value);
      ReverseFacts(children[c.value], all, q);
    }
    if q > 0 {
      assert all[q - 1] in all && Homed(all[q - 1], runs);
      var i :| 0 <= i < |runs| && all[q - 1] in runs[i];
      RunsIn(runs, all, i);
      ReverseFacts(children[i], all, q);
      var k :| 0 <= k < |all| && all[k] == children[c.value].Here();
      SameKey(all, q - 1, k);
    }
  }
}
