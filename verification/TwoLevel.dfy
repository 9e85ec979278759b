/** The two-level iterator (table/two_level_iterator.cc): an index over blocks of entries, and a cursor
    in the block the index stands on. It behaves as one cursor over the blocks end to end. */
module TwoLevel {
  import opened Compaction
  import opened DbFormat
  import opened Iteration
  import opened Merger
  import opened Version

  /** How many entries come before block `i`. */
  ghost function Start(blocks: seq<seq<Entry>>, i: nat): nat
    requires i <= |blocks|
  {
    |Flatten(blocks[..i])|
  }

  lemma StartStep(blocks: seq<seq<Entry>>, i: nat)
    requires i < |blocks|
    ensures Start(blocks, i + 1) == Start(blocks, i) + |blocks[i]|
  {
    assert blocks[..i + 1][..i] == blocks[..i];
  }

  lemma {:induction false} StartGrows(blocks: seq<seq<Entry>>, i: nat, j: nat)
    requires i <= j <= |blocks|
    ensures Start(blocks, i) <= Start(blocks, j)
  {
    if i < j {
      StartGrows(blocks, i, j - 1);
      StartStep(blocks, j - 1);
    }
  }

  lemma StartEnds(blocks: seq<seq<Entry>>)
    ensures Start(blocks, 0) == 0 && Start(blocks, |blocks|) == |Flatten(blocks)|
  {
    assert blocks[..|blocks|] == blocks;
  }

  /** Where the entries of a block are among all. */
  lemma {:induction false} FlatAt(blocks: seq<seq<Entry>>, i: nat, k: nat)
    requires i < |blocks| && k < |blocks[i]|
    ensures Start(blocks, i) + k < |Flatten(blocks)| && Flatten(blocks)[Start(blocks, i) + k] == blocks[i][k]
    decreases |blocks|
  {
    var front := blocks[..|blocks| - 1];
    if i < |front| {
      FlatAt(front, i, k);
      assert front[..i] == blocks[..i];
    } else {
      assert blocks[..i] == front;
    }
  }

  /** Which block holds the entry at a position. */
  lemma {:induction false} BlockOf(blocks: seq<seq<Entry>>, p: nat) returns (i: nat, k: nat)
    requires p < |Flatten(blocks)|
    ensures i < |blocks| && k < |blocks[i]| && p == Start(blocks, i) + k && Flatten(blocks)[p] == blocks[i][k]
  {
    var front := blocks[..|blocks| - 1];
    if p < |Flatten(front)| {
      i, k := BlockOf(front, p);
      assert front[..i] == blocks[..i];
    } else {
      i, k := |blocks| - 1, p - |Flatten(front)|;
    }
  }

  /** The index keys separate the blocks: none is below its block or reaches the next. */
  ghost predicate Indexed(blocks: seq<seq<Entry>>, keys: seq<InternalKey>) {
    && |keys| == |blocks|
    && (forall i, e {:trigger e in blocks[i]} :: 0 <= i < |blocks| && e in blocks[i] ==> !Less(keys[i], e.ik))
    && (forall i, j, e {:trigger keys[i], e in blocks[j]} :: 0 <= i < j < |blocks| && e in blocks[j] ==> Less(keys[i], e.ik))
  }

  function SeekKey(keys: seq<InternalKey>, target: InternalKey): (i: nat)
    ensures i <= |keys|
    ensures forall j :: 0 <= j < i ==> Less(keys[j], target)
    ensures i < |keys| ==> !Less(keys[i], target)
  {
    if keys == [] || !Less(keys[0], target) then 0
    else
      var r := SeekKey(keys[1..], target);
      assert forall j :: 1 <= j < r + 1 ==> keys[j] == keys[1..][j - 1];
      r + 1
  }

  class TwoLevelIterator {
    const blocks: seq<seq<Entry>>
    const keys: seq<InternalKey>
    var index: nat                // past the blocks when the index iterator is not valid
    var data: Option<Cursor>
    var dataBlock: nat            // the block that data iterates over

    ghost predicate InSync()
      reads this
    {
      && Sorted(Flatten(blocks)) && Indexed(blocks, keys)
      && (data.Some? ==> dataBlock < |blocks| && data.value.run == blocks[dataBlock])
      && (OnEntry() ==> dataBlock == index)
    }

    predicate OnEntry()
      reads this
    {
      data.Some? && data.value.Valid()
    }

    /** The position among all entries, at their end when there is no current entry. */
    ghost function Pos(): nat
      requires InSync()
      reads this
    {
      if OnEntry() then Start(blocks, index) + data.value.pos else |Flatten(blocks)|
    }

    constructor (blocks: seq<seq<Entry>>, keys: seq<InternalKey>)
      requires Sorted(Flatten(blocks)) && Indexed(blocks, keys)
      ensures InSync() && this.blocks == blocks && this.keys == keys && !OnEntry()
    {
      this.blocks, this.keys := blocks, keys;
      index, data, dataBlock := |blocks|, None, 0;
    }

    /** The current entry is the one at the position. */
    lemma HereIsThere()
      requires InSync()
      ensures OnEntry() <==> Pos() < |Flatten(blocks)|
      ensures OnEntry() ==> data.value.Here() == Flatten(blocks)[Pos()]
    {
      if OnEntry() { FlatAt(blocks, index, data.value.pos); }
    }

    /** InitDataBlock: the cursor of the block is made anew, unless it is there already. */
    method InitDataBlock()
      requires InSync()
      modifies this`data, this`dataBlock
      ensures if index < |blocks| then data.Some? && dataBlock == index && data.value.run == blocks[index] else data.None?
    {
      if index >= |blocks| {
        data := None;
      } else if data.None? || dataBlock != index {
        data, dataBlock := Some(Cursor(blocks[index], |blocks[index]|)), index;
      }
    }

    /** Going forward: on an entry at `g`, or with everything before `g` behind. */
    ghost predicate Ahead(g: nat)
      requires InSync()
      reads this
    {
      if OnEntry() then g == Start(blocks, index) + data.value.pos
      else if index < |blocks| then g == Start(blocks, index + 1)
      else g == |Flatten(blocks)|
    }

    /** Going backward: on an entry at `g`, or just after it. */
    ghost predicate Behind(g: nat)
      requires InSync()
      reads this
    {
      if OnEntry() then g == Start(blocks, index) + data.value.pos
      else if index < |blocks| then g == Back(Flatten(blocks), Start(blocks, index))
      else g == |Flatten(blocks)|
    }

    method SkipEmptyDataBlocksForward(ghost g: nat)
      requires InSync() && Ahead(g)
      modifies this
      ensures InSync() && Pos() == g
    {
      while !OnEntry()
        invariant InSync() && Ahead(g)
        decreases |blocks| - index
      {
        if index >= |blocks| {
          data := None;
          return;
        }
        index := index + 1;
        StartEnds(blocks);
        InitDataBlock();
        if data.Some? {
          data := Some(data.value.SeekToFirst());
          StartStep(blocks, index);
        }
      }
    }

    method SkipEmptyDataBlocksBackward(ghost g: nat)
      requires InSync() && Behind(g)
      modifies this
      ensures InSync() && Pos() == g
    {
      while !OnEntry()
        invariant InSync() && Behind(g)
        decreases if index < |blocks| then index + 1 else 0
      {
        if index >= |blocks| {
          data := None;
          return;
        }
        StartEnds(blocks);
        if index == 0 {
          index := |blocks|;
        } else {
          index := index - 1;
          StartStep(blocks, index);
        }
        InitDataBlock();
        if data.Some? {
          data := Some(data.value.SeekToLast());
        }
      }
    }

    method SeekToFirst()
      requires InSync()
      modifies this
      ensures InSync() && Pos() == 0
    {
      data := None;
      index := 0;
      StartEnds(blocks);
      InitDataBlock();
      if data.Some? {
        data := Some(data.value.SeekToFirst());
        StartStep(blocks, 0);
      }
      SkipEmptyDataBlocksForward(0);
    }

    method SeekToLast()
      requires InSync()
      modifies this
      ensures InSync() && Pos() == Back(Flatten(blocks), |Flatten(blocks)|)
    {
      data := None;
      index := if |blocks| == 0 then 0 else |blocks| - 1;
      StartEnds(blocks);
      InitDataBlock();
      if data.Some? {
        data := Some(data.value.SeekToLast());
        StartStep(blocks, index);
      }
      SkipEmptyDataBlocksBackward(Back(Flatten(blocks), |Flatten(blocks)|));
    }

    method Seek(target: InternalKey)
      requires InSync()
      modifies this
      ensures InSync() && Pos() == SeekIndex(Flatten(blocks), target)
    {
      data := None;
      index := SeekKey(keys, target);
      InitDataBlock();
      if data.Some? {
        data := Some(data.value.Seek(target));
      }
      SeekLands(blocks, keys, target);
      SkipEmptyDataBlocksForward(SeekIndex(Flatten(blocks), target));
    }

    method Next()
      requires InSync() && OnEntry()
      modifies this
      ensures InSync() && Pos() == old(Pos()) + 1
    {
      ghost var g := Pos() + 1;
      StartStep(blocks, index);
      data := Some(data.value.Next());
      SkipEmptyDataBlocksForward(g);
    }

    method Prev()
      requires InSync() && OnEntry()
      modifies this
      ensures InSync() && Pos() == Back(Flatten(blocks), old(Pos()))
    {
      ghost var g := Back(Flatten(blocks), Pos());
      data := Some(data.value.Prev());
      SkipEmptyDataBlocksBackward(g);
    }
  }

  lemma LessSide(e: InternalKey, k: InternalKey, target: InternalKey)
    ensures !Less(k, e) && Less(k, target) ==> Less(e, target)
    ensures Less(k, e) && !Less(k, target) ==> !Less(e, target)
  {
  }

  /** A block of a sorted sequence is sorted. */
  lemma BlockSorted(blocks: seq<seq<Entry>>, i: nat)
    requires Sorted(Flatten(blocks)) && i < |blocks|
    ensures Sorted(blocks[i])
  {
    forall m, n | 0 <= m < n < |blocks[i]| ensures Less(blocks[i][m].ik, blocks[i][n].ik) {
      FlatAt(blocks, i, m);
      FlatAt(blocks, i, n);
    }
  }

  lemma InBlockSide(run: seq<Entry>, target: InternalKey, m: nat)
    requires Sorted(run) && m < |run|
    ensures Less(run[m].ik, target) <==> m < SeekIndex(run, target)
  {
    var k := SeekIndex(run, target);
    if k < m { LessSide(target, run[k].ik, run[m].ik); }
  }

  /** Entries up to a place in the block that the index leads to are below the target, all others not. */
  lemma SideOfTarget(blocks: seq<seq<Entry>>, keys: seq<InternalKey>, target: InternalKey, j: nat, m: nat)
    requires Sorted(Flatten(blocks)) && Indexed(blocks, keys) && j < |blocks| && m < |blocks[j]|
    ensures var i := SeekKey(keys, target);
      Less(blocks[j][m].ik, target) <==> j < i || (j == i && m < SeekIndex(blocks[i], target))
  {
    var e, i := blocks[j][m], SeekKey(keys, target);
    assert e in blocks[j];
    if j < i {
      LessSide(e.ik, keys[j], target);
    } else if j == i {
      BlockSorted(blocks, i);
      InBlockSide(blocks[i], target, m);
    } else {
      assert Less(keys[i], e.ik);
      LessSide(e.ik, keys[i], target);
    }
  }

  /** The entry before which a search for the target stops, given the block the index leads to. */
  ghost function Landing(blocks: seq<seq<Entry>>, i: nat, target: InternalKey): nat
    requires i <= |blocks|
  {
    if i == |blocks| then |Flatten(blocks)|
    else if SeekIndex(blocks[i], target) < |blocks[i]| then Start(blocks, i) + SeekIndex(blocks[i], target)
    else Start(blocks, i + 1)
  }

  lemma PositionSide(blocks: seq<seq<Entry>>, i: nat, target: InternalKey, j: nat, m: nat)
    requires i <= |blocks| && j < |blocks| && m < |blocks[j]|
    ensures Start(blocks, j) + m < Landing(blocks, i, target) <==> j < i || (j == i && m < SeekIndex(blocks[i], target))
  {
    StartStep(blocks, j);
    StartEnds(blocks);
    if j < i {
      StartGrows(blocks, j + 1, i);
      if i < |blocks| { StartStep(blocks, i); }
    } else {
      StartStep(blocks, i);
      if i < j { StartGrows(blocks, i + 1, j); }
    }
  }

  /** The block the index leads to holds the first entry at or after the target, or the entries
      before it end there. */
  lemma SeekLands(blocks: seq<seq<Entry>>, keys: seq<InternalKey>, target: InternalKey)
    requires Sorted(Flatten(blocks)) && Indexed(blocks, keys)
    ensures SeekIndex(Flatten(blocks), target) == Landing(blocks, SeekKey(keys, target), target)
  {
    var all, i := Flatten(blocks), SeekKey(keys, target);
    var n := Landing(blocks, i, target);
    LandingInside(blocks, i, target);
    forall p | 0 <= p < |all| ensures Less(all[p].ik, target) <==> p < n {
      var j, m := BlockOf(blocks, p);
      SideOfTarget(blocks, keys, target, j, m);
      PositionSide(blocks, i, target, j, m);
    }
    SeekIndexIs(all, target, n);
  }

  lemma LandingInside(blocks: seq<seq<Entry>>, i: nat, target: InternalKey)
    requires i <= |blocks|
    ensures Landing(blocks, i, target) <= |Flatten(blocks)|
  {
    StartEnds(blocks);
    if i < |blocks| {
      StartStep(blocks, i);
      StartGrows(blocks, i + 1, |blocks|);
    }
  }

  // ---------- the iterator of a deeper level ----------

  function FileRunsOf(files: Level): (r: seq<seq<Entry>>)
    ensures |r| == |files|
  {
    seq(|files|, i requires 0 <= i < |files| => files[i].entries)
  }

  function LargestKeys(files: Level): (r: seq<InternalKey>)
    ensures |r| == |files|
  {
    seq(|files|, i requires 0 <= i < |files| => Largest(files[i]))
  }

  lemma {:induction false} FlattenCons(first: seq<Entry>, rest: seq<seq<Entry>>)
    ensures Flatten([first] + rest) == first + Flatten(rest)
  {
    var all := [first] + rest;
    if rest == [] {
      assert all[..0] == [];
    } else {
      var front := rest[..|rest| - 1];
      assert all[..|all| - 1] == [first] + front;
      FlattenCons(first, front);
      assert first + (Flatten(front) + rest[|rest| - 1]) == first + Flatten(front) + rest[|rest| - 1];
    }
  }

  lemma {:induction false} LevelRunIsFlat(files: Level)
    ensures Flatten(FileRunsOf(files)) == LevelRun(files)
  {
    if files != [] {
      assert FileRunsOf(files) == [files[0].entries] + FileRunsOf(files[1..]);
      FlattenCons(files[0].entries, FileRunsOf(files[1..]));
      LevelRunIsFlat(files[1..]);
    }
  }

  /** NewConcatenatingIterator: over the files of a deeper level, indexed by their largest keys, the
      iterator moves as a cursor over the level end to end. */
  method NewConcatenatingIterator(files: Level) returns (it: TwoLevelIterator)
    requires Ordered(files) && Apart(files)
    ensures fresh(it) && it.InSync() && Flatten(it.blocks) == LevelRun(files) && !it.OnEntry()
  {
    LevelRunIsFlat(files);
    LevelRunSorted(files);
    LevelIsIndexed(files);
    it := new TwoLevelIterator(FileRunsOf(files), LargestKeys(files));
  }

  lemma LevelIsIndexed(files: Level)
    requires Ordered(files) && Apart(files)
    ensures Indexed(FileRunsOf(files), LargestKeys(files))
  {
    forall i, e | 0 <= i < |files| && e in files[i].entries ensures !Less(Largest(files[i]), e.ik) {
      Bounds(files[i], e);
    }
    forall i, j, e | 0 <= i < j < |files| && e in files[j].entries ensures Less(Largest(files[i]), e.ik) {
      LevelBefore(files, i, j);
      Bounds(files[j], e);
    }
  }
}
