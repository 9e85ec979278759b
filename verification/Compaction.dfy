/** The work of a compaction: which entries survive (DoCompactionWork and
    Compaction::IsBaseLevelForKey), and what that means for readers. */
module Compaction {
  import opened DbFormat
  import opened Mvcc
  import opened Version

  // ---------- the drop rules ----------

  /** No level below the output level can hold the user key. */
  ghost predicate IsBase(v: Version, level: nat, user: UserKey) {
    forall l, f {:trigger f in v[l]} :: level + 2 <= l < |v| && f in v[l] ==> !Overlaps(f, Some(user), Some(user))
  }

  /** Rule (A): a newer version of the key is itself at or below every snapshot. */
  ghost predicate Hidden(inputs: set<Entry>, smallest: nat, e: Entry) {
    exists d :: d in inputs && d.ik.user == e.ik.user && e.ik.num < d.ik.num <= smallest
  }

  /** Rule (B): a deletion marker below every snapshot with nothing underneath. */
  ghost predicate Obsolete(v: Version, level: nat, smallest: nat, e: Entry) {
    e.ik.kind.Deletion? && e.ik.num <= smallest && IsBase(v, level, e.ik.user)
  }

  /** What rule (A) drops is exactly what no reader at or above the smallest snapshot can see. */
  lemma HiddenIsUnseen(inputs: set<Entry>, smallest: nat, e: Entry)
    requires e in inputs && Functional(inputs)
    ensures Hidden(inputs, smallest, e) <==> forall snap :: snap >= smallest ==> !Newest(inputs, e.ik.user, snap, e)
  {
    if Hidden(inputs, smallest, e) {
      var d :| d in inputs && d.ik.user == e.ik.user && e.ik.num < d.ik.num <= smallest;
      forall snap | snap >= smallest ensures !Newest(inputs, e.ik.user, snap, e) {
        assert Visible(inputs, e.ik.user, snap, d);
      }
    } else {
      var snap := if e.ik.num > smallest then e.ik.num else smallest;
      assert Newest(inputs, e.ik.user, snap, e);
    }
  }

  ghost predicate Survives(inputs: set<Entry>, v: Version, level: nat, smallest: nat, e: Entry) {
    e in inputs && !Hidden(inputs, smallest, e) && !Obsolete(v, level, smallest, e)
  }

  /** `store` after the inputs were replaced by what survives of them. */
  ghost function Compacted(store: set<Entry>, inputs: set<Entry>, v: Version, level: nat, smallest: nat): set<Entry> {
    set e | e in store && (e in inputs ==> Survives(inputs, v, level, smallest, e))
  }

  // ---------- what readers see ----------

  /** The newest version of the key at the smallest snapshot is a marker that rule (B) drops,
      while an older value of the key stays behind outside the inputs. */
  ghost predicate Resurrects(store: set<Entry>, inputs: set<Entry>, v: Version, level: nat, smallest: nat, user: UserKey) {
    exists t, x ::
      && Newest(store, user, smallest, t) && t in inputs && Obsolete(v, level, smallest, t)
      && Newest(store - inputs, user, t.ik.num, x) && x.ik.kind.Put?
  }

  lemma DroppedOlder(store: set<Entry>, inputs: set<Entry>, v: Version, level: nat, smallest: nat,
                     user: UserKey, snap: nat, t: Entry, e: Entry)
    requires inputs <= store && Functional(store) && snap >= smallest
    requires Newest(store, user, snap, t) && t in inputs && t.ik.num <= smallest
    requires !Survives(inputs, v, level, smallest, t)
    requires Visible(Compacted(store, inputs, v, level, smallest), user, snap, e)
    ensures Visible(store - inputs, user, t.ik.num, e)
  {
    assert Visible(store, user, snap, e);
    assert e in inputs && e != t ==> Hidden(inputs, smallest, e);
  }

  /** A dropped newest entry can only have fallen to rule (B). */
  lemma NewestDroppedIsObsolete(store: set<Entry>, inputs: set<Entry>, v: Version, level: nat, smallest: nat,
                                user: UserKey, snap: nat, t: Entry)
    requires inputs <= store && snap >= smallest
    requires Newest(store, user, snap, t) && t in inputs && !Survives(inputs, v, level, smallest, t)
    ensures Obsolete(v, level, smallest, t) && Newest(store, user, smallest, t)
  {
    forall d | d in inputs && d.ik.user == user && d.ik.num <= smallest ensures d.ik.num <= t.ik.num {
      assert Visible(store, user, snap, d);
    }
    assert !Hidden(inputs, smallest, t);
    forall d | Visible(store, user, smallest, d) ensures d.ik.num <= t.ik.num {
      assert Visible(store, user, snap, d);
    }
  }

  lemma ReadAfter(store: set<Entry>, inputs: set<Entry>, v: Version, level: nat, smallest: nat, user: UserKey, snap: nat)
    requires inputs <= store && Functional(store) && snap >= smallest
    requires !Resurrects(store, inputs, v, level, smallest, user)
    ensures Read(store, user, snap) == Read(Compacted(store, inputs, v, level, smallest), user, snap)
  {
    var after := Compacted(store, inputs, v, level, smallest);
    if e :| Visible(store, user, snap, e) {
      var t := NewestExists(store, user, snap, e);
      ReadNewest(store, user, snap, t);
      if t in after {
        assert Visible(after, user, snap, t);
        forall d | Visible(after, user, snap, d) ensures d.ik.num <= t.ik.num {
          assert Visible(store, user, snap, d);
        }
        ReadNewest(after, user, snap, t);
      } else {
        NewestDroppedIsObsolete(store, inputs, v, level, smallest, user, snap, t);
        ReadAfterDrop(store, inputs, v, level, smallest, user, snap, t);
      }
    } else {
      assert forall e :: !Visible(after, user, snap, e) by {
        forall e | Visible(after, user, snap, e) ensures false { assert Visible(store, user, snap, e); }
      }
      ReadNothing(store, user, snap);
      ReadNothing(after, user, snap);
    }
  }

  /** Once the newest marker is gone, readers see what is left below it outside the inputs. */
  lemma ReadAfterDrop(store: set<Entry>, inputs: set<Entry>, v: Version, level: nat, smallest: nat,
                      user: UserKey, snap: nat, t: Entry)
    requires inputs <= store && Functional(store) && snap >= smallest
    requires Newest(store, user, snap, t) && t in inputs && Obsolete(v, level, smallest, t)
    requires Newest(store, user, smallest, t)
    ensures Read(Compacted(store, inputs, v, level, smallest), user, snap) == None
            <==> !Resurrects(store, inputs, v, level, smallest, user)
  {
    var after := Compacted(store, inputs, v, level, smallest);
    forall e | Visible(after, user, snap, e) ensures Visible(store - inputs, user, t.ik.num, e) {
      DroppedOlder(store, inputs, v, level, smallest, user, snap, t, e);
    }
    forall e | Visible(store - inputs, user, t.ik.num, e) ensures Visible(after, user, snap, e) {
    }
    if e :| Visible(after, user, snap, e) {
      var x := NewestExists(store - inputs, user, t.ik.num, e);
      assert Newest(after, user, snap, x);
      ReadNewest(after, user, snap, x);
      OnlyResurrection(store, inputs, v, level, smallest, user, t, x);
    } else {
      ReadNothing(after, user, snap);
    }
  }

  lemma OnlyResurrection(store: set<Entry>, inputs: set<Entry>, v: Version, level: nat, smallest: nat,
                         user: UserKey, t: Entry, x: Entry)
    requires inputs <= store && Functional(store)
    requires Newest(store, user, smallest, t) && t in inputs && Obsolete(v, level, smallest, t)
    requires Newest(store - inputs, user, t.ik.num, x)
    ensures Resurrects(store, inputs, v, level, smallest, user) <==> x.ik.kind.Put?
  {
    forall s, y | Newest(store, user, smallest, s) && Newest(store - inputs, user, t.ik.num, y)
      ensures s == t && y == x
    {
      assert Visible(store, user, smallest, s) && Visible(store, user, smallest, t);
      assert Visible(store - inputs, user, t.ik.num, y) && Visible(store - inputs, user, t.ik.num, x);
    }
  }

  /** A compaction leaves every read of the key at or above the smallest snapshot unchanged
      exactly when it does not resurrect the key. */
  lemma ReadsPreservedExactly(store: set<Entry>, inputs: set<Entry>, v: Version, level: nat, smallest: nat, user: UserKey)
    requires inputs <= store && Functional(store)
    ensures !Resurrects(store, inputs, v, level, smallest, user) <==>
            forall snap :: snap >= smallest ==>
              Read(store, user, snap) == Read(Compacted(store, inputs, v, level, smallest), user, snap)
  {
    var after := Compacted(store, inputs, v, level, smallest);
    if Resurrects(store, inputs, v, level, smallest, user) {
      var t, x :| Newest(store, user, smallest, t) && t in inputs && Obsolete(v, level, smallest, t)
        && Newest(store - inputs, user, t.ik.num, x) && x.ik.kind.Put?;
      ReadNewest(store, user, smallest, t);
      ReadAfterDrop(store, inputs, v, level, smallest, user, smallest, t);
      assert Read(store, user, smallest) != Read(after, user, smallest);
    } else {
      forall snap | snap >= smallest ensures Read(store, user, snap) == Read(after, user, snap) {
        ReadAfter(store, inputs, v, level, smallest, user, snap);
      }
    }
  }

  // ---------- the compaction loop ----------

  /** The part of a Compaction object that answers IsBaseLevelForKey: one pointer per level,
      advanced past files that end before the keys asked so far. */
  class BaseLevelScan {
    const version: Version
    const level: nat
    var levelPtrs: seq<nat>

    ghost predicate Valid()
      reads this
    {
      && (forall l :: 1 <= l < |version| ==> Ordered(version[l]) && Apart(version[l]))
      && |levelPtrs| == |version|
      && forall l :: 0 <= l < |version| ==> levelPtrs[l] <= |version[l]|
    }

    /** Every file already passed ends before the user key. */
    ghost predicate PassedBefore(user: UserKey)
      requires Valid()
      reads this
    {
      forall l, i :: 0 <= l < |version| && 0 <= i < levelPtrs[l] ==> Largest(version[l][i]).user < user
    }

    constructor (version: Version, level: nat)
      requires forall l :: 1 <= l < |version| ==> Ordered(version[l]) && Apart(version[l])
      ensures Valid() && this.version == version && this.level == level
      ensures forall user :: PassedBefore(user)
    {
      this.version, this.level := version, level;
      levelPtrs := seq(|version|, _ => 0);
    }

    /** The stateful scan agrees with a full scan of the deeper levels as long as the keys asked
        for do not decrease. */
    method IsBaseLevelForKey(user: UserKey) returns (base: bool)
      requires Valid() && PassedBefore(user)
      modifies this
      ensures Valid() && PassedBefore(user)
      ensures base <==> IsBase(version, level, user)
    {
      var lvl := level + 2;
      while lvl < |version|
        invariant Valid() && PassedBefore(user)
        invariant forall l, f {:trigger f in version[l]} ::
                    level + 2 <= l < lvl && l < |version| && f in version[l] ==> !Overlaps(f, Some(user), Some(user))
      {
        var files := version[lvl];
        while levelPtrs[lvl] < |files|
          invariant Valid() && PassedBefore(user)
          decreases |files| - levelPtrs[lvl]
        {
          var f := files[levelPtrs[lvl]];
          if user <= Largest(f).user {
            if user >= Smallest(f).user {
              assert f in version[lvl];
              return false;
            }
            break;
          }
          levelPtrs := levelPtrs[lvl := levelPtrs[lvl] + 1];
        }
        LevelClear(files, levelPtrs[lvl], user);
        lvl := lvl + 1;
      }
      base := true;
    }
  }

  lemma LevelClear(files: Level, p: nat, user: UserKey)
    requires Ordered(files) && Apart(files) && p <= |files|
    requires forall i :: 0 <= i < p ==> Largest(files[i]).user < user
    requires p < |files| ==> user < Smallest(files[p]).user
    ensures forall f :: f in files ==> !Overlaps(f, Some(user), Some(user))
  {
    forall i | p <= i < |files| ensures user < Smallest(files[i]).user {
      if p < i { LevelBefore(files, p, i); NotBeforeBoth(files[p], files[i]); }
    }
  }

  ghost function Flatten(chunks: seq<seq<Entry>>): seq<Entry> {
    if chunks == [] then [] else Flatten(chunks[..|chunks| - 1]) + chunks[|chunks| - 1]
  }

  /** The entries kept so far are exactly the surviving ones of the part already read, in order. */
  ghost predicate KeptOf(kept: seq<Entry>, input: seq<Entry>, n: nat, v: Version, level: nat, smallest: nat)
    requires n <= |input|
  {
    && Sorted(kept)
    && (forall e :: e in kept ==> e in input[..n])
    && forall j :: 0 <= j < n ==> (input[j] in kept <==> Survives(SetOf(input), v, level, smallest, input[j]))
  }

  /** The loop's own test for rule (A) looks at the previous entry only. */
  lemma HiddenByPrevious(input: seq<Entry>, i: nat, smallest: nat)
    requires Sorted(input) && Functional(SetOf(input)) && i < |input|
    ensures Hidden(SetOf(input), smallest, input[i]) <==>
            i > 0 && input[i - 1].ik.user == input[i].ik.user && input[i - 1].ik.num <= smallest
  {
    var S := SetOf(input);
    if i > 0 && input[i - 1].ik.user == input[i].ik.user {
      assert Less(input[i - 1].ik, input[i].ik);
      assert input[i - 1] in S && input[i] in S;
    }
    if Hidden(S, smallest, input[i]) {
      var d :| d in S && d.ik.user == input[i].ik.user && input[i].ik.num < d.ik.num <= smallest;
      var j :| 0 <= j < |input| && input[j] == d;
      assert j < i;
      assert j < i - 1 ==> Less(input[j].ik, input[i - 1].ik) && Less(input[i - 1].ik, input[i].ik);
    }
  }

  /** Keeping or dropping the next entry as the loop decides keeps exactly the surviving ones. */
  lemma KeptStep(kept: seq<Entry>, input: seq<Entry>, n: nat, v: Version, level: nat, smallest: nat, drop: bool)
    requires n < |input| && Sorted(input) && KeptOf(kept, input, n, v, level, smallest)
    requires drop <==> !Survives(SetOf(input), v, level, smallest, input[n])
    ensures KeptOf(if drop then kept else kept + [input[n]], input, n + 1, v, level, smallest)
  {
    var e := input[n];
    assert input[..n + 1] == input[..n] + [e];
    forall d | d in kept ensures Less(d.ik, e.ik) {
      var j :| 0 <= j < n && input[..n][j] == d;
      assert input[j] == d;
    }
    forall j | 0 <= j < n ensures input[j] != e { assert Less(input[j].ik, e.ik); }
    AppendSorted(kept, e);
  }

  lemma AppendSorted(kept: seq<Entry>, e: Entry)
    requires Sorted(kept) && forall d :: d in kept ==> Less(d.ik, e.ik)
    ensures Sorted(kept + [e])
  {
    var r := kept + [e];
    forall a, b | 0 <= a < b < |r| ensures Less(r[a].ik, r[b].ik) {
      if b == |kept| { assert r[a] in kept; }
    }
  }

  /** The drop decision for one entry, given the user key and sequence number seen before it. */
  method ShouldDrop(scan: BaseLevelScan, currentUserKey: Option<UserKey>, lastSequence: nat, e: Entry, smallest: nat)
    returns (drop: bool)
    requires scan.Valid() && scan.PassedBefore(e.ik.user) && smallest < MAX_SEQUENCE
    modifies scan
    ensures scan.Valid() && scan.PassedBefore(e.ik.user)
    ensures drop <==> (currentUserKey == Some(e.ik.user) && lastSequence <= smallest)
                      || Obsolete(scan.version, scan.level, smallest, e)
  {
    var lastSequenceForKey := lastSequence;
    if currentUserKey != Some(e.ik.user) {
      lastSequenceForKey := MAX_SEQUENCE;
    }
    drop := false;
    if lastSequenceForKey <= smallest {
      drop := true;
    } else if e.ik.kind.Deletion? && e.ik.num <= smallest {
      drop := scan.IsBaseLevelForKey(e.ik.user);
    }
  }

  /** Closes the current output where it should stop, and adds the entry unless it is dropped. */
  method Emit(outputs: seq<seq<Entry>>, builder: seq<Entry>, e: Entry, drop: bool, stopBefore: bool, full: bool)
    returns (outputs': seq<seq<Entry>>, builder': seq<Entry>)
    requires forall j :: 0 <= j < |outputs| ==> outputs[j] != []
    ensures forall j :: 0 <= j < |outputs'| ==> outputs'[j] != []
    ensures Flatten(outputs') + builder'
         == if drop then Flatten(outputs) + builder else Flatten(outputs) + builder + [e]
    ensures var closed := stopBefore && builder != [];
      var front, rest := if closed then outputs + [builder] else outputs, if closed then [] else builder;
      if drop then outputs' == front && builder' == rest
      else if full then outputs' == front + [rest + [e]] && builder' == []
      else outputs' == front && builder' == rest + [e]
  {
    outputs', builder' := outputs, builder;
    if stopBefore && builder' != [] {
      outputs', builder' := Close(outputs', builder');
    }
    if !drop {
      assert Flatten(outputs') + builder' + [e] == Flatten(outputs') + (builder' + [e]);
      builder' := builder' + [e];
      if full {
        outputs', builder' := Close(outputs', builder');
      }
    }
  }

  // ---------- where the outputs are cut ----------

  /** The first `j` outputs hold `i` entries. */
  ghost predicate EndsAt(outputs: seq<seq<Entry>>, j: nat, i: nat) {
    j <= |outputs| && |Flatten(outputs[..j])| == i
  }

  /** An output ends before position `i` of what was kept. */
  ghost predicate Boundary(outputs: seq<seq<Entry>>, i: nat) {
    exists j: nat :: EndsAt(outputs, j, i)
  }

  /** After entry `a`, the output was full or had to stop before some entry up to the `m`-th. */
  ghost predicate CutSince(stopBefore: seq<bool>, full: seq<bool>, a: nat, m: nat) {
    && a < m <= |stopBefore| == |full|
    && (full[a] || exists k :: a < k < m && stopBefore[k])
  }

  /** `at` are the places in the input of what was kept; an output ends between two neighbours just
      if the first filled it or it had to stop before an entry since then. */
  ghost predicate CutRight(input: seq<Entry>, stopBefore: seq<bool>, full: seq<bool>, outputs: seq<seq<Entry>>,
                           kept: seq<Entry>, at: seq<nat>) {
    && |at| == |kept|
    && (forall i :: 0 <= i < |at| ==> at[i] < |input| && kept[i] == input[at[i]])
    && (forall i :: 0 < i < |at| ==> at[i - 1] < at[i])
    && (forall i :: 0 < i < |at| ==> (Boundary(outputs, i) <==> CutSince(stopBefore, full, at[i - 1], at[i] + 1)))
  }

  /** The same halfway, with the output under construction. */
  ghost predicate Cutting(input: seq<Entry>, stopBefore: seq<bool>, full: seq<bool>, n: nat, outputs: seq<seq<Entry>>,
                          builder: seq<Entry>, at: seq<nat>) {
    && n <= |input| == |stopBefore| == |full|
    && CutRight(input, stopBefore, full, outputs, Flatten(outputs) + builder, at)
    && (at != [] ==> at[|at| - 1] < n)
    && (builder == [] <==> at == [] || CutSince(stopBefore, full, at[|at| - 1], n))
  }

  lemma FlattenSnoc(outputs: seq<seq<Entry>>, chunk: seq<Entry>)
    ensures Flatten(outputs + [chunk]) == Flatten(outputs) + chunk
  {
    assert (outputs + [chunk])[..|outputs|] == outputs;
  }

  lemma EndsSnoc(outputs: seq<seq<Entry>>, chunk: seq<Entry>, j: nat, i: nat)
    ensures EndsAt(outputs + [chunk], j, i)
       <==> EndsAt(outputs, j, i) || (j == |outputs| + 1 && i == |Flatten(outputs)| + |chunk|)
  {
    var all := outputs + [chunk];
    FlattenSnoc(outputs, chunk);
    if j <= |outputs| {
      assert all[..j] == outputs[..j];
    } else if j == |all| {
      assert all[..j] == all;
    }
  }

  lemma BoundarySnoc(outputs: seq<seq<Entry>>, chunk: seq<Entry>, i: nat)
    ensures Boundary(outputs + [chunk], i) <==> Boundary(outputs, i) || i == |Flatten(outputs)| + |chunk|
  {
    var all := outputs + [chunk];
    hide EndsAt;
    forall j: nat ensures EndsAt(all, j, i) <==> EndsAt(outputs, j, i) || (j == |outputs| + 1 && i == |Flatten(outputs)| + |chunk|) {
      EndsSnoc(outputs, chunk, j, i);
    }
    if i == |Flatten(outputs)| + |chunk| { assert EndsAt(all, |outputs| + 1, i); }
  }

  lemma BoundaryAtEnd(outputs: seq<seq<Entry>>)
    ensures Boundary(outputs, |Flatten(outputs)|)
  {
    assert outputs[..|outputs|] == outputs;
    assert EndsAt(outputs, |outputs|, |Flatten(outputs)|);
  }

  lemma {:induction false} BoundaryWithin(outputs: seq<seq<Entry>>, i: nat)
    requires Boundary(outputs, i)
    ensures i <= |Flatten(outputs)|
  {
    if outputs != [] {
      BoundarySnoc(outputs[..|outputs| - 1], outputs[|outputs| - 1], i);
      assert outputs == outputs[..|outputs| - 1] + [outputs[|outputs| - 1]];
      FlattenSnoc(outputs[..|outputs| - 1], outputs[|outputs| - 1]);
      if Boundary(outputs[..|outputs| - 1], i) { BoundaryWithin(outputs[..|outputs| - 1], i); }
    }
  }

  /** Closing the output under construction changes no boundary between what was kept. */
  lemma ClosedIsCutRight(input: seq<Entry>, stopBefore: seq<bool>, full: seq<bool>, outputs: seq<seq<Entry>>,
                         builder: seq<Entry>, at: seq<nat>)
    requires CutRight(input, stopBefore, full, outputs, Flatten(outputs) + builder, at)
    ensures CutRight(input, stopBefore, full, outputs + [builder], Flatten(outputs + [builder]) + [], at)
  {
    FlattenSnoc(outputs, builder);
    assert Flatten(outputs + [builder]) + [] == Flatten(outputs) + builder;
    hide Boundary;
    forall i | 0 < i < |at| ensures Boundary(outputs + [builder], i) <==> Boundary(outputs, i) {
      BoundarySnoc(outputs, builder, i);
    }
  }

  /** The output under construction is closed before the n-th entry, where it has to stop. */
  lemma CutBeforeNext(input: seq<Entry>, stopBefore: seq<bool>, full: seq<bool>, n: nat, outputs: seq<seq<Entry>>,
                      builder: seq<Entry>, at: seq<nat>)
    requires Cutting(input, stopBefore, full, n, outputs, builder, at) && n < |input|
    ensures stopBefore[n] && builder != [] ==> Cutting(input, stopBefore, full, n + 1, outputs + [builder], [], at)
    ensures !stopBefore[n] || builder == [] ==> Cutting(input, stopBefore, full, n + 1, outputs, builder, at)
  {
    ClosedIsCutRight(input, stopBefore, full, outputs, builder, at);
    hide CutRight;
  }

  lemma CutRightSnoc(input: seq<Entry>, stopBefore: seq<bool>, full: seq<bool>, n: nat, outputs: seq<seq<Entry>>,
                     kept: seq<Entry>, at: seq<nat>)
    requires CutRight(input, stopBefore, full, outputs, kept, at) && n < |input| && (at != [] ==> at[|at| - 1] < n)
    requires at != [] ==> (Boundary(outputs, |at|) <==> CutSince(stopBefore, full, at[|at| - 1], n + 1))
    ensures CutRight(input, stopBefore, full, outputs, kept + [input[n]], at + [n])
  {
    hide Boundary;
    hide CutSince;
  }

  lemma KeepIsCutRight(input: seq<Entry>, stopBefore: seq<bool>, full: seq<bool>, n: nat, outputs: seq<seq<Entry>>,
                       builder: seq<Entry>, at: seq<nat>)
    requires Cutting(input, stopBefore, full, n + 1, outputs, builder, at) && (at != [] ==> at[|at| - 1] < n)
    ensures CutRight(input, stopBefore, full, outputs, Flatten(outputs) + (builder + [input[n]]), at + [n])
  {
    var m := |at|;
    assert Flatten(outputs) + (builder + [input[n]]) == Flatten(outputs) + builder + [input[n]];
    BoundaryAtEnd(outputs);
    assert Boundary(outputs, m) <==> builder == [] by { if Boundary(outputs, m) { BoundaryWithin(outputs, m); } }
    hide CutSince;
    hide Boundary;
    hide Flatten;
    CutRightSnoc(input, stopBefore, full, n, outputs, Flatten(outputs) + builder, at);
  }

  /** The n-th entry joins the output under construction, which is closed if that fills it. */
  lemma CutAfterKeep(input: seq<Entry>, stopBefore: seq<bool>, full: seq<bool>, n: nat, outputs: seq<seq<Entry>>,
                     builder: seq<Entry>, at: seq<nat>)
    requires Cutting(input, stopBefore, full, n + 1, outputs, builder, at) && (at != [] ==> at[|at| - 1] < n)
    ensures var builder' := builder + [input[n]];
      if full[n] then Cutting(input, stopBefore, full, n + 1, outputs + [builder'], [], at + [n])
      else Cutting(input, stopBefore, full, n + 1, outputs, builder', at + [n])
  {
    KeepIsCutRight(input, stopBefore, full, n, outputs, builder, at);
    ClosedIsCutRight(input, stopBefore, full, outputs, builder + [input[n]], at + [n]);
    hide CutRight;
  }

  lemma CutStep(input: seq<Entry>, stopBefore: seq<bool>, full: seq<bool>, n: nat, outputs: seq<seq<Entry>>,
                builder: seq<Entry>, drop: bool, at: seq<nat>) returns (at': seq<nat>)
    requires Cutting(input, stopBefore, full, n, outputs, builder, at) && n < |input|
    ensures var closed := stopBefore[n] && builder != [];
      var front, rest := if closed then outputs + [builder] else outputs, if closed then [] else builder;
      if drop then Cutting(input, stopBefore, full, n + 1, front, rest, at')
      else if full[n] then Cutting(input, stopBefore, full, n + 1, front + [rest + [input[n]]], [], at')
      else Cutting(input, stopBefore, full, n + 1, front, rest + [input[n]], at')
  {
    var closed := stopBefore[n] && builder != [];
    var front, rest := if closed then outputs + [builder] else outputs, if closed then [] else builder;
    CutBeforeNext(input, stopBefore, full, n, outputs, builder, at);
    at' := at;
    if !drop {
      CutAfterKeep(input, stopBefore, full, n, front, rest, at);
      at' := at + [n];
    }
  }

  lemma CutAtEnd(input: seq<Entry>, stopBefore: seq<bool>, full: seq<bool>, outputs: seq<seq<Entry>>,
                 builder: seq<Entry>, at: seq<nat>)
    requires Cutting(input, stopBefore, full, |input|, outputs, builder, at)
    ensures var all := if builder != [] then outputs + [builder] else outputs;
      CutRight(input, stopBefore, full, all, Flatten(all), at)
  {
    ClosedIsCutRight(input, stopBefore, full, outputs, builder, at);
    assert forall s: seq<Entry> :: s + [] == s;
    hide CutRight;
  }

  /** What the loop remembers of the entry before the n-th. */
  ghost predicate Remembers(input: seq<Entry>, n: nat, currentUserKey: Option<UserKey>, lastSequence: nat)
    requires n <= |input|
  {
    if n == 0 then currentUserKey.None?
    else currentUserKey == Some(input[n - 1].ik.user) && lastSequence == input[n - 1].ik.num
  }

  /** One turn of the loop: the n-th entry is dropped or joins the output under construction. */
  method ProcessEntry(scan: BaseLevelScan, input: seq<Entry>, n: nat, currentUserKey: Option<UserKey>, lastSequence: nat,
                      smallest: nat, outputs: seq<seq<Entry>>, builder: seq<Entry>, stopBefore: seq<bool>, full: seq<bool>,
                      ghost at: seq<nat>)
    returns (outputs': seq<seq<Entry>>, builder': seq<Entry>, ghost at': seq<nat>)
    requires n < |input| && Sorted(input) && Functional(SetOf(input)) && smallest < MAX_SEQUENCE
    requires scan.Valid() && scan.PassedBefore(input[n].ik.user)
    requires Remembers(input, n, currentUserKey, lastSequence)
    requires forall j :: 0 <= j < |outputs| ==> outputs[j] != []
    requires KeptOf(Flatten(outputs) + builder, input, n, scan.version, scan.level, smallest)
    requires Cutting(input, stopBefore, full, n, outputs, builder, at)
    modifies scan
    ensures scan.Valid() && scan.PassedBefore(input[n].ik.user)
    ensures forall j :: 0 <= j < |outputs'| ==> outputs'[j] != []
    ensures KeptOf(Flatten(outputs') + builder', input, n + 1, scan.version, scan.level, smallest)
    ensures Cutting(input, stopBefore, full, n + 1, outputs', builder', at')
  {
    var drop := ShouldDrop(scan, currentUserKey, lastSequence, input[n], smallest);
    HiddenByPrevious(input, n, smallest);
    KeptStep(Flatten(outputs) + builder, input, n, scan.version, scan.level, smallest, drop);
    outputs', builder' := Emit(outputs, builder, input[n], drop, stopBefore[n], full[n]);
    at' := CutStep(input, stopBefore, full, n, outputs, builder, drop, at);
  }

  /** DoCompactionWork over the merged input. `stopBefore[i]` and `full[i]` stand for what
      ShouldStopBefore and the builder's file size say at the i-th entry. The outputs hold exactly
      the surviving entries, in order, and no output is empty. */
  method DoCompactionWork(v: Version, level: nat, input: seq<Entry>, smallest: nat, stopBefore: seq<bool>, full: seq<bool>)
    returns (outputs: seq<seq<Entry>>, ghost at: seq<nat>)
    requires forall l :: 1 <= l < |v| ==> Ordered(v[l]) && Apart(v[l])
    requires Sorted(input) && Functional(SetOf(input)) && smallest < MAX_SEQUENCE
    requires |stopBefore| == |full| == |input|
    ensures Sorted(Flatten(outputs)) && forall i :: 0 <= i < |outputs| ==> outputs[i] != []
    ensures forall e :: e in Flatten(outputs) <==> Survives(SetOf(input), v, level, smallest, e)
    ensures CutRight(input, stopBefore, full, outputs, Flatten(outputs), at)
  {
    hide CutRight;
    hide Cutting;
    outputs, at := [], [];
    CutNothing(input, stopBefore, full);
    var builder: seq<Entry> := [];
    var currentUserKey: Option<UserKey> := None;
    var lastSequenceForKey := MAX_SEQUENCE;
    var scan := new BaseLevelScan(v, level);
    var i := 0;
    while i < |input|
      invariant 0 <= i <= |input|
      invariant scan.Valid() && scan.version == v && scan.level == level && fresh(scan)
      invariant i < |input| ==> scan.PassedBefore(input[i].ik.user)
      invariant Remembers(input, i, currentUserKey, lastSequenceForKey)
      invariant forall j :: 0 <= j < |outputs| ==> outputs[j] != []
      invariant KeptOf(Flatten(outputs) + builder, input, i, v, level, smallest)
      invariant Cutting(input, stopBefore, full, i, outputs, builder, at)
    {
      outputs, builder, at := ProcessEntry(scan, input, i, currentUserKey, lastSequenceForKey, smallest,
                                           outputs, builder, stopBefore, full, at);
      currentUserKey, lastSequenceForKey := Some(input[i].ik.user), input[i].ik.num;
      i := i + 1;
      if i < |input| { assert Less(input[i - 1].ik, input[i].ik); }
    }
    CutAtEnd(input, stopBefore, full, outputs, builder, at);
    if builder != [] {
      outputs, builder := Close(outputs, builder);
    }
    assert Flatten(outputs) + builder == Flatten(outputs);
    KeptAll(Flatten(outputs), input, v, level, smallest);
  }

  lemma CutNothing(input: seq<Entry>, stopBefore: seq<bool>, full: seq<bool>)
    requires |stopBefore| == |full| == |input|
    ensures Cutting(input, stopBefore, full, 0, [], [], [])
  {
  }

  lemma KeptAll(kept: seq<Entry>, input: seq<Entry>, v: Version, level: nat, smallest: nat)
    requires KeptOf(kept, input, |input|, v, level, smallest)
    ensures forall e :: e in kept <==> Survives(SetOf(input), v, level, smallest, e)
  {
    assert input[..|input|] == input;
    forall e | e in input ensures e in kept <==> Survives(SetOf(input), v, level, smallest, e) {
      var j :| 0 <= j < |input| && input[j] == e;
    }
  }

  /** FinishCompactionOutputFile. */
  method Close(outputs: seq<seq<Entry>>, builder: seq<Entry>) returns (outputs': seq<seq<Entry>>, builder': seq<Entry>)
    requires builder != []
    ensures outputs' == outputs + [builder] && builder' == []
    ensures Flatten(outputs') + builder' == Flatten(outputs) + builder
  {
    outputs', builder' := outputs + [builder], [];
    assert outputs'[..|outputs|] == outputs;
  }
}
