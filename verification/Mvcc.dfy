/** The abstract object behind the engine: a multi-version map. A read at a snapshot returns the
    newest version of the key at or below the snapshot, unless it is a deletion marker. */
module Mvcc {
  import opened DbFormat

  ghost predicate Visible(S: set<Entry>, user: UserKey, snap: nat, e: Entry) {
    e in S && e.ik.user == user && e.ik.num <= snap
  }

  ghost predicate Newest(S: set<Entry>, user: UserKey, snap: nat, e: Entry) {
    Visible(S, user, snap, e) && forall d :: Visible(S, user, snap, d) ==> d.ik.num <= e.ik.num
  }

  /** No two entries carry the same user key and sequence number. */
  ghost predicate Functional(S: set<Entry>) {
    forall d, e :: d in S && e in S && d.ik.user == e.ik.user && d.ik.num == e.ik.num ==> d == e
  }

  /** What a client sees of the entry a lookup ended on. */
  function Outcome(r: Option<Entry>): (v: Option<Value>) {
    if r.Some? && r.value.ik.kind.Put? then Some(r.value.value) else None
  }

  /** What a client reads from the multi-version map `S`. */
  ghost function Read(S: set<Entry>, user: UserKey, snap: nat): Option<Value> {
    if exists e :: Newest(S, user, snap, e)
    then var e :| Newest(S, user, snap, e); Outcome(Some(e))
    else None
  }

  lemma ReadNewest(S: set<Entry>, user: UserKey, snap: nat, e: Entry)
    requires Functional(S) && Newest(S, user, snap, e)
    ensures Read(S, user, snap) == Outcome(Some(e))
  {
    forall d | Newest(S, user, snap, d) ensures d == e {
      assert Visible(S, user, snap, d) && Visible(S, user, snap, e);
    }
  }

  lemma ReadNothing(S: set<Entry>, user: UserKey, snap: nat)
    requires forall e :: !Visible(S, user, snap, e)
    ensures Read(S, user, snap) == None
  {
  }

  lemma {:induction false} NewestExists(S: set<Entry>, user: UserKey, snap: nat, e: Entry) returns (n: Entry)
    requires Visible(S, user, snap, e)
    ensures Newest(S, user, snap, n)
    decreases S
  {
    if d :| Visible(S, user, snap, d) && d.ik.num > e.ik.num {
      n := NewestExists(S - {e}, user, snap, d);
      assert Visible(S - {e}, user, snap, d);
      forall x | Visible(S, user, snap, x) ensures x.ik.num <= n.ik.num {
        if x != e { assert Visible(S - {e}, user, snap, x); }
      }
    } else {
      n := e;
    }
  }

  /** Reads agree when the newest visible entries agree, or both maps show nothing of the key. */
  lemma ReadSame(S: set<Entry>, T: set<Entry>, user: UserKey, snap: nat)
    requires Functional(S) && Functional(T)
    requires forall e :: Newest(S, user, snap, e) ==> Newest(T, user, snap, e)
    requires forall e :: Visible(T, user, snap, e) ==> exists d :: Visible(S, user, snap, d)
    ensures Read(S, user, snap) == Read(T, user, snap)
  {
    if e :| Visible(S, user, snap, e) {
      var n := NewestExists(S, user, snap, e);
      ReadNewest(S, user, snap, n);
      ReadNewest(T, user, snap, n);
    } else {
      ReadNothing(S, user, snap);
      ReadNothing(T, user, snap);
    }
  }

  /** Entries above a snapshot never change what it reads. */
  lemma ReadStable(S: set<Entry>, T: set<Entry>, user: UserKey, snap: nat)
    requires Functional(S) && Functional(T)
    requires forall e: Entry :: e.ik.num <= snap ==> (e in S <==> e in T)
    ensures Read(S, user, snap) == Read(T, user, snap)
  {
    assert forall e :: Visible(S, user, snap, e) <==> Visible(T, user, snap, e);
    ReadSame(S, T, user, snap);
  }

  ghost function SetOf(s: seq<Entry>): set<Entry> {
    set e | e in s
  }

  /** A finite set of entries of which no two share user key and number is one sorted run. */
  lemma {:induction false} SortedRun(s: set<Entry>) returns (run: seq<Entry>)
    requires Functional(s)
    ensures Sorted(run) && forall e :: e in run <==> e in s
    decreases s
  {
    run := [];
    if s != {} {
      var e :| e in s;
      var rest := SortedRun(s - {e});
      InsertSorted(rest, e);
      InsertMembers(rest, e);
      run := Insert(rest, e);
    }
  }

  /** A point lookup in a sorted run finds the newest visible entry of the key, and misses only
      when the run shows none. */
  lemma RunGetIsNewest(s: seq<Entry>, user: UserKey, snap: nat)
    requires Sorted(s)
    ensures RunGet(s, user, snap).Some? ==> Newest(SetOf(s), user, snap, RunGet(s, user, snap).value)
    ensures RunGet(s, user, snap).None? ==> forall e :: !Visible(SetOf(s), user, snap, e)
  {
    var target := LookupKey(user, snap);
    var i := SeekIndex(s, target);
    forall e | Visible(SetOf(s), user, snap, e)
      ensures i < |s| && s[i].ik.user == user && e.ik.num <= s[i].ik.num
    {
      var j :| 0 <= j < |s| && s[j] == e;
      assert !Less(e.ik, target);
      assert j >= i;
    }
  }
}
