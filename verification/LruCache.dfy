/** The reference-counted LRU cache (util/cache.cc, LRUCache). Handles are named by the order in
    which they were made, and never reused; the two linked lists are sequences, oldest first. */
module LruCache {
  import opened Coding
  import opened DbFormat
  import opened HashTable

  datatype Handle = Handle(key: Bytes, value: nat, charge: nat, inCache: bool, refs: nat)

  /** All but the hash table. `freed` lists the handles whose deleter was called. */
  datatype Cache = Cache(handles: seq<Handle>, lru: seq<nat>, inUse: seq<nat>, usage: nat, freed: seq<nat>)

  // ---------- lists ----------

  ghost predicate Distinct(s: seq<nat>) {
    forall i, j :: 0 <= i < j < |s| ==> s[i] != s[j]
  }

  /** LRU_Remove. */
  function Removed(s: seq<nat>, e: nat): seq<nat> {
    if s == [] then [] else if s[0] == e then s[1..] else [s[0]] + Removed(s[1..], e)
  }

  lemma {:induction false} RemovedMembers(s: seq<nat>, e: nat, x: nat)
    requires Distinct(s)
    ensures x in Removed(s, e) <==> x in s && x != e
  {
    if s != [] {
      DistinctTail(s);
      RemovedMembers(s[1..], e, x);
      assert x in s <==> x == s[0] || x in s[1..];
    }
  }

  lemma DistinctTail(s: seq<nat>)
    requires Distinct(s) && s != []
    ensures Distinct(s[1..]) && s[0] !in s[1..]
  {
  }

  lemma DistinctCons(x: nat, s: seq<nat>)
    requires Distinct(s) && x !in s
    ensures Distinct([x] + s)
  {
    assert forall j :: 0 <= j < |s| ==> s[j] in s;
  }

  lemma {:induction false} RemovedDistinct(s: seq<nat>, e: nat)
    requires Distinct(s)
    ensures Distinct(Removed(s, e))
  {
    if s != [] {
      DistinctTail(s);
      RemovedDistinct(s[1..], e);
      RemovedMembers(s[1..], e, s[0]);
      if s[0] != e { DistinctCons(s[0], Removed(s[1..], e)); }
    }
  }

  lemma RemovedFacts(s: seq<nat>, e: nat)
    requires Distinct(s)
    ensures Distinct(Removed(s, e)) && forall x :: x in Removed(s, e) <==> x in s && x != e
  {
    RemovedDistinct(s, e);
    forall x ensures x in Removed(s, e) <==> x in s && x != e { RemovedMembers(s, e, x); }
  }

  function Total(handles: seq<Handle>, s: seq<nat>): nat {
    if s == [] then 0 else (if s[0] < |handles| then handles[s[0]].charge else 0) + Total(handles, s[1..])
  }

  lemma {:induction false} TotalRemoved(handles: seq<Handle>, s: seq<nat>, e: nat)
    requires e in s && e < |handles|
    ensures Total(handles, s) == Total(handles, Removed(s, e)) + handles[e].charge
  {
    assert s == [s[0]] + s[1..];
    if s[0] != e {
      TotalRemoved(handles, s[1..], e);
      assert ([s[0]] + Removed(s[1..], e))[1..] == Removed(s[1..], e);
    }
  }

  lemma {:induction false} TotalAppended(handles: seq<Handle>, s: seq<nat>, e: nat)
    requires e < |handles|
    ensures Total(handles, s + [e]) == Total(handles, s) + handles[e].charge
  {
    if s != [] {
      TotalAppended(handles, s[1..], e);
      assert (s + [e])[1..] == s[1..] + [e];
    } else {
      assert (s + [e])[1..] == [];
    }
  }

  /** Charges do not change, so neither do totals. */
  lemma {:induction false} TotalSame(a: seq<Handle>, b: seq<Handle>, s: seq<nat>)
    requires |a| <= |b| && forall x: nat :: x < |a| ==> a[x].charge == b[x].charge
    requires forall x :: x in s ==> x < |a|
    ensures Total(a, s) == Total(b, s)
  {
    if s != [] {
      assert s[0] in s && forall x :: x in s[1..] ==> x in s;
      TotalSame(a, b, s[1..]);
    }
  }

  // ---------- the invariant ----------

  ghost predicate Idle(c: Cache, e: nat) {
    e < |c.handles| && c.handles[e].inCache && c.handles[e].refs == 1
  }

  ghost predicate Busy(c: Cache, e: nat) {
    e < |c.handles| && c.handles[e].inCache && c.handles[e].refs >= 2
  }

  ghost predicate Dead(c: Cache, e: nat) {
    e < |c.handles| && c.handles[e].refs == 0
  }

  ghost predicate ListsOk(c: Cache) {
    && Distinct(c.lru) && Distinct(c.inUse)
    && (forall e: nat :: e in c.lru <==> Idle(c, e))
    && (forall e: nat :: e in c.inUse <==> Busy(c, e))
  }

  /** `clients[e]` counts the handles to `e` that clients hold; the cache's own reference is one more. */
  ghost predicate RefsOk(c: Cache, clients: seq<nat>) {
    && |clients| == |c.handles|
    && forall e :: 0 <= e < |c.handles| ==> c.handles[e].refs == clients[e] + if c.handles[e].inCache then 1 else 0
  }

  ghost predicate UsageOk(c: Cache) {
    c.usage == Total(c.handles, c.lru) + Total(c.handles, c.inUse)
  }

  /** The deleter was called for exactly the handles without a reference, and once. */
  ghost predicate FreedOk(c: Cache) {
    Distinct(c.freed) && forall e: nat :: e in c.freed <==> Dead(c, e)
  }

  ghost predicate Ok(c: Cache, clients: seq<nat>) {
    ListsOk(c) && RefsOk(c, clients) && UsageOk(c) && FreedOk(c)
  }

  // ---------- order of release ----------

  /** The handles in the list were all released, the front one longest ago. */
  ghost predicate InOrder(lru: seq<nat>, released: seq<nat>, clock: nat) {
    && (forall i :: 0 <= i < |lru| ==> lru[i] < |released| && 0 < released[lru[i]] < clock)
    && (forall i, j {:trigger lru[i], lru[j]} :: 0 <= i < j < |lru| ==> released[lru[i]] < released[lru[j]])
  }

  lemma {:induction false} RemovedIsWithin(s: seq<nat>, e: nat)
    ensures forall x :: x in Removed(s, e) ==> x in s
  {
    if s != [] { RemovedIsWithin(s[1..], e); }
  }

  lemma TailInOrder(lru: seq<nat>, released: seq<nat>, clock: nat)
    requires InOrder(lru, released, clock) && lru != []
    ensures InOrder(lru[1..], released, clock) && lru[0] < |released| && 0 < released[lru[0]] < clock
    ensures forall x {:trigger x in lru[1..]} :: x in lru[1..] ==> x < |released| && released[lru[0]] < released[x]
  {
    forall x | x in lru[1..] ensures x < |released| && released[lru[0]] < released[x] {
      var i :| 0 <= i < |lru[1..]| && lru[1..][i] == x;
      assert lru[i + 1] == x;
    }
  }

  lemma ConsInOrder(x: nat, lru: seq<nat>, released: seq<nat>, clock: nat)
    requires InOrder(lru, released, clock) && x < |released| && 0 < released[x] < clock
    requires forall y {:trigger y in lru} :: y in lru ==> y < |released| && released[x] < released[y]
    ensures InOrder([x] + lru, released, clock)
  {
    var all := [x] + lru;
    forall i, j | 0 <= i < j < |all| ensures released[all[i]] < released[all[j]] {
      assert all[j] == lru[j - 1] && lru[j - 1] in lru;
    }
  }

  lemma {:induction false} RemovedInOrder(lru: seq<nat>, e: nat, released: seq<nat>, clock: nat)
    requires InOrder(lru, released, clock)
    ensures InOrder(Removed(lru, e), released, clock)
  {
    if lru != [] {
      TailInOrder(lru, released, clock);
      RemovedInOrder(lru[1..], e, released, clock);
      RemovedIsWithin(lru[1..], e);
      hide InOrder;
      if lru[0] != e { ConsInOrder(lru[0], Removed(lru[1..], e), released, clock); }
    }
  }

  /** A handle released now goes to the end. */
  lemma ReleasedInOrder(lru: seq<nat>, e: nat, released: seq<nat>, clock: nat)
    requires InOrder(lru, released, clock) && e !in lru && e < |released| && 0 < clock
    ensures InOrder(lru, released[e := clock], clock + 1) && InOrder(lru + [e], released[e := clock], clock + 1)
  {
    assert forall i :: 0 <= i < |lru| ==> lru[i] in lru;
  }

  // ---------- Ref, Unref, FinishErase ----------

  function Ref(c: Cache, e: nat): Cache
    requires e < |c.handles|
  {
    var h := c.handles[e];
    var c' := if h.refs == 1 && h.inCache then c.(lru := Removed(c.lru, e), inUse := c.inUse + [e]) else c;
    c'.(handles := c.handles[e := h.(refs := h.refs + 1)])
  }

  function Unref(c: Cache, e: nat): Cache
    requires e < |c.handles| && c.handles[e].refs > 0
  {
    var h := c.handles[e].(refs := c.handles[e].refs - 1);
    var c' := c.(handles := c.handles[e := h]);
    if h.refs == 0 then c'.(freed := c.freed + [e])
    else if h.inCache && h.refs == 1 then c'.(inUse := Removed(c.inUse, e), lru := c.lru + [e])
    else c'
  }

  /** LRU_Remove does not know which list the handle is on. */
  function Unlisted(c: Cache, e: nat): Cache {
    if e in c.lru then c.(lru := Removed(c.lru, e)) else c.(inUse := Removed(c.inUse, e))
  }

  function FinishErase(c: Cache, e: nat): Cache
    requires e < |c.handles| && c.handles[e].refs > 0
  {
    Unref(Dropped(c, e), e)
  }

  lemma ErasedInOrder(c: Cache, e: nat, released: seq<nat>, clock: nat)
    requires InOrder(c.lru, released, clock) && e < |c.handles| && c.handles[e].refs > 0
    ensures InOrder(FinishErase(c, e).lru, released, clock)
  {
    RemovedInOrder(c.lru, e, released, clock);
  }

  /** Putting a handle at the end of a list. */
  lemma AppendedFacts(s: seq<nat>, e: nat)
    requires Distinct(s) && e !in s
    ensures Distinct(s + [e]) && forall x :: x in s + [e] <==> x in s || x == e
  {
    assert forall j :: 0 <= j < |s| ==> s[j] in s;
  }

  lemma SameTotals(c: Cache, c': Cache)
    requires ListsOk(c) && |c.handles| <= |c'.handles| && forall x: nat :: x < |c.handles| ==> c.handles[x].charge == c'.handles[x].charge
    ensures Total(c'.handles, c.lru) == Total(c.handles, c.lru) && Total(c'.handles, c.inUse) == Total(c.handles, c.inUse)
  {
    assert forall e :: e in c.lru ==> Idle(c, e);
    assert forall e :: e in c.inUse ==> Busy(c, e);
    TotalSame(c.handles, c'.handles, c.lru);
    TotalSame(c.handles, c'.handles, c.inUse);
  }

  lemma RefKeepsLists(c: Cache, e: nat)
    requires ListsOk(c) && e < |c.handles| && c.handles[e].refs > 0
    ensures ListsOk(Ref(c, e))
  {
    var c' := Ref(c, e);
    RemovedFacts(c.lru, e);
    if Idle(c, e) {
      assert !Busy(c, e);
      AppendedFacts(c.inUse, e);
    }
    forall x: nat | x != e ensures (Idle(c', x) <==> Idle(c, x)) && (Busy(c', x) <==> Busy(c, x)) { }
    assert !Idle(c', e) && (Busy(c', e) <==> Idle(c, e) || Busy(c, e));
  }

  lemma RefKeepsOk(c: Cache, clients: seq<nat>, e: nat)
    requires Ok(c, clients) && e < |c.handles| && c.handles[e].refs > 0
    ensures Ok(Ref(c, e), clients[e := clients[e] + 1])
  {
    var c' := Ref(c, e);
    RefKeepsLists(c, e);
    SameTotals(c, c');
    if Idle(c, e) {
      TotalRemoved(c'.handles, c.lru, e);
      TotalAppended(c'.handles, c.inUse, e);
    }
    forall x: nat ensures Dead(c', x) <==> Dead(c, x) { }
  }

  lemma UnrefKeepsLists(c: Cache, e: nat)
    requires ListsOk(c) && e < |c.handles| && c.handles[e].refs > (if c.handles[e].inCache then 1 else 0)
    ensures ListsOk(Unref(c, e))
  {
    var c' := Unref(c, e);
    RemovedFacts(c.inUse, e);
    if Busy(c, e) && c.handles[e].refs == 2 {
      assert !Idle(c, e);
      AppendedFacts(c.lru, e);
    }
    forall x: nat | x != e ensures (Idle(c', x) <==> Idle(c, x)) && (Busy(c', x) <==> Busy(c, x)) { }
    assert (Idle(c', e) <==> Busy(c, e) && c.handles[e].refs == 2) && (Busy(c', e) <==> Busy(c, e) && c.handles[e].refs > 2);
  }

  lemma UnrefFrees(c: Cache, e: nat)
    requires FreedOk(c) && e < |c.handles| && c.handles[e].refs > 0
    ensures FreedOk(Unref(c, e))
  {
    var c' := Unref(c, e);
    assert !Dead(c, e);
    AppendedFacts(c.freed, e);
    forall x: nat ensures Dead(c', x) <==> Dead(c, x) || (x == e && c.handles[e].refs == 1) { }
  }

  lemma UnrefKeepsOk(c: Cache, clients: seq<nat>, e: nat)
    requires Ok(c, clients) && e < |c.handles| && clients[e] > 0
    ensures Ok(Unref(c, e), clients[e := clients[e] - 1])
  {
    var c' := Unref(c, e);
    UnrefKeepsLists(c, e);
    UnrefFrees(c, e);
    SameTotals(c, c');
    if Busy(c, e) && c.handles[e].refs == 2 {
      TotalRemoved(c'.handles, c.inUse, e);
      TotalAppended(c'.handles, c.lru, e);
    }
  }

  /** The state between LRU_Remove and Unref in FinishErase. */
  function Dropped(c: Cache, e: nat): Cache
    requires e < |c.handles|
  {
    var h := c.handles[e];
    Unlisted(c, e).(handles := c.handles[e := h.(inCache := false)], usage := if h.charge <= c.usage then c.usage - h.charge else 0)
  }

  lemma DroppedKeepsLists(c: Cache, e: nat)
    requires ListsOk(c) && e < |c.handles| && c.handles[e].inCache && c.handles[e].refs > 0
    ensures ListsOk(Dropped(c, e)) && (e in c.lru || e in c.inUse)
  {
    var c' := Dropped(c, e);
    RemovedFacts(c.lru, e);
    RemovedFacts(c.inUse, e);
    assert Idle(c, e) || Busy(c, e);
    forall x: nat | x != e ensures (Idle(c', x) <==> Idle(c, x)) && (Busy(c', x) <==> Busy(c, x)) { }
    assert !Idle(c', e) && !Busy(c', e);
  }

  lemma FinishEraseKeepsOk(c: Cache, clients: seq<nat>, e: nat)
    requires Ok(c, clients) && e < |c.handles| && c.handles[e].inCache
    ensures c.handles[e].refs > 0 && Ok(FinishErase(c, e), clients)
    ensures FinishErase(c, e).usage == c.usage - c.handles[e].charge
  {
    var c' := Dropped(c, e);
    DroppedKeepsLists(c, e);
    SameTotals(c, c');
    if e in c.lru { TotalRemoved(c'.handles, c.lru, e); } else { TotalRemoved(c'.handles, c.inUse, e); }
    assert forall x: nat :: Dead(c', x) <==> Dead(c, x);
    UnrefKeepsLists(c', e);
    UnrefFrees(c', e);
    SameTotals(c', Unref(c', e));
  }

  // ---------- new handles ----------

  /** A handle with one client reference, and the cache's own when it is cached. */
  function Made(c: Cache, key: Bytes, value: nat, charge: nat, cached: bool): Cache {
    var e := |c.handles|;
    if cached then
      c.(handles := c.handles + [Handle(key, value, charge, true, 2)], inUse := c.inUse + [e], usage := c.usage + charge)
    else
      c.(handles := c.handles + [Handle(key, value, charge, false, 1)])
  }

  lemma MadeKeepsOk(c: Cache, clients: seq<nat>, key: Bytes, value: nat, charge: nat, cached: bool)
    requires Ok(c, clients)
    ensures Ok(Made(c, key, value, charge, cached), clients + [1])
  {
    var c', e := Made(c, key, value, charge, cached), |c.handles|;
    assert !Busy(c, e);
    AppendedFacts(c.inUse, e);
    SameTotals(c, c');
    TotalAppended(c'.handles, c.inUse, e);
    forall x: nat ensures (Idle(c', x) <==> Idle(c, x)) && (Dead(c', x) <==> Dead(c, x)) && (Busy(c', x) <==> Busy(c, x) || (cached && x == e)) { }
  }

  // ---------- the hash table's part ----------

  ghost predicate Cached(c: Cache, e: nat) { e < |c.handles| && c.handles[e].inCache }

  /** The table maps the key of each cached handle to it, and nothing else. */
  ghost predicate TableOk(m: map<Bytes, nat>, c: Cache) {
    && (forall k :: k in m ==> Cached(c, m[k]) && c.handles[m[k]].key == k)
    && (forall e: nat {:trigger Cached(c, e)} :: Cached(c, e) ==> c.handles[e].key in m && m[c.handles[e].key] == e)
  }

  /** Same keys, and the same handles are cached. */
  ghost predicate SameCached(c: Cache, c': Cache) {
    |c.handles| == |c'.handles| && forall e: nat :: e < |c.handles| ==>
      c'.handles[e].key == c.handles[e].key && c'.handles[e].value == c.handles[e].value && c'.handles[e].inCache == c.handles[e].inCache
  }

  lemma SameTable(m: map<Bytes, nat>, c: Cache, c': Cache)
    requires TableOk(m, c) && SameCached(c, c')
    ensures TableOk(m, c')
  {
    forall e: nat | Cached(c', e) ensures c'.handles[e].key in m && m[c'.handles[e].key] == e {
      assert Cached(c, e);
    }
  }

  lemma ErasedTable(m: map<Bytes, nat>, c: Cache, e: nat)
    requires TableOk(m, c) && Cached(c, e) && c.handles[e].refs > 0
    ensures TableOk(m - {c.handles[e].key}, FinishErase(c, e))
  {
    var c', key := FinishErase(c, e), c.handles[e].key;
    forall x: nat | Cached(c', x) ensures c'.handles[x].key in m - {key} && m[c'.handles[x].key] == x {
      assert Cached(c, x);
    }
    forall k | k in m - {key} ensures Cached(c', m[k]) && c'.handles[m[k]].key == k {
      assert Cached(c, m[k]);
    }
  }

  /** The table after a new handle took the key over from an earlier one, if there was one. */
  lemma InsertedTable(m: map<Bytes, nat>, c: Cache, key: Bytes, value: nat, charge: nat)
    requires TableOk(m, c)
    ensures var c', e := Made(c, key, value, charge, true), |c.handles|;
      if key in m then
        && Cached(c', m[key]) && m[key] != e
        && (c'.handles[m[key]].refs > 0 ==> TableOk(m[key := e], FinishErase(c', m[key])))
      else TableOk(m[key := e], c')
  {
    var c', e, n := Made(c, key, value, charge, true), |c.handles|, m[key := |c.handles|];
    assert key in m ==> Cached(c, m[key]);
    var d := if key in m && c'.handles[m[key]].refs > 0 then FinishErase(c', m[key]) else c';
    if key !in m || c'.handles[m[key]].refs > 0 {
      forall x: nat | Cached(d, x) ensures d.handles[x].key in n && n[d.handles[x].key] == x {
        assert x != e ==> Cached(c, x);
      }
      forall k | k in n ensures Cached(d, n[k]) && d.handles[n[k]].key == k {
        if k != key { assert Cached(c, m[k]); }
      }
    }
  }

  // ---------- the cache ----------

  class LRUCache {
    const table: HandleTable
    const capacity: nat
    var cache: Cache
    ghost var clients: seq<nat>
    ghost var released: seq<nat>   // when a client last gave the handle back, 0 if none ever did
    ghost var clock: nat           // the time of the next release

    ghost predicate Valid()
      reads this, table
    {
      && table.Valid() && Ok(cache, clients) && TableOk(table.m, cache)
      && |released| == |clients| && 0 < clock && InOrder(cache.lru, released, clock)
    }

    constructor (table: HandleTable, capacity: nat)
      requires table.Valid() && table.m == map[]
      ensures Valid() && this.table == table && this.capacity == capacity && cache.usage == 0
    {
      this.table, this.capacity := table, capacity;
      cache := Cache([], [], [], 0, []);
      clients, released, clock := [], [], 1;
    }

    method Lookup(key: Bytes) returns (e: Option<nat>)
      requires Valid()
      modifies this
      ensures Valid() && e == if key in table.m then Some(table.m[key]) else None
      ensures cache == if e.Some? then Ref(old(cache), e.value) else old(cache)
      ensures clients == if e.Some? then old(clients)[e.value := old(clients)[e.value] + 1] else old(clients)
      ensures e.Some? ==> e.value !in cache.lru
      ensures released == old(released) && clock == old(clock)
    {
      hide InOrder;
      hide Ok;
      hide TableOk;
      e := table.Lookup(key);
      if e.Some? {
        InTableIsCached(table.m, cache, key);
        OkParts(cache, clients);
        RefKeepsOk(cache, clients, e.value);
        SameTable(table.m, cache, Ref(cache, e.value));
        RemovedInOrder(cache.lru, e.value, released, clock);
        cache := Ref(cache, e.value);
        clients := clients[e.value := clients[e.value] + 1];
        OkParts(cache, clients);
        HeldIsNotIdle(cache, clients, e.value);
      }
    }

    /** Gives a handle back. When no client holds it any more, it goes to the end of the idle list if
        it is cached and is deleted otherwise. */
    method Release(e: nat)
      requires Valid() && e < |clients| && clients[e] > 0
      modifies this
      ensures Valid() && cache == Unref(old(cache), e) && clients == old(clients)[e := old(clients)[e] - 1]
      ensures released == old(released)[e := old(clock)] && clock == old(clock) + 1
      ensures cache.lru == if clients[e] == 0 && cache.handles[e].inCache then old(cache.lru) + [e] else old(cache.lru)
      ensures cache.freed == if clients[e] == 0 && !cache.handles[e].inCache then old(cache.freed) + [e] else old(cache.freed)
    {
      hide InOrder;
      hide Ok;
      hide TableOk;
      OkParts(cache, clients);
      UnrefKeepsOk(cache, clients, e);
      SameTable(table.m, cache, Unref(cache, e));
      HeldIsNotIdle(cache, clients, e);
      ReleasedInOrder(cache.lru, e, released, clock);
      cache := Unref(cache, e);
      clients := clients[e := clients[e] - 1];
      released, clock := released[e := clock], clock + 1;
    }

    method Erase(key: Bytes)
      requires Valid()
      modifies this, table
      ensures Valid() && table.m == old(table.m) - {key} && clients == old(clients)
      ensures cache == if key in old(table.m) then FinishErase(old(cache), old(table.m)[key]) else old(cache)
      ensures released == old(released) && clock == old(clock)
    {
      hide InOrder;
      hide Ok;
      hide TableOk;
      hide FinishErase;
      var e := table.Remove(key);
      if e.Some? {
        InTableIsCached(old(table.m), cache, key);
        FinishEraseKeepsOk(cache, clients, e.value);
        ErasedTable(old(table.m), cache, e.value);
        ErasedInOrder(cache, e.value, released, clock);
        cache := FinishErase(cache, e.value);
      } else {
        assert table.m == old(table.m);
      }
    }

    /** Drops the least recently used entry, which clients gave back before all other idle ones: the
        cache held its only reference, so it is deleted. */
    method EvictOldest()
      requires Valid() && cache.lru != []
      modifies this, table
      ensures Valid() && clients == old(clients)
      ensures cache.lru == old(cache.lru)[1..] && cache.inUse == old(cache.inUse)
      ensures cache.freed == old(cache.freed) + [old(cache.lru)[0]]
      ensures released == old(released) && clock == old(clock)
      ensures forall x {:trigger x in cache.lru} :: x in cache.lru ==> x < |released| && released[old(cache.lru)[0]] < released[x]
      ensures forall k :: k in table.m <==> k in old(table.m) && old(table.m)[k] != old(cache.lru)[0]
      ensures forall k :: k in table.m ==> table.m[k] == old(table.m)[k]
      ensures SameData(old(cache), cache)
      ensures old(cache.lru)[0] < |cache.handles| && cache.usage + cache.handles[old(cache.lru)[0]].charge == old(cache.usage)
    {
      var oldest := cache.lru[0];
      assert oldest in cache.lru && Idle(cache, oldest) && Cached(cache, oldest);
      assert !Busy(cache, oldest);
      NotListed(cache.inUse, oldest);
      ErasedData(cache, oldest);
      FinishEraseKeepsOk(cache, clients, oldest);
      Erase(cache.handles[oldest].key);
    }

    /** Prune deletes every entry no client holds, oldest first. */
    method Prune()
      requires Valid()
      modifies this, table
      ensures Valid() && cache.lru == [] && cache.inUse == old(cache.inUse) && clients == old(clients)
      ensures cache.freed == old(cache.freed) + old(cache.lru) && released == old(released)
    {
      ghost var gone: seq<nat>, idle := [], cache.lru;
      while cache.lru != []
        invariant Valid() && clients == old(clients) && cache.inUse == old(cache.inUse) && released == old(released)
        invariant idle == gone + cache.lru && cache.freed == old(cache.freed) + gone
        decreases |cache.lru|
      {
        NextGone(old(cache.freed), gone, cache.lru);
        gone := gone + [cache.lru[0]];
        EvictOldest();
      }
    }

    /** Insert: the new handle takes the key over, and the oldest idle entries go until the charge
        fits or none is left. What clients hold stays cached, and nothing else is deleted than the
        replaced entry, if it was idle, and the evicted ones. */
    method Insert(key: Bytes, value: nat, charge: nat) returns (e: nat, ghost evicted: seq<nat>)
      requires Valid()
      modifies this, table
      ensures Valid() && e == |old(cache.handles)| && clients == old(clients) + [1]
      ensures capacity > 0 ==> key in table.m && table.m[key] == e
      ensures SameData(old(cache), cache) && e < |cache.handles| && Carries(cache.handles[e], key, value, charge)
      ensures Spared(table.m, old(table.m), evicted, key)
      ensures HeldStay(table.m, old(table.m), old(clients), key)
      ensures Evicts(old(cache), cache, Replaced(old(table.m), key, capacity), evicted, capacity)
      ensures released == old(released) + [0] && OldestFirst(evicted + cache.lru, released)
    {
      hide InOrder;
      hide Ok;
      hide TableOk;
      hide SameData;
      hide Spared;
      hide Evicts;
      hide Trimmed;
      hide HeldStay;
      e := |cache.handles|;
      OkParts(cache, clients);
      ghost var was, before := cache, table.m;
      ghost var replaced := Replaced(before, key, capacity);
      Admit(key, value, charge);
      ghost var admitted, m := cache, table.m;
      OkParts(cache, clients);
      InOrderOldest(cache.lru, released, clock);
      evicted := MakeRoom(key, e);
      AdmitThenTrim(was, admitted, cache, replaced, evicted, capacity);
      SameDataAt(admitted, cache, e);
      SparedAfterAdmit(before, m, table.m, evicted, key);
      HeldAreSpared(was, old(clients), before, table.m, replaced, evicted, cache.lru, key);
    }

    /** The eviction loop of Insert: it never takes an entry that a client holds. */
    method MakeRoom(key: Bytes, ghost e: nat) returns (ghost evicted: seq<nat>)
      requires Valid() && e < |clients| && clients[e] > 0
      requires capacity > 0 ==> key in table.m && table.m[key] == e
      modifies this, table
      ensures Valid() && clients == old(clients) && released == old(released) && (cache.usage <= capacity || cache.lru == [])
      ensures capacity > 0 ==> key in table.m && table.m[key] == e
      ensures Spared(table.m, old(table.m), evicted, key) && Trimmed(old(cache), cache, evicted, capacity)
    {
      evicted := [];
      while cache.usage > capacity && cache.lru != []
        invariant Valid() && clients == old(clients) && released == old(released) && Spared(table.m, old(table.m), evicted, key)
        invariant capacity > 0 ==> key in table.m && table.m[key] == e
        invariant Trimmed(old(cache), cache, evicted, capacity)
        decreases |cache.lru|
      {
        HeldIsNotIdle(cache, clients, e);
        ghost var was, m := cache, table.m;
        EvictOldest();
        TrimStep(old(cache), was, cache, evicted, capacity);
        SpareStep(m, old(table.m), table.m, evicted, was.lru[0], key);
        evicted := evicted + [was.lru[0]];
      }
    }

    /** Makes the handle, and caches it unless caching is off. */
    method Admit(key: Bytes, value: nat, charge: nat)
      requires Valid()
      modifies this, table
      ensures Valid() && clients == old(clients) + [1] && released == old(released) + [0]
      ensures table.m == if capacity > 0 then old(table.m)[key := |old(cache.handles)|] else old(table.m)
      ensures SameData(old(cache), cache)
      ensures |cache.handles| == |old(cache.handles)| + 1 && Carries(cache.handles[|old(cache.handles)|], key, value, charge)
      ensures var replaced := Replaced(old(table.m), key, capacity);
        && cache.lru == IdleBut(old(cache), replaced)
        && cache.freed == old(cache.freed) + DeadOf(old(cache), replaced)
    {
      hide InOrder;
      hide Ok;
      hide TableOk;
      if key in table.m { InTableIsCached(table.m, cache, key); }
      OkParts(cache, clients);
      GrownInOrder(cache.lru, released, clock);
      MadeKeepsOk(cache, clients, key, value, charge, capacity > 0);
      MadeData(cache, key, value, charge, capacity > 0);
      clients, released := clients + [1], released + [0];
      if capacity > 0 {
        InsertedTable(table.m, cache, key, value, charge);
        var previous := table.Insert(key, |cache.handles|);
        cache := Made(cache, key, value, charge, true);
        if previous.Some? {
          FinishEraseKeepsOk(cache, clients, previous.value);
          ErasedData(cache, previous.value);
          ReplacedGone(old(cache), cache, previous.value);
          ErasedInOrder(cache, previous.value, released, clock);
          cache := FinishErase(cache, previous.value);
        }
      } else {
        UncachedTable(table.m, cache, key, value, charge);
        cache := Made(cache, key, value, charge, false);
      }
    }
  }

  lemma SameDataAt(c: Cache, c': Cache, e: nat)
    requires SameData(c, c') && e < |c.handles|
    ensures e < |c'.handles| && Carries(c'.handles[e], c.handles[e].key, c.handles[e].value, c.handles[e].charge)
  {
  }

  lemma OkParts(c: Cache, clients: seq<nat>)
    requires Ok(c, clients)
    ensures ListsOk(c) && RefsOk(c, clients) && |clients| == |c.handles|
  {
  }

  lemma InTableIsCached(m: map<Bytes, nat>, c: Cache, key: Bytes)
    requires TableOk(m, c) && key in m
    ensures Cached(c, m[key]) && c.handles[m[key]].key == key
  {
  }

  lemma GrownInOrder(lru: seq<nat>, released: seq<nat>, clock: nat)
    requires InOrder(lru, released, clock)
    ensures InOrder(lru, released + [0], clock)
  {
  }

  lemma InOrderOldest(lru: seq<nat>, released: seq<nat>, clock: nat)
    requires InOrder(lru, released, clock)
    ensures OldestFirst(lru, released)
  {
  }

  /** From left to right the handles were given back later and later. */
  ghost predicate OldestFirst(s: seq<nat>, released: seq<nat>) {
    forall i, j {:trigger s[i], s[j]} :: 0 <= i < j < |s| ==> s[i] < |released| && s[j] < |released| && released[s[i]] < released[s[j]]
  }

  lemma UncachedTable(m: map<Bytes, nat>, c: Cache, key: Bytes, value: nat, charge: nat)
    requires TableOk(m, c)
    ensures TableOk(m, Made(c, key, value, charge, false))
  {
    var c' := Made(c, key, value, charge, false);
    forall x: nat | Cached(c', x) ensures c'.handles[x].key in m && m[c'.handles[x].key] == x {
      assert Cached(c, x);
    }
    forall k | k in m ensures Cached(c', m[k]) && c'.handles[m[k]].key == k {
      assert Cached(c, m[k]);
    }
  }

  lemma MadeData(c: Cache, key: Bytes, value: nat, charge: nat, cached: bool)
    ensures var c' := Made(c, key, value, charge, cached);
      SameData(c, c') && |c'.handles| == |c.handles| + 1 && Carries(c'.handles[|c.handles|], key, value, charge)
  {
  }

  lemma ErasedData(c: Cache, e: nat)
    requires e < |c.handles| && c.handles[e].refs > 0
    ensures SameData(c, FinishErase(c, e)) && |FinishErase(c, e).handles| == |c.handles|
  {
  }

  lemma SameDataTrans(a: Cache, b: Cache, c: Cache)
    requires SameData(a, b) && SameData(b, c)
    ensures SameData(a, c)
  {
  }

  /** With the last entry evicted still there, the charge would not fit. */
  ghost predicate NoMoreThanNeeded(c: Cache, evicted: seq<nat>, capacity: nat) {
    evicted != [] ==>
      var last := evicted[|evicted| - 1];
      last < |c.handles| && c.usage + c.handles[last].charge > capacity
  }

  /** The evicted entries were the oldest idle ones, are deleted, and were not too many. */
  ghost predicate Trimmed(c: Cache, c': Cache, evicted: seq<nat>, capacity: nat) {
    && SameData(c, c') && evicted + c'.lru == c.lru && c'.freed == c.freed + evicted
    && NoMoreThanNeeded(c', evicted, capacity)
  }

  lemma TrimStep(c: Cache, was: Cache, c': Cache, evicted: seq<nat>, capacity: nat)
    requires Trimmed(c, was, evicted, capacity) && was.lru != [] && was.usage > capacity && SameData(was, c')
    requires c'.lru == was.lru[1..] && c'.freed == was.freed + [was.lru[0]]
    requires was.lru[0] < |c'.handles| && c'.usage + c'.handles[was.lru[0]].charge == was.usage
    ensures Trimmed(c, c', evicted + [was.lru[0]], capacity)
  {
    NextGone(c.freed, evicted, was.lru);
    SameDataTrans(c, was, c');
  }

  predicate Carries(h: Handle, key: Bytes, value: nat, charge: nat) {
    h.key == key && h.value == value && h.charge == charge
  }

  /** Keys, values and charges stay as they were. */
  ghost predicate SameData(c: Cache, c': Cache) {
    |c.handles| <= |c'.handles| && forall e: nat {:trigger c'.handles[e]} :: e < |c.handles| ==>
      Carries(c'.handles[e], c.handles[e].key, c.handles[e].value, c.handles[e].charge)
  }

  /** The handle that loses its key to a new one, if there is one. */
  function Replaced(m: map<Bytes, nat>, key: Bytes, capacity: nat): Option<nat> {
    if capacity > 0 && key in m then Some(m[key]) else None
  }

  /** The idle entries without the replaced one. */
  function IdleBut(c: Cache, replaced: Option<nat>): seq<nat> {
    if replaced.Some? then Removed(c.lru, replaced.value) else c.lru
  }

  /** The replaced entry is deleted at once if no client holds it. */
  function DeadOf(c: Cache, replaced: Option<nat>): seq<nat> {
    if replaced.Some? && replaced.value in c.lru then [replaced.value] else []
  }

  lemma ReplacedGone(c: Cache, c': Cache, e: nat)
    requires ListsOk(c) && Cached(c, e) && c.handles[e].refs > 0
    requires c'.lru == c.lru && c'.freed == c.freed && |c.handles| <= |c'.handles| && c'.handles[e] == c.handles[e]
    ensures FinishErase(c', e).lru == IdleBut(c, Some(e))
    ensures FinishErase(c', e).freed == c.freed + DeadOf(c, Some(e))
  {
    assert Idle(c, e) || Busy(c, e);
    assert e in c.lru <==> Idle(c, e);
    if e !in c.lru { NotListed(c.lru, e); }
  }

  /** What Insert does to the idle entries and the deleted ones: the evicted ones were the oldest of
      those left after the replacement, and as many as it took. */
  ghost predicate Evicts(c: Cache, c': Cache, replaced: Option<nat>, evicted: seq<nat>, capacity: nat) {
    && evicted + c'.lru == IdleBut(c, replaced)
    && c'.freed == c.freed + DeadOf(c, replaced) + evicted
    && (c'.usage <= capacity || c'.lru == [])
    && NoMoreThanNeeded(c', evicted, capacity)
  }

  lemma AdmitThenTrim(c: Cache, mid: Cache, c': Cache, replaced: Option<nat>, evicted: seq<nat>, capacity: nat)
    requires SameData(c, mid) && mid.lru == IdleBut(c, replaced) && mid.freed == c.freed + DeadOf(c, replaced)
    requires Trimmed(mid, c', evicted, capacity) && (c'.usage <= capacity || c'.lru == [])
    ensures SameData(c, c') && Evicts(c, c', replaced, evicted, capacity) && evicted + c'.lru == mid.lru == IdleBut(c, replaced)
    ensures SameData(mid, c')
  {
    SameDataTrans(c, mid, c');
  }

  lemma SparedAfterAdmit(before: map<Bytes, nat>, mid: map<Bytes, nat>, m: map<Bytes, nat>, evicted: seq<nat>, key: Bytes)
    requires forall k :: k != key ==> (k in mid <==> k in before) && (k in mid ==> mid[k] == before[k])
    requires Spared(m, mid, evicted, key)
    ensures Spared(m, before, evicted, key)
  {
  }

  /** But for `key`, the table says what it said before of all handles that were not evicted. */
  ghost predicate Spared(m: map<Bytes, nat>, before: map<Bytes, nat>, evicted: seq<nat>, key: Bytes) {
    && (forall k {:trigger k in m} :: k in m && k != key ==> k in before && before[k] !in evicted && m[k] == before[k])
    && (forall k {:trigger k in before} :: k in before && k != key && before[k] !in evicted ==> k in m)
  }

  lemma SpareStep(m: map<Bytes, nat>, before: map<Bytes, nat>, after: map<Bytes, nat>, evicted: seq<nat>, e: nat, key: Bytes)
    requires Spared(m, before, evicted, key)
    requires forall k :: k in after <==> k in m && m[k] != e
    requires forall k :: k in after ==> after[k] == m[k]
    ensures Spared(after, before, evicted + [e], key)
  {
    forall k | k in before && k != key && before[k] !in evicted + [e] ensures k in after {
      assert e in evicted + [e];
      assert k in m && m[k] == before[k];
    }
  }

  /** What clients hold under another key stays cached. */
  ghost predicate HeldStay(m: map<Bytes, nat>, before: map<Bytes, nat>, clients: seq<nat>, key: Bytes) {
    forall k {:trigger k in before} :: k in before && k != key && before[k] < |clients| && clients[before[k]] > 0
      ==> k in m && m[k] == before[k]
  }

  lemma HeldAreSpared(c: Cache, clients: seq<nat>, before: map<Bytes, nat>, m: map<Bytes, nat>, replaced: Option<nat>,
                      evicted: seq<nat>, left: seq<nat>, key: Bytes)
    requires ListsOk(c) && RefsOk(c, clients) && Spared(m, before, evicted, key)
    requires evicted + left == IdleBut(c, replaced)
    ensures HeldStay(m, before, clients, key)
  {
    forall k | k in before && k != key && before[k] < |clients| && clients[before[k]] > 0 ensures before[k] !in evicted {
      HeldIsNotIdle(c, clients, before[k]);
      assert before[k] in evicted ==> before[k] in evicted + left;
      if replaced.Some? { RemovedMembers(c.lru, replaced.value, before[k]); }
    }
  }

  lemma HeldIsNotIdle(c: Cache, clients: seq<nat>, e: nat)
    requires ListsOk(c) && RefsOk(c, clients) && e < |clients| && clients[e] > 0
    ensures e !in c.lru
  {
    assert !Idle(c, e);
  }

  lemma NextGone(freed: seq<nat>, gone: seq<nat>, lru: seq<nat>)
    requires lru != []
    ensures gone + lru == gone + [lru[0]] + lru[1..] && freed + gone + [lru[0]] == freed + (gone + [lru[0]])
  {
  }

  lemma {:induction false} NotListed(s: seq<nat>, e: nat)
    requires e !in s
    ensures Removed(s, e) == s
  {
    if s != [] { NotListed(s[1..], e); }
  }
}
