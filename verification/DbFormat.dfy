/** Internal keys and sorted runs of entries (db/dbformat.h, db/dbformat.cc).

    User keys are modelled as `real`: the proofs use nothing but `<` on them, and every
    countable total order, such as byte strings under any comparator, embeds in it. */
module DbFormat {

  const NUM_LEVELS: nat := 7
  const MAX_MEM_COMPACT_LEVEL: nat := 2
  const MAX_SEQUENCE: nat := 0xFF_FFFF_FFFF_FFFF

  type UserKey = real
  type Value = string

  datatype Option<+T> = None | Some(value: T)

  datatype Kind = Deletion | Put

  datatype InternalKey = InternalKey(user: UserKey, num: nat, kind: Kind)

  datatype Entry = Entry(ik: InternalKey, value: Value)

  /** The 64-bit trailer of an internal key: sequence number and type in one number. */
  function Packed(k: InternalKey): nat {
    k.num * 256 + if k.kind.Put? then 1 else 0
  }

  /** InternalKeyComparator: increasing user key, then decreasing packed number. */
  predicate Less(a: InternalKey, b: InternalKey) {
    a.user < b.user || (a.user == b.user && Packed(a) > Packed(b))
  }

  /** The key a lookup at snapshot `snap` seeks to. */
  function LookupKey(user: UserKey, snap: nat): InternalKey {
    InternalKey(user, snap, Put)
  }

  ghost predicate Sorted(s: seq<Entry>) {
    forall i, j :: 0 <= i < j < |s| ==> Less(s[i].ik, s[j].ik)
  }

  ghost predicate InRange(s: seq<Entry>) {
    forall e :: e in s ==> e.ik.num <= MAX_SEQUENCE
  }

  /** Index of the first entry at or after `target`. */
  function SeekIndex(s: seq<Entry>, target: InternalKey): (i: nat)
    ensures i <= |s|
    ensures forall j :: 0 <= j < i ==> Less(s[j].ik, target)
    ensures i < |s| ==> !Less(s[i].ik, target)
  {
    if s == [] || !Less(s[0].ik, target) then 0
    else
      var r := SeekIndex(s[1..], target);
      assert forall j :: 1 <= j < r + 1 ==> s[j] == s[1..][j - 1];
      r + 1
  }

  /** What a memtable or a table answers to a point lookup: the entry at the seek position when
      it belongs to the user key (MemTable::Get, Table::InternalGet with SaveValue). */
  function RunGet(s: seq<Entry>, user: UserKey, snap: nat): (r: Option<Entry>) {
    var i := SeekIndex(s, LookupKey(user, snap));
    if i < |s| && s[i].ik.user == user then Some(s[i]) else None
  }

  /** Memtable insertion: the skip list keeps entries in internal key order. */
  function Insert(s: seq<Entry>, e: Entry): (r: seq<Entry>)
  {
    var i := SeekIndex(s, e.ik);
    s[..i] + [e] + s[i..]
  }

  function InsertAll(s: seq<Entry>, batch: seq<Entry>): seq<Entry>
    decreases |batch|
  {
    if batch == [] then s else InsertAll(Insert(s, batch[0]), batch[1..])
  }

  lemma InsertMembers(s: seq<Entry>, e: Entry)
    ensures forall d :: d in Insert(s, e) <==> d in s || d == e
  {
    var i := SeekIndex(s, e.ik);
    assert s == s[..i] + s[i..];
  }

  lemma LessTrans(a: InternalKey, b: InternalKey, c: InternalKey)
    requires Less(a, b) && (Less(b, c) || b == c)
    ensures Less(a, c)
  {
  }

  lemma InsertSorted(s: seq<Entry>, e: Entry)
    requires Sorted(s)
    requires forall d :: d in s ==> d.ik != e.ik
    ensures Sorted(Insert(s, e))
  {
    var i := SeekIndex(s, e.ik);
    var r := Insert(s, e);
    forall b | i <= b < |s| ensures Less(e.ik, s[b].ik) {
      assert s[i] in s;
      assert Less(e.ik, s[i].ik);
      if i < b { LessTrans(e.ik, s[i].ik, s[b].ik); }
    }
    forall a, b | 0 <= a < b < |r| ensures Less(r[a].ik, r[b].ik) {
      assert r[a] == if a < i then s[a] else if a == i then e else s[a - 1];
      assert r[b] == if b < i then s[b] else if b == i then e else s[b - 1];
    }
  }

  lemma {:induction false} InsertAllSorted(s: seq<Entry>, batch: seq<Entry>)
    requires Sorted(s)
    requires forall d, e :: d in s && e in batch ==> d.ik != e.ik
    requires forall i, j :: 0 <= i < j < |batch| ==> batch[i].ik != batch[j].ik
    ensures Sorted(InsertAll(s, batch))
    ensures forall d :: d in InsertAll(s, batch) <==> d in s || d in batch
    decreases |batch|
  {
    if batch != [] {
      InsertSorted(s, batch[0]);
      InsertMembers(s, batch[0]);
      InsertAllSorted(Insert(s, batch[0]), batch[1..]);
    }
  }
}
