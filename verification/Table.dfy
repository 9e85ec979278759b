/** Sorted tables (table/table_builder.cc, table/table.cc, db/dbformat.cc): data blocks, an index
    with shortened keys, and a filter block. A point lookup reads one block only and must still
    find what a scan of the whole table would. */
module Table {
  import opened Coding
  import opened DbFormat
  import opened FilterBlock

  /** An internal key: user key, and sequence number and type packed in one number. */
  datatype Key = Key(user: Bytes, packed: nat)

  datatype Item = Item(key: Key, value: Bytes)

  /** PackSequenceAndType(kMaxSequenceNumber, kValueTypeForSeek): sorts before all else of a key. */
  const SEEK_PACKED: nat := 0xFF_FFFF_FFFF_FFFF * 256 + 1

  predicate KeyLess(a: Key, b: Key) {
    Below(a.user, b.user) || (a.user == b.user && a.packed > b.packed)
  }

  lemma KeyTrans(a: Key, b: Key, c: Key)
    requires KeyLess(a, b) && KeyLess(b, c)
    ensures KeyLess(a, c)
  {
    if Below(a.user, b.user) && Below(b.user, c.user) { BelowTrans(a.user, b.user, c.user); }
  }

  lemma KeyTotal(a: Key, b: Key)
    ensures KeyLess(a, b) || a == b || KeyLess(b, a)
    ensures !(KeyLess(a, b) && KeyLess(b, a)) && !KeyLess(a, a)
  {
    BelowTotal(a.user, b.user);
    BelowTotal(a.user, a.user);
  }

  /** What lies at or before something before a key lies before it. */
  lemma KeyAtMostTrans(a: Key, b: Key, c: Key)
    requires !KeyLess(b, a) && KeyLess(b, c)
    ensures KeyLess(a, c)
  {
    KeyTotal(a, b);
    if a != b { KeyTrans(a, b, c); }
  }

  // ---------- separators ----------

  ghost predicate IsSeparator(start: Key, limit: Key, sep: Key) {
    if HasRoom(start.user, limit.user) && Mismatch(start.user, limit.user) + 1 < |start.user|
    then Below(start.user, sep.user) && Below(sep.user, limit.user) && sep.packed == SEEK_PACKED && |sep.user| < |start.user|
    else sep == start
  }

  ghost predicate IsSuccessor(key: Key, r: Key) {
    if LeadingFF(key.user) + 1 < |key.user|
    then Below(key.user, r.user) && r.packed == SEEK_PACKED && |r.user| < |key.user|
    else r == key
  }

  /** InternalKeyComparator::FindShortestSeparator: the start key, or one that lies strictly between
      the user keys and sorts before everything of its own user key. */
  method InternalSeparator(start: Key, limit: Key) returns (sep: Key)
    ensures IsSeparator(start, limit, sep)
  {
    var tmp := FindShortestSeparator(start.user, limit.user);
    if |tmp| < |start.user| && Below(start.user, tmp) {
      return Key(tmp, SEEK_PACKED);
    }
    return start;
  }

  method InternalSuccessor(key: Key) returns (r: Key)
    ensures IsSuccessor(key, r)
  {
    var tmp := FindShortSuccessor(key.user);
    if |tmp| < |key.user| && Below(key.user, tmp) {
      return Key(tmp, SEEK_PACKED);
    }
    return key;
  }

  // ---------- blocks ----------

  type DataBlock = seq<Item>

  datatype IndexEntry = IndexEntry(key: Key, offset: nat)

  ghost predicate SortedBlock(b: DataBlock) {
    forall i, j :: 0 <= i < j < |b| ==> KeyLess(b[i].key, b[j].key)
  }

  /** Block::Iter::Seek: the first item at or after the key. */
  function Seek(b: DataBlock, k: Key): (i: nat)
    ensures i <= |b|
    ensures forall j :: 0 <= j < i ==> KeyLess(b[j].key, k)
    ensures i < |b| ==> !KeyLess(b[i].key, k)
  {
    if b == [] || !KeyLess(b[0].key, k) then 0
    else
      var i := Seek(b[1..], k);
      assert forall j :: 1 <= j < i + 1 ==> b[j] == b[1..][j - 1];
      i + 1
  }

  function SeekEntry(index: seq<IndexEntry>, k: Key): (i: nat)
    ensures i <= |index|
    ensures forall j :: 0 <= j < i ==> KeyLess(index[j].key, k)
    ensures i < |index| ==> !KeyLess(index[i].key, k)
  {
    if index == [] || !KeyLess(index[0].key, k) then 0
    else
      var i := SeekEntry(index[1..], k);
      assert forall j :: 1 <= j < i + 1 ==> index[j] == index[1..][j - 1];
      i + 1
  }

  ghost predicate AllBefore(b: DataBlock, k: Key) {
    forall x :: x in b ==> KeyLess(x.key, k)
  }

  ghost predicate Precedes(b: DataBlock, c: DataBlock) {
    forall x, y :: x in b && y in c ==> KeyLess(x.key, y.key)
  }

  /** An index key divides its block from what follows: it is the block's last key, or a key after it
      whose user key lies strictly before all user keys that follow. */
  ghost predicate Divides(key: Key, b: DataBlock, next: DataBlock) {
    && b != []
    && (key == b[|b| - 1].key
        || (KeyLess(b[|b| - 1].key, key) && key.packed == SEEK_PACKED && forall y :: y in next ==> Below(key.user, y.key.user)))
  }

  ghost predicate BlocksInOrder(blocks: seq<DataBlock>) {
    && (forall i {:trigger SortedBlock(blocks[i])} :: 0 <= i < |blocks| ==> SortedBlock(blocks[i]))
    && (forall i, j {:trigger Precedes(blocks[i], blocks[j])} :: 0 <= i < j < |blocks| ==> Precedes(blocks[i], blocks[j]))
  }

  /** The first blocks are in the file, at their offsets. */
  ghost predicate Stored(blocks: seq<DataBlock>, offsets: seq<nat>, file: map<nat, DataBlock>) {
    |offsets| <= |blocks| && forall i :: 0 <= i < |offsets| ==> offsets[i] in file && file[offsets[i]] == blocks[i]
  }

  /** Each index entry points to its block and divides it from all later ones. */
  ghost predicate Indexed(index: seq<IndexEntry>, blocks: seq<DataBlock>, offsets: seq<nat>) {
    && |index| <= |offsets| <= |blocks|
    && (forall i :: 0 <= i < |index| ==> index[i].offset == offsets[i] && blocks[i] != [])
    && (forall i {:trigger Divides(index[i].key, blocks[i], [])} :: 0 <= i < |index| ==> Divides(index[i].key, blocks[i], []))
    && (forall i, j {:trigger Divides(index[i].key, blocks[i], blocks[j])} :: 0 <= i < |index| && i < j < |blocks| ==>
          Divides(index[i].key, blocks[i], blocks[j]))
  }

  ghost predicate Laid(blocks: seq<DataBlock>, offsets: seq<nat>, index: seq<IndexEntry>, file: map<nat, DataBlock>) {
    |index| == |offsets| == |blocks| && BlocksInOrder(blocks) && Stored(blocks, offsets, file) && Indexed(index, blocks, offsets)
  }

  // ---------- lookup ----------

  ghost predicate InBlocks(blocks: seq<DataBlock>, e: Item) {
    exists i :: 0 <= i < |blocks| && e in blocks[i]
  }

  /** `e` is the first item of the table at or after `k`. */
  ghost predicate IsFirst(blocks: seq<DataBlock>, k: Key, e: Item) {
    && InBlocks(blocks, e) && !KeyLess(e.key, k)
    && forall d {:trigger InBlocks(blocks, d)} :: InBlocks(blocks, d) && !KeyLess(d.key, k) ==> !KeyLess(d.key, e.key)
  }

  lemma LastIsLast(b: DataBlock, x: Item)
    requires SortedBlock(b) && x in b
    ensures !KeyLess(b[|b| - 1].key, x.key)
  {
    var i :| 0 <= i < |b| && b[i] == x;
    KeyTotal(x.key, b[|b| - 1].key);
  }

  /** A block whose index key is before the sought key holds nothing at or after it. */
  lemma BlockBefore(key: Key, b: DataBlock, k: Key)
    requires SortedBlock(b) && Divides(key, b, []) && KeyLess(key, k)
    ensures AllBefore(b, k)
  {
    var last := b[|b| - 1];
    if key != last.key { KeyTrans(last.key, key, k); }
    forall x | x in b ensures KeyLess(x.key, k) {
      LastIsLast(b, x);
      KeyAtMostTrans(x.key, last.key, k);
    }
  }

  /** If the first item at or after `k` has its user key, it is in the block the index leads to. */
  lemma HomeOfFirst(blocks: seq<DataBlock>, offsets: seq<nat>, index: seq<IndexEntry>, k: Key, e: Item)
    requires |index| == |blocks| && BlocksInOrder(blocks) && Indexed(index, blocks, offsets)
    requires IsFirst(blocks, k, e) && e.key.user == k.user
    ensures SeekEntry(index, k) < |blocks| && e in blocks[SeekEntry(index, k)]
  {
    var i := SeekEntry(index, k);
    var j :| 0 <= j < |blocks| && e in blocks[j];
    assert SortedBlock(blocks[j]) && Divides(index[j].key, blocks[j], []);
    if j < i {
      BlockBefore(index[j].key, blocks[j], k);
    } else if i < j {
      NotInLater(blocks, offsets, index, k, e, i, j);
    }
  }

  lemma NotInLater(blocks: seq<DataBlock>, offsets: seq<nat>, index: seq<IndexEntry>, k: Key, e: Item, i: nat, j: nat)
    requires |index| == |blocks| && BlocksInOrder(blocks) && Indexed(index, blocks, offsets)
    requires i < j < |blocks| && !KeyLess(index[i].key, k) && e in blocks[j] && e.key.user == k.user
    ensures !IsFirst(blocks, k, e)
  {
    var key, b := index[i].key, blocks[i];
    assert Divides(key, b, blocks[j]) && Precedes(b, blocks[j]);
    if key == b[|b| - 1].key {
      assert b[|b| - 1] in b && InBlocks(blocks, b[|b| - 1]);
    }
  }

  /** The item the block seek ends on is the first of the whole table. */
  lemma HitIsFirst(blocks: seq<DataBlock>, offsets: seq<nat>, index: seq<IndexEntry>, k: Key, i: nat, q: nat)
    requires |index| == |blocks| && BlocksInOrder(blocks) && Indexed(index, blocks, offsets)
    requires i == SeekEntry(index, k) < |blocks| && q == Seek(blocks[i], k) < |blocks[i]|
    ensures IsFirst(blocks, k, blocks[i][q])
  {
    var e := blocks[i][q];
    assert SortedBlock(blocks[i]) && e in blocks[i];
    forall d | InBlocks(blocks, d) && !KeyLess(d.key, k) ensures !KeyLess(d.key, e.key) {
      var j :| 0 <= j < |blocks| && d in blocks[j];
      KeyTotal(d.key, e.key);
      if j < i {
        assert SortedBlock(blocks[j]) && Divides(index[j].key, blocks[j], []);
        BlockBefore(index[j].key, blocks[j], k);
      } else if i < j {
        assert Precedes(blocks[i], blocks[j]);
      } else {
        var p :| 0 <= p < |blocks[i]| && blocks[i][p] == d;
        assert q <= p;
      }
    }
  }

  /** A finished table: its blocks by offset, its index, its filter block. */
  datatype TableFile = TableFile(file: map<nat, DataBlock>, index: seq<IndexEntry>, filter: Option<Bytes>, policy: Policy)

  /** The filter block lets every key of every block through. */
  ghost predicate FilterSound(t: TableFile, blocks: seq<DataBlock>, offsets: seq<nat>)
    requires |offsets| == |blocks|
  {
    t.filter.Some? ==> forall i, x: Item {:trigger x in blocks[i]} :: 0 <= i < |blocks| && x in blocks[i] ==>
      KeyMayMatch(t.policy, t.filter.value, offsets[i], x.key.user)
  }

  /** What a lookup comes upon: one index seek, the filter, one block seek. */
  function Found(t: TableFile, k: Key): Option<Item> {
    var i := SeekEntry(t.index, k);
    if i == |t.index| || t.index[i].offset !in t.file then None
    else if t.filter.Some? && !KeyMayMatch(t.policy, t.filter.value, t.index[i].offset, k.user) then None
    else
      var block := t.file[t.index[i].offset];
      if Seek(block, k) < |block| then Some(block[Seek(block, k)]) else None
  }

  /** The filter says that the block which the index leads to does not have the key. */
  predicate RuledOut(t: TableFile, k: Key) {
    var i := SeekEntry(t.index, k);
    i < |t.index| && t.filter.Some? && !KeyMayMatch(t.policy, t.filter.value, t.index[i].offset, k.user)
  }

  /** What a lookup comes upon is the first item at or after the key, and it comes upon that item
      whenever it is of the same user key. */
  lemma FoundIsFirst(t: TableFile, k: Key, blocks: seq<DataBlock>, offsets: seq<nat>)
    requires Laid(blocks, offsets, t.index, t.file) && FilterSound(t, blocks, offsets)
    ensures Found(t, k).Some? ==> IsFirst(blocks, k, Found(t, k).value)
    ensures forall e :: IsFirst(blocks, k, e) && e.key.user == k.user ==> Found(t, k) == Some(e)
    ensures RuledOut(t, k) ==> Found(t, k).None?
  {
    var i := SeekEntry(t.index, k);
    forall e | IsFirst(blocks, k, e) && e.key.user == k.user ensures i < |blocks| && e in blocks[i] {
      HomeOfFirst(blocks, offsets, t.index, k, e);
    }
    if i < |t.index| {
      var block := blocks[i];
      var q := Seek(block, k);
      if q < |block| {
        HitIsFirst(blocks, offsets, t.index, k, i, q);
        FirstIsOne(blocks, k, i, block[q]);
      }
    }
  }

  /** Table::InternalGet. */
  method InternalGet(t: TableFile, k: Key, ghost blocks: seq<DataBlock>, ghost offsets: seq<nat>) returns (r: Option<Item>)
    requires Laid(blocks, offsets, t.index, t.file) && FilterSound(t, blocks, offsets)
    ensures r == Found(t, k) && (r.Some? ==> IsFirst(blocks, k, r.value)) && (RuledOut(t, k) ==> r.None?)
    ensures forall e :: IsFirst(blocks, k, e) && e.key.user == k.user ==> r == Some(e)
  {
    r := None;
    FoundIsFirst(t, k, blocks, offsets);
    var i := SeekEntry(t.index, k);
    if i < |t.index| {
      var offset := t.index[i].offset;
      if t.filter.Some? && !KeyMayMatch(t.policy, t.filter.value, offset, k.user) {
        return;
      }
      var block := t.file[offset];
      var q := Seek(block, k);
      if q < |block| {
        r := Some(block[q]);
      }
    }
  }

  lemma FirstIsOne(blocks: seq<DataBlock>, k: Key, i: nat, e: Item)
    requires BlocksInOrder(blocks) && i < |blocks| && e in blocks[i] && IsFirst(blocks, k, e)
    ensures forall d :: d in blocks[i] && IsFirst(blocks, k, d) ==> d == e
  {
    assert SortedBlock(blocks[i]);
    forall d | d in blocks[i] && IsFirst(blocks, k, d) ensures d == e {
      var p :| 0 <= p < |blocks[i]| && blocks[i][p] == d;
      var q :| 0 <= q < |blocks[i]| && blocks[i][q] == e;
      assert InBlocks(blocks, d) && InBlocks(blocks, e);
    }
  }

  // ---------- the builder ----------

  /** Nothing in the blocks is after `last`, and a shortened index key is before its user key. */
  ghost predicate UpTo(blocks: seq<DataBlock>, index: seq<IndexEntry>, last: Option<Key>) {
    && |index| <= |blocks|
    && (forall i, x: Item {:trigger x in blocks[i]} :: 0 <= i < |blocks| && x in blocks[i] ==> last.Some? && !KeyLess(last.value, x.key))
    && (forall i :: 0 <= i < |index| && blocks[i] != [] && index[i].key != blocks[i][|blocks[i]| - 1].key ==>
          last.Some? && Below(index[i].key.user, last.value.user))
  }

  /** The keys of each block are filed under its offset. */
  ghost predicate AllFiled(blocks: seq<DataBlock>, offsets: seq<nat>, added: set<Filing>) {
    |offsets| == |blocks| && forall i, x: Item {:trigger x in blocks[i]} :: 0 <= i < |blocks| && x in blocks[i] ==>
      Filing(offsets[i], x.key.user) in added
  }

  /** The current block with one more item. */
  function Grown(blocks: seq<DataBlock>, item: Item): seq<DataBlock>
    requires blocks != []
  {
    blocks[|blocks| - 1 := blocks[|blocks| - 1] + [item]]
  }

  lemma AfterAll(blocks: seq<DataBlock>, index: seq<IndexEntry>, last: Option<Key>, item: Item)
    requires UpTo(blocks, index, last) && (last.Some? ==> KeyLess(last.value, item.key))
    ensures forall i, x: Item {:trigger x in blocks[i]} :: 0 <= i < |blocks| && x in blocks[i] ==> KeyLess(x.key, item.key)
  {
    forall i, x: Item | 0 <= i < |blocks| && x in blocks[i] ensures KeyLess(x.key, item.key) {
      KeyAtMostTrans(x.key, last.value, item.key);
    }
  }

  lemma GrowOrdered(blocks: seq<DataBlock>, item: Item)
    requires blocks != [] && BlocksInOrder(blocks)
    requires forall i, x: Item {:trigger x in blocks[i]} :: 0 <= i < |blocks| && x in blocks[i] ==> KeyLess(x.key, item.key)
    ensures BlocksInOrder(Grown(blocks, item))
  {
    var g, n := Grown(blocks, item), |blocks| - 1;
    forall i | 0 <= i < |g| ensures SortedBlock(g[i]) {
      assert SortedBlock(blocks[i]);
      if i == n { assert forall j :: 0 <= j < |blocks[n]| ==> blocks[n][j] in blocks[n]; }
    }
    forall i, j | 0 <= i < j < |g| ensures Precedes(g[i], g[j]) {
      assert Precedes(blocks[i], blocks[j]);
    }
  }

  lemma GrowIndexed(blocks: seq<DataBlock>, offsets: seq<nat>, index: seq<IndexEntry>, last: Option<Key>, item: Item)
    requires |index| < |blocks| && Indexed(index, blocks, offsets) && UpTo(blocks, index, last)
    requires last.Some? ==> KeyLess(last.value, item.key)
    ensures Indexed(index, Grown(blocks, item), offsets)
  {
    var g := Grown(blocks, item);
    forall i | 0 <= i < |index| ensures Divides(index[i].key, g[i], []) {
      assert Divides(index[i].key, blocks[i], []);
    }
    forall i, j | 0 <= i < |index| && i < j < |g| ensures Divides(index[i].key, g[i], g[j]) {
      assert Divides(index[i].key, blocks[i], blocks[j]);
      if index[i].key != blocks[i][|blocks[i]| - 1].key && last.value.user != item.key.user {
        BelowTrans(index[i].key.user, last.value.user, item.key.user);
      }
    }
  }

  lemma GrowUpTo(blocks: seq<DataBlock>, index: seq<IndexEntry>, last: Option<Key>, item: Item)
    requires |index| < |blocks| && UpTo(blocks, index, last) && (last.Some? ==> KeyLess(last.value, item.key))
    ensures UpTo(Grown(blocks, item), index, Some(item.key))
  {
    var g: seq<DataBlock> := Grown(blocks, item);
    AfterAll(blocks, index, last, item);
    KeyTotal(item.key, item.key);
    forall i, x: Item | 0 <= i < |g| && x in g[i] ensures !KeyLess(item.key, x.key) {
      if x in blocks[i] { KeyTotal(x.key, item.key); }
    }
    forall i | 0 <= i < |index| && g[i] != [] && index[i].key != g[i][|g[i]| - 1].key ensures Below(index[i].key.user, item.key.user) {
      if last.value.user != item.key.user { BelowTrans(index[i].key.user, last.value.user, item.key.user); }
    }
  }

  /** The index entry written when the first item of the next block is known. */
  lemma EntryIndexed(blocks: seq<DataBlock>, offsets: seq<nat>, index: seq<IndexEntry>, entry: IndexEntry)
    requires Indexed(index, blocks, offsets)
    requires |index| + 1 == |offsets| <= |blocks| && entry.offset == offsets[|index|]
    requires Divides(entry.key, blocks[|index|], [])
    requires forall j {:trigger Divides(entry.key, blocks[|index|], blocks[j])} :: |index| < j < |blocks| ==>
               Divides(entry.key, blocks[|index|], blocks[j])
    ensures Indexed(index + [entry], blocks, offsets)
  {
    var more := index + [entry];
    forall i | 0 <= i < |more| ensures Divides(more[i].key, blocks[i], []) {
      if i < |index| { assert Divides(index[i].key, blocks[i], []); }
    }
    forall i, j | 0 <= i < |more| && i < j < |blocks| ensures Divides(more[i].key, blocks[i], blocks[j]) {
      if i < |index| { assert Divides(index[i].key, blocks[i], blocks[j]); }
    }
  }

  lemma EntryUpTo(blocks: seq<DataBlock>, index: seq<IndexEntry>, last: Key, entry: IndexEntry)
    requires UpTo(blocks, index, Some(last)) && |index| < |blocks| && blocks[|index|] != []
    requires entry.key == blocks[|index|][|blocks[|index|]| - 1].key || Below(entry.key.user, last.user)
    ensures UpTo(blocks, index + [entry], Some(last))
  {
  }

  /** Starting a new, empty block. */
  lemma FreshOrdered(blocks: seq<DataBlock>)
    requires BlocksInOrder(blocks)
    ensures BlocksInOrder(blocks + [[]])
  {
    var more := blocks + [[]];
    forall i | 0 <= i < |more| ensures SortedBlock(more[i]) {
      if i < |blocks| { assert SortedBlock(blocks[i]); }
    }
    forall i, j | 0 <= i < j < |more| ensures Precedes(more[i], more[j]) {
      if j < |blocks| { assert Precedes(blocks[i], blocks[j]); }
    }
  }

  lemma FreshIndexed(blocks: seq<DataBlock>, offsets: seq<nat>, index: seq<IndexEntry>, at: nat)
    requires |offsets| < |blocks| && Indexed(index, blocks, offsets)
    ensures Indexed(index, blocks + [[]], offsets + [at])
  {
    var more := blocks + [[]];
    forall i | 0 <= i < |index| ensures Divides(index[i].key, more[i], []) {
      assert Divides(index[i].key, blocks[i], []);
    }
    forall i, j | 0 <= i < |index| && i < j < |more| ensures Divides(index[i].key, more[i], more[j]) {
      assert Divides(index[i].key, blocks[i], []);
      if j < |blocks| { assert Divides(index[i].key, blocks[i], blocks[j]); }
    }
  }

  lemma FreshStored(blocks: seq<DataBlock>, offsets: seq<nat>, file: map<nat, DataBlock>, at: nat)
    requires |blocks| == |offsets| + 1 && Stored(blocks, offsets, file) && forall i :: 0 <= i < |offsets| ==> offsets[i] != at
    ensures Stored(blocks + [[]], offsets + [at], file[at := blocks[|offsets|]])
  {
  }

  lemma FreshUpTo(blocks: seq<DataBlock>, index: seq<IndexEntry>, last: Option<Key>)
    requires UpTo(blocks, index, last)
    ensures UpTo(blocks + [[]], index, last)
  {
  }

  lemma GrowFiled(blocks: seq<DataBlock>, offsets: seq<nat>, added: set<Filing>, item: Item)
    requires blocks != [] && AllFiled(blocks, offsets, added)
    ensures AllFiled(Grown(blocks, item), offsets, added + {Filing(offsets[|blocks| - 1], item.key.user)})
  {
    var g := Grown(blocks, item);
    forall i, x: Item | 0 <= i < |g| && x in g[i]
      ensures Filing(offsets[i], x.key.user) in added + {Filing(offsets[|blocks| - 1], item.key.user)}
    {
      assert x in blocks[i] || (i == |blocks| - 1 && x == item);
    }
  }

  lemma FreshFiled(blocks: seq<DataBlock>, offsets: seq<nat>, added: set<Filing>, at: nat)
    requires AllFiled(blocks, offsets, added)
    ensures AllFiled(blocks + [[]], offsets + [at], added)
  {
  }

  /** The index key of each block is the shortest that tells it from the first key of the next. */
  ghost predicate Separated(index: seq<IndexEntry>, blocks: seq<DataBlock>) {
    forall i {:trigger index[i]} :: 0 <= i < |index| && i + 1 < |blocks| && blocks[i] != [] && blocks[i + 1] != [] ==>
      IsSeparator(blocks[i][|blocks[i]| - 1].key, blocks[i + 1][0].key, index[i].key)
  }

  /** The last index key has no later block to stay short of. */
  ghost predicate EndsWell(blocks: seq<DataBlock>, index: seq<IndexEntry>) {
    |index| == |blocks| && (blocks != [] ==>
      var last := blocks[|blocks| - 1];
      last != [] && IsSuccessor(last[|last| - 1].key, index[|blocks| - 1].key))
  }

  lemma GrowSeparated(index: seq<IndexEntry>, blocks: seq<DataBlock>, item: Item)
    requires blocks != [] && Separated(index, blocks)
    requires blocks[|blocks| - 1] == [] ==> |index| < |blocks| - 1 || |blocks| == 1
    requires |index| < |blocks|
    ensures Separated(index, Grown(blocks, item))
  {
  }

  lemma EntrySeparated(index: seq<IndexEntry>, blocks: seq<DataBlock>, entry: IndexEntry)
    requires Separated(index, blocks)
    requires |index| + 1 < |blocks| && blocks[|index|] != [] && blocks[|index| + 1] != [] ==>
      IsSeparator(blocks[|index|][|blocks[|index|]| - 1].key, blocks[|index| + 1][0].key, entry.key)
    ensures Separated(index + [entry], blocks)
  {
  }

  class TableBuilder {
    const filter: FilterBlockBuilder
    var file: map<nat, DataBlock>        // the blocks written, by offset
    var offset: nat
    var data: DataBlock                  // the block being filled
    var lastKey: Option<Key>
    var pending: Option<nat>         // a block written whose index entry is still due
    var index: seq<IndexEntry>
    ghost var written: seq<DataBlock>
    ghost var offsets: seq<nat>

    ghost function Blocks(): seq<DataBlock>
      reads this
    {
      written + [data]
    }

    /** The blocks so far, in order, indexed but for the pending one. */
    ghost predicate Shape()
      reads this
    {
      && |offsets| == |written| && BlocksInOrder(Blocks()) && Stored(Blocks(), offsets, file)
      && Indexed(index, Blocks(), offsets) && UpTo(Blocks(), index, lastKey)
      && (forall i :: 0 <= i < |offsets| ==> offsets[i] < offset)
    }

    ghost predicate Valid()
      reads this, filter
    {
      && filter.Valid() && filter.block == offset && Shape()
      && AllFiled(Blocks(), offsets + [offset], filter.added)
      && (data != [] ==> lastKey == Some(data[|data| - 1].key))
      && Due() && Tight()
    }

    /** The index keys are as short as they can be; only an empty table has no block begun or due. */
    ghost predicate Tight()
      reads this
    {
      Separated(index, Blocks()) && (pending.None? && data == [] ==> written == [])
    }

    ghost predicate Due()
      reads this
    {
      if pending.None? then |index| == |written|
      else
        && data == [] && |index| + 1 == |written| == |offsets| && pending.value == offsets[|index|]
        && written[|index|] != [] && lastKey == Some(written[|index|][|written[|index|]| - 1].key)
    }

    constructor (filter: FilterBlockBuilder)
      requires filter.Valid() && filter.block == 0
      ensures Valid() && this.filter == filter && lastKey.None? && Blocks() == [[]]
    {
      this.filter := filter;
      file, offset, data, lastKey, pending, index := map[], 0, [], None, None, [];
      written, offsets := [], [];
    }

    /** Add, without the flush of a full block. */
    method Append(item: Item)
      requires Valid() && (lastKey.Some? ==> KeyLess(lastKey.value, item.key))
      modifies this, filter
      ensures Valid() && lastKey == Some(item.key) && Blocks() == Grown(old(Blocks()), item) && data != []
    {
      GrowFiled(Blocks(), offsets + [offset], filter.added, item);
      Take(item);
      filter.AddKey(item.key.user);
    }

    /** Puts the item in the current block. */
    method Take(item: Item)
      requires Shape() && Due() && Tight() && (lastKey.Some? ==> KeyLess(lastKey.value, item.key))
      modifies this
      ensures Shape() && Due() && Tight() && Blocks() == Grown(old(Blocks()), item) && data != []
      ensures offset == old(offset) && offsets == old(offsets) && lastKey == Some(item.key) == Some(data[|data| - 1].key)
    {
      ghost var bs, last := Blocks(), lastKey;
      AfterAll(bs, index, last, item);
      GrowOrdered(bs, item);
      GrowIndexed(bs, offsets, index, last, item);
      GrowUpTo(bs, index, last, item);
      GrowSeparated(index, bs, item);
      WriteDue(item);
      lastKey := Some(item.key);
      data := data + [item];
      assert Blocks() == Grown(bs, item);
    }

    /** Writes the index entry that is due, with a key short of the next block's first key. */
    method WriteDue(item: Item)
      requires Shape() && Due() && (lastKey.Some? ==> KeyLess(lastKey.value, item.key))
      requires Indexed(index, Grown(Blocks(), item), offsets) && UpTo(Grown(Blocks(), item), index, Some(item.key))
      requires Separated(index, Grown(Blocks(), item))
      modifies this`index, this`pending
      ensures pending.None? && |index| == |written| && Separated(index, Grown(Blocks(), item))
      ensures Indexed(index, Grown(Blocks(), item), offsets) && UpTo(Grown(Blocks(), item), index, Some(item.key))
    {
      hide Separated;
      hide Indexed;
      hide UpTo;
      hide BlocksInOrder;
      if pending.Some? {
        var sep := InternalSeparator(lastKey.value, item.key);
        ghost var g := Grown(Blocks(), item);
        assert g[|index|] == written[|index|] && g[|index| + 1] == [item];
        EntryIndexed(g, offsets, index, IndexEntry(sep, pending.value));
        EntrySeparated(index, g, IndexEntry(sep, pending.value));
        EntryUpTo(g, index, item.key, IndexEntry(sep, pending.value));
        index := index + [IndexEntry(sep, pending.value)];
        pending := None;
      }
    }

    /** Writes the block being filled; `size` is what it takes in the file, trailer included. */
    method Flush(size: nat)
      requires Valid() && size > 0
      modifies this, filter
      ensures Valid() && data == [] && lastKey == old(lastKey)
      ensures Blocks() == if old(data) == [] then old(Blocks()) else old(Blocks()) + [[]]
    {
      if data == [] {
        return;
      }
      FreshFiled(Blocks(), offsets + [offset], filter.added, offset + size);
      WriteBlock(size);
      filter.StartBlock(offset);
    }

    method WriteBlock(size: nat)
      requires Shape() && pending.None? && |index| == |written| && size > 0
      requires data != [] && lastKey == Some(data[|data| - 1].key) && Tight()
      modifies this
      ensures Shape() && Due() && Tight() && data == [] && lastKey == old(lastKey) && Blocks() == old(Blocks()) + [[]]
      ensures offset == old(offset) + size && offsets == old(offsets) + [old(offset)]
    {
      ghost var bs := Blocks();
      FreshOrdered(bs);
      FreshIndexed(bs, offsets, index, offset);
      FreshStored(bs, offsets, file, offset);
      FreshUpTo(bs, index, lastKey);
      file := file[offset := data];
      pending := Some(offset);
      written, offsets := written + [data], offsets + [offset];
      data := [];
      offset := offset + size;
      assert Blocks() == bs + [[]];
    }

    method Add(item: Item, full: bool, size: nat)
      requires Valid() && (lastKey.Some? ==> KeyLess(lastKey.value, item.key)) && size > 0
      modifies this, filter
      ensures Valid() && lastKey == Some(item.key)
      ensures forall e :: InBlocks(Blocks(), e) <==> InBlocks(old(Blocks()), e) || e == item
      ensures Blocks() == if full then Grown(old(Blocks()), item) + [[]] else Grown(old(Blocks()), item)
    {
      ghost var bs := Blocks();
      Append(item);
      GrownHolds(bs, item);
      FreshHolds(Blocks());
      if full {
        Flush(size);
      }
    }

    /** Writes the last block and its index entry. */
    method FinishBlocks(size: nat) returns (ghost blocks: seq<DataBlock>, ghost at: seq<nat>)
      requires Valid() && size > 0
      modifies this, filter
      ensures filter.Valid() && Laid(blocks, at, index, file) && AllFiled(blocks + [[]], at + [offset], filter.added)
      ensures forall e :: InBlocks(blocks, e) <==> InBlocks(old(Blocks()), e)
      ensures Separated(index, blocks) && EndsWell(blocks, index)
    {
      hide Separated;
      hide Indexed;
      hide UpTo;
      hide BlocksInOrder;
      hide IsSuccessor;
      hide AllFiled;
      hide Stored;
      FreshHolds(Blocks());
      Flush(size);
      blocks, at := written, offsets;
      WriteLast();
      FreshHolds(written);
      WithoutEmpty(written, offsets, index, file);
    }

    /** The finished table holds every item added, and InternalGet's requirements are met. */
    method Finish(size: nat) returns (t: TableFile, ghost blocks: seq<DataBlock>, ghost at: seq<nat>)
      requires Valid() && size > 0
      modifies this, filter
      ensures Laid(blocks, at, t.index, t.file)
      ensures forall e :: InBlocks(blocks, e) <==> InBlocks(old(Blocks()), e)
      ensures t.policy == filter.policy && t.filter.Some?
      ensures Separated(t.index, blocks) && EndsWell(blocks, t.index)
      ensures t.policy.Lawful() && |t.filter.value| < WORD ==> FilterSound(t, blocks, at)
    {
      blocks, at := FinishBlocks(size);
      ghost var added := filter.added;
      var contents := filter.Finish();
      t := TableFile(file, index, Some(contents), filter.policy);
      FiledIsSound(t, blocks, at, offset, added);
    }

    /** The index entry of the last block has no later block to stay short of. */
    method WriteLast()
      requires Shape() && Due() && Tight() && data == []
      modifies this`index, this`pending
      ensures |index| == |written| && Indexed(index, Blocks(), offsets) && Separated(index, written)
      ensures EndsWell(written, index)
    {
      if pending.Some? {
        var key := InternalSuccessor(lastKey.value);
        EntryIndexed(Blocks(), offsets, index, IndexEntry(key, pending.value));
        index := index + [IndexEntry(key, pending.value)];
        pending := None;
      }
    }
  }

  lemma GrownHolds(blocks: seq<DataBlock>, item: Item)
    requires blocks != []
    ensures forall e :: InBlocks(Grown(blocks, item), e) <==> InBlocks(blocks, e) || e == item
  {
    var g, n := Grown(blocks, item), |blocks| - 1;
    forall e ensures InBlocks(g, e) <==> InBlocks(blocks, e) || e == item {
      if i :| 0 <= i < |blocks| && e in blocks[i] { assert e in g[i]; }
      if e == item { assert e in g[n]; }
      if i :| 0 <= i < |g| && e in g[i] { assert e in blocks[i] || e == item; }
    }
  }

  /** An empty block holds nothing. */
  lemma FreshHolds(blocks: seq<DataBlock>)
    ensures forall e :: InBlocks(blocks + [[]], e) <==> InBlocks(blocks, e)
  {
    forall e | InBlocks(blocks, e) ensures InBlocks(blocks + [[]], e) {
      var i :| 0 <= i < |blocks| && e in blocks[i];
      assert e in (blocks + [[]])[i];
    }
  }

  lemma WithoutEmpty(blocks: seq<DataBlock>, offsets: seq<nat>, index: seq<IndexEntry>, file: map<nat, DataBlock>)
    requires |index| == |offsets| == |blocks|
    requires BlocksInOrder(blocks + [[]]) && Stored(blocks + [[]], offsets, file) && Indexed(index, blocks + [[]], offsets)
    ensures Laid(blocks, offsets, index, file)
  {
    var more := blocks + [[]];
    forall i | 0 <= i < |blocks| ensures SortedBlock(blocks[i]) && Divides(index[i].key, blocks[i], []) {
      assert SortedBlock(more[i]) && Divides(index[i].key, more[i], []);
    }
    forall i, j | 0 <= i < j < |blocks| ensures Precedes(blocks[i], blocks[j]) && Divides(index[i].key, blocks[i], blocks[j]) {
      assert Precedes(more[i], more[j]) && Divides(index[i].key, more[i], more[j]);
    }
  }

  lemma FiledIsSound(t: TableFile, blocks: seq<DataBlock>, offsets: seq<nat>, end: nat, added: set<Filing>)
    requires |offsets| == |blocks| && t.filter.Some? && AllFiled(blocks + [[]], offsets + [end], added)
    ensures (forall f :: f in added ==> KeyMayMatch(t.policy, t.filter.value, f.blockOffset, f.key)) ==> FilterSound(t, blocks, offsets)
  {
    forall i, x: Item | 0 <= i < |blocks| && x in blocks[i] ensures Filing(offsets[i], x.key.user) in added {
      assert x in (blocks + [[]])[i];
    }
  }
}
