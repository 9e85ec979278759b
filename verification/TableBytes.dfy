/** Tables as bytes (table/format.cc, table/table.cc, table/table_builder.cc): internal keys, block
    handles, raw blocks and the footer, and the point lookup over them with the iterators of real
    blocks. */
module TableBytes {
  import opened Coding
  import opened DbFormat
  import opened FilterBlock
  import opened Table
  import Block
  import Log

  // ---------- internal keys ----------

  /** AppendInternalKey: the user key and eight bytes of sequence number and type. */
  function KeyBytes(k: Key): Bytes { k.user + Fixed64(k.packed) }

  function ParseKey(b: Bytes): Key {
    if |b| < 8 then Key(b, 0) else Key(b[..|b| - 8], Decode64(b[|b| - 8..]))
  }

  lemma KeyRoundTrip(k: Key)
    requires k.packed < LONG
    ensures ParseKey(KeyBytes(k)) == k
  {
    var b := KeyBytes(k);
    Fixed64RoundTrip(k.packed);
    assert b[..|b| - 8] == k.user && b[|b| - 8..] == Fixed64(k.packed);
  }

  function InternalLess(a: Bytes, b: Bytes): bool { KeyLess(ParseKey(a), ParseKey(b)) }

  /** InternalKeyComparator on encoded keys. */
  function InternalOrder(): Block.Order { Block.Order(InternalLess) }

  lemma InternalOrderIsLawful()
    ensures InternalOrder().Lawful()
  {
    forall a, b ensures !(InternalLess(a, b) && InternalLess(b, a)) {
      KeyTotal(ParseKey(a), ParseKey(b));
    }
    forall a, b, c | InternalLess(a, b) && !InternalLess(c, b) ensures InternalLess(a, c) {
      KeyTotal(ParseKey(b), ParseKey(c));
      if ParseKey(b) != ParseKey(c) { KeyTrans(ParseKey(a), ParseKey(b), ParseKey(c)); }
    }
  }

  // ---------- data blocks as bytes ----------

  ghost predicate KeysFit(b: DataBlock) {
    forall i :: 0 <= i < |b| ==> b[i].key.packed < LONG
  }

  function PairOf(x: Item): Block.Pair { Block.Pair(KeyBytes(x.key), x.value) }

  function Pairs(b: DataBlock): (r: seq<Block.Pair>)
    ensures |r| == |b|
  {
    seq(|b|, i requires 0 <= i < |b| => PairOf(b[i]))
  }

  ghost predicate PlanFor(plan: Block.Plan, data: Bytes, b: DataBlock) {
    Block.PlanOk(plan) && plan.pairs == Pairs(b) && data == Block.Contents(plan)
  }

  /** The bytes are a block that holds the items. */
  ghost predicate HoldsBlock(data: Bytes, b: DataBlock) {
    |data| < WORD && exists plan :: PlanFor(plan, data, b)
  }

  lemma PairsSnoc(b: DataBlock, i: nat)
    requires i < |b|
    ensures Pairs(b[..i + 1]) == Pairs(b[..i]) + [Block.Pair(KeyBytes(b[i].key), b[i].value)]
  {
  }

  /** The data block that a builder makes of the items. */
  method BuildBlock(b: DataBlock, interval: nat) returns (data: Bytes)
    requires interval >= 1
    ensures |data| < WORD ==> HoldsBlock(data, b)
  {
    var builder := new Block.BlockBuilder(interval);
    for i := 0 to |b|
      invariant builder.Valid() && fresh(builder) && builder.plan.pairs == Pairs(b[..i])
    {
      PairsSnoc(b, i);
      builder.Add(KeyBytes(b[i].key), b[i].value);
    }
    data := builder.Finish();
    assert b[..|b|] == b;
    assert PlanFor(builder.plan, data, b);
  }

  lemma PairLess(b: DataBlock, i: nat, k: Key)
    requires KeysFit(b) && i < |b| && k.packed < LONG
    ensures InternalLess(Pairs(b)[i].key, KeyBytes(k)) <==> KeyLess(b[i].key, k)
  {
    KeyRoundTrip(b[i].key);
    KeyRoundTrip(k);
  }

  lemma PairsSorted(b: DataBlock)
    requires SortedBlock(b) && KeysFit(b)
    ensures Block.SortedBy(InternalOrder(), Pairs(b))
  {
    forall i, j | 0 <= i < j < |b| ensures InternalLess(Pairs(b)[i].key, Pairs(b)[j].key) {
      PairLess(b, i, b[j].key);
    }
  }

  /** A seek by encoded keys ends where a seek by keys does. */
  lemma SeeksAlike(b: DataBlock, k: Key, pos: nat)
    requires SortedBlock(b) && KeysFit(b) && k.packed < LONG && pos <= |b|
    requires Block.AllBelow(InternalOrder(), Pairs(b), pos, KeyBytes(k))
    requires pos < |b| ==> !InternalLess(Pairs(b)[pos].key, KeyBytes(k))
    ensures Seek(b, k) == pos
  {
    forall j | 0 <= j < pos ensures KeyLess(b[j].key, k) {
      assert InternalOrder().less(Pairs(b)[j].key, KeyBytes(k));
      PairLess(b, j, k);
    }
    if pos < |b| { PairLess(b, pos, k); }
  }

  /** Block::NewIterator, Seek, and what the iterator then shows. */
  method SeekInBlock(data: Bytes, k: Key, ghost b: DataBlock) returns (r: Option<Block.Pair>)
    requires HoldsBlock(data, b) && SortedBlock(b) && KeysFit(b) && k.packed < LONG
    ensures r == if Seek(b, k) < |b| then Some(PairOf(b[Seek(b, k)])) else None
  {
    ghost var plan :| PlanFor(plan, data, b);
    var it := new Block.BlockIter(data, InternalOrder(), plan);
    InternalOrderIsLawful();
    PairsSorted(b);
    it.Seek(KeyBytes(k));
    SeeksAlike(b, k, it.pos);
    Block.OffOrder(plan, it.pos, |b|);
    if it.current < it.restarts {
      r := Some(Block.Pair(it.key, data[it.valueStart..it.valueEnd]));
    } else {
      r := None;
    }
  }

  // ---------- block handles and the footer ----------

  datatype BlockHandle = BlockHandle(offset: nat, size: nat)

  predicate HandleOk(h: BlockHandle) { h.offset < LONG && h.size < LONG }

  function HandleBytes(h: BlockHandle): Bytes { Varint(h.offset) + Varint(h.size) }

  function GetHandle(b: Bytes, p: nat): (r: Parsed<BlockHandle>)
    ensures r.Parsed? ==> r.next <= |b|
  {
    var offset := GetVarint64(b, p);
    if offset.Nothing? then Failed
    else
      var size := GetVarint64(b, offset.next);
      if size.Nothing? then Failed else Parsed(BlockHandle(offset.value, size.value), size.next)
  }

  lemma ReadsHandle(b: Bytes, p: nat, h: BlockHandle)
    requires Has(b, p, HandleBytes(h)) && HandleOk(h)
    ensures GetHandle(b, p) == Parsed(h, p + |HandleBytes(h)|)
  {
    var q := p + |Varint(h.offset)|;
    ReadsLongThen(b, p, h.offset, Varint(h.size));
    ReadsLong(b, q, h.size);
    HandleParts(b, p, h, q, q + |Varint(h.size)|);
  }

  lemma HandleParts(b: Bytes, p: nat, h: BlockHandle, q: nat, next: nat)
    requires GetVarint64(b, p) == Got(h.offset, q) && GetVarint64(b, q) == Got(h.size, next)
    ensures GetHandle(b, p) == Parsed(h, next)
  {
  }

  lemma {:induction false} VarintShort(n: nat, k: nat)
    requires n < Capacity(k) && k > 0
    ensures |Varint(n)| <= k
  {
    if n >= 128 { VarintShort(n / 128, k - 1); }
  }

  lemma HandleShort(h: BlockHandle)
    requires HandleOk(h)
    ensures |HandleBytes(h)| <= 20
  {
    assert Capacity(3) == 2097152;
    assert Capacity(6) == 4398046511104;
    assert Capacity(9) == 9223372036854775808;
    VarintShort(h.offset, 10);
    VarintShort(h.size, 10);
  }

  const MAGIC: nat := 0xdb4775248b80fb57
  const FOOTER: nat := 48

  datatype Footer = Footer(metaindex: BlockHandle, index: BlockHandle)

  function Padding(n: nat): (r: Bytes)
    ensures |r| == n
  {
    seq(n, _ => 0)
  }

  /** Footer::EncodeTo: both handles, padding, and the magic number. */
  function FooterBytes(f: Footer): (r: Bytes)
    requires HandleOk(f.metaindex) && HandleOk(f.index)
    ensures |r| == FOOTER
  {
    HandleShort(f.metaindex);
    HandleShort(f.index);
    var handles := HandleBytes(f.metaindex) + HandleBytes(f.index);
    handles + Padding(40 - |handles|) + Fixed64(MAGIC)
  }

  /** Footer::DecodeFrom. */
  function GetFooter(b: Bytes): Option<Footer>
    requires |b| == FOOTER
  {
    if Decode64(b[40..]) != MAGIC then None
    else
      var metaindex := GetHandle(b, 0);
      if metaindex.Failed? then None
      else
        var index := GetHandle(b, metaindex.next);
        if index.Failed? then None else Some(Footer(metaindex.value, index.value))
  }

  lemma MagicWords(lo: nat, hi: nat)
    requires lo < WORD && lo + WORD * hi == MAGIC
    ensures lo == 0x8b80fb57 && hi == 0xdb477524
  {
  }

  /** A footer is accepted only with the magic number at its end, least significant byte first. */
  lemma FooterChecks(b: Bytes)
    requires |b| == 48 && GetFooter(b).Some?
    ensures Decode32(b[40..44]) == 0x8b80fb57 && Decode32(b[44..48]) == 0xdb477524
    ensures var metaindex := GetHandle(b, 0);
      metaindex.Parsed? && GetHandle(b, metaindex.next).Parsed?
      && GetFooter(b).value == Footer(metaindex.value, GetHandle(b, metaindex.next).value)
  {
    hide GetHandle;
    hide Decode32;
    var last := b[40..];
    assert last[..4] == b[40..44] && last[4..] == b[44..48];
    MagicWords(Decode32(b[40..44]), Decode32(b[44..48]));
  }

  lemma FooterRoundTrip(f: Footer)
    requires HandleOk(f.metaindex) && HandleOk(f.index)
    ensures GetFooter(FooterBytes(f)) == Some(f)
  {
    var b := FooterBytes(f);
    var first, second := HandleBytes(f.metaindex), HandleBytes(f.index);
    HandleShort(f.metaindex);
    HandleShort(f.index);
    Fixed64RoundTrip(MAGIC);
    assert b[40..] == Fixed64(MAGIC);
    assert Has(b, 0, first) && Has(b, |first|, second);
    ReadsHandle(b, 0, f.metaindex);
    ReadsHandle(b, |first|, f.index);
  }

  // ---------- raw blocks ----------

  /** A compressor, which may decline, and what undoes it. */
  datatype Codec = Codec(compress: Bytes -> Option<Bytes>, uncompress: Bytes -> Option<Bytes>) {
    ghost predicate Lawful() {
      forall raw :: compress(raw).Some? ==> uncompress(compress(raw).value) == Some(raw)
    }
  }

  const TRAILER: nat := 5
  const NO_COMPRESSION: Byte := 0
  const SNAPPY_COMPRESSION: Byte := 1

  /** The bytes a block takes in the file before its trailer, and their type: compressed only if that
      saves an eighth. */
  function Packed(codec: Codec, raw: Bytes): (Bytes, Byte) {
    var c := codec.compress(raw);
    if c.Some? && |c.value| < |raw| - |raw| / 8 then (c.value, SNAPPY_COMPRESSION) else (raw, NO_COMPRESSION)
  }

  /** WriteRawBlock: contents, type, and the seal of both. */
  function RawBlock(seal: Log.Seal, contents: Bytes, t: Byte): (r: Bytes)
    ensures |r| == |contents| + TRAILER
  {
    contents + [t] + seal.Made(contents + [t])
  }

  /** ReadBlock, with the seal verified or not. */
  function ReadBlock(seal: Log.Seal, codec: Codec, verify: bool, file: Bytes, h: BlockHandle): Option<Bytes> {
    var end := h.offset + h.size + TRAILER;
    if end > |file| then None
    else
      var data := file[h.offset..end];
      var contents := data[..h.size];
      if verify && !seal.accepts(data[..h.size + 1], data[h.size + 1..]) then None
      else if data[h.size] == NO_COMPRESSION then Some(contents)
      else if data[h.size] == SNAPPY_COMPRESSION then codec.uncompress(contents)
      else None
  }

  /** A block is handed out exactly if all of it and its trailer is in the file, the four bytes behind
      its type are accepted for contents and type or are not to be verified, and the type says that the
      contents are the block or uncompress to it. */
  lemma ReadBlockChecks(seal: Log.Seal, codec: Codec, verify: bool, file: Bytes, h: BlockHandle, raw: Bytes)
    ensures ReadBlock(seal, codec, verify, file, h) == Some(raw) <==>
      && h.offset + h.size + 5 <= |file|
      && var end := h.offset + h.size;
         && (verify ==> seal.accepts(file[h.offset..end + 1], file[end + 1..end + 5]))
         && ((file[end] == 0 && raw == file[h.offset..end])
             || (file[end] == 1 && codec.uncompress(file[h.offset..end]) == Some(raw)))
  {
    var end := h.offset + h.size;
    if end + 5 <= |file| {
      var data := file[h.offset..end + 5];
      assert data[..h.size] == file[h.offset..end] && data[..h.size + 1] == file[h.offset..end + 1];
      assert data[h.size + 1..] == file[end + 1..end + 5] && data[h.size] == file[end];
    }
  }

  /** A compressed block is kept only if that saves an eighth. */
  lemma PackedSaves(codec: Codec, raw: Bytes)
    ensures var c := codec.compress(raw);
      Packed(codec, raw) == if c.Some? && |c.value| + |raw| / 8 < |raw| then (c.value, 1) else (raw, 0)
  {
  }

  /** A block is read back from where it was written. */
  lemma ReadsRawBlock(seal: Log.Seal, codec: Codec, verify: bool, file: Bytes, offset: nat, raw: Bytes)
    requires seal.Lawful() && codec.Lawful()
    requires Has(file, offset, RawBlock(seal, Packed(codec, raw).0, Packed(codec, raw).1))
    ensures ReadBlock(seal, codec, verify, file, BlockHandle(offset, |Packed(codec, raw).0|)) == Some(raw)
  {
    var contents, t := Packed(codec, raw).0, Packed(codec, raw).1;
    var data := RawBlock(seal, contents, t);
    assert data[..|contents|] == contents && data[|contents|] == t;
    assert data[..|contents| + 1] == contents + [t] && data[|contents| + 1..] == seal.Made(contents + [t]);
    assert seal.accepts(contents + [t], seal.make(contents + [t]));
  }

  // ---------- the point lookup ----------

  /** The index block: each key with the handle of its block. */
  function IndexBlock(index: seq<IndexEntry>, handles: seq<BlockHandle>): (r: DataBlock)
    requires |index| == |handles|
    ensures |r| == |index|
  {
    seq(|index|, i requires 0 <= i < |index| => Item(index[i].key, HandleBytes(handles[i])))
  }

  /** An open table: the file, and the contents of its index and filter blocks. */
  datatype OpenTable = OpenTable(file: Bytes, index: Bytes, filter: Option<Bytes>, policy: Policy,
                                 seal: Log.Seal, codec: Codec, verify: bool)

  /** The block behind an index entry can be read, and holds what it should. */
  ghost predicate ReadsEntry(o: OpenTable, t: TableFile, entry: IndexEntry, h: BlockHandle) {
    && h.offset == entry.offset && HandleOk(h) && entry.key.packed < LONG && entry.offset in t.file
    && KeysFit(t.file[entry.offset])
    && var data := ReadBlock(o.seal, o.codec, o.verify, o.file, h);
       data.Some? && HoldsBlock(data.value, t.file[entry.offset])
  }

  /** The open table stands for the table that the builder specified. */
  ghost predicate Stands(o: OpenTable, t: TableFile, handles: seq<BlockHandle>) {
    && |handles| == |t.index| && o.filter == t.filter && o.policy == t.policy
    && HoldsBlock(o.index, IndexBlock(t.index, handles))
    && forall i {:trigger ReadsEntry(o, t, t.index[i], handles[i])} :: 0 <= i < |t.index| ==> ReadsEntry(o, t, t.index[i], handles[i])
  }

  lemma {:induction false} IndexSeeks(index: seq<IndexEntry>, handles: seq<BlockHandle>, k: Key)
    requires |index| == |handles|
    ensures Seek(IndexBlock(index, handles), k) == SeekEntry(index, k)
  {
    if index != [] {
      assert IndexBlock(index, handles)[1..] == IndexBlock(index[1..], handles[1..]);
      IndexSeeks(index[1..], handles[1..], k);
    }
  }

  /** Index keys increase. */
  lemma IndexSorted(blocks: seq<DataBlock>, offsets: seq<nat>, index: seq<IndexEntry>, handles: seq<BlockHandle>)
    requires |index| == |blocks| == |handles| && BlocksInOrder(blocks) && Indexed(index, blocks, offsets)
    ensures SortedBlock(IndexBlock(index, handles))
  {
    forall i, j | 0 <= i < j < |index| ensures KeyLess(index[i].key, index[j].key) {
      var y := blocks[j][|blocks[j]| - 1];
      assert y in blocks[j] && blocks[i][|blocks[i]| - 1] in blocks[i];
      assert Precedes(blocks[i], blocks[j]) && Divides(index[i].key, blocks[i], blocks[j]) && Divides(index[j].key, blocks[j], []);
      if index[j].key != y.key { KeyTrans(index[i].key, y.key, index[j].key); }
    }
  }

  lemma IndexFits(o: OpenTable, t: TableFile, handles: seq<BlockHandle>)
    requires Stands(o, t, handles)
    ensures KeysFit(IndexBlock(t.index, handles))
  {
    forall i | 0 <= i < |t.index| ensures t.index[i].key.packed < LONG {
      assert ReadsEntry(o, t, t.index[i], handles[i]);
    }
  }

  /** Table::InternalGet over bytes: it hands out what the lookup in the specified table finds. */
  method InternalGet(o: OpenTable, k: Key, ghost t: TableFile, ghost handles: seq<BlockHandle>,
                     ghost blocks: seq<DataBlock>, ghost offsets: seq<nat>) returns (r: Option<Block.Pair>)
    requires Stands(o, t, handles) && Laid(blocks, offsets, t.index, t.file) && k.packed < LONG
    ensures r == match Found(t, k) case None => None case Some(x) => Some(PairOf(x))
    ensures FilterSound(t, blocks, offsets) ==>
              forall e :: IsFirst(blocks, k, e) && e.key.user == k.user ==> r == Some(PairOf(e))
  {
    r := None;
    if FilterSound(t, blocks, offsets) { FoundIsFirst(t, k, blocks, offsets); }
    IndexSorted(blocks, offsets, t.index, handles);
    IndexFits(o, t, handles);
    IndexSeeks(t.index, handles, k);
    ghost var i := SeekEntry(t.index, k);
    var entry := SeekInBlock(o.index, k, IndexBlock(t.index, handles));
    if entry.None? {
      return;
    }
    assert ReadsEntry(o, t, t.index[i], handles[i]);
    ReadsHandle(entry.value.value, 0, handles[i]);
    var h := GetHandle(entry.value.value, 0).value;
    if o.filter.Some? && !KeyMayMatch(o.policy, o.filter.value, h.offset, k.user) {
      return;
    }
    var data := ReadBlock(o.seal, o.codec, o.verify, o.file, h);
    assert SortedBlock(blocks[i]);
    r := SeekInBlock(data.value, k, t.file[t.index[i].offset]);
  }
}
