/** The bytes of a version edit (db/version_edit.h, db/version_edit.cc): a sequence of tagged fields,
    and the loop that reads them back. */
module EditCodec {
  import opened Coding
  import opened DbFormat

  /** FileMetaData: the end points are encoded internal keys. */
  datatype Meta = Meta(number: nat, size: nat, smallest: Bytes, largest: Bytes)

  datatype Pointer = Pointer(level: nat, key: Bytes)
  datatype Doomed = Doomed(level: nat, number: nat)
  datatype NewFile = NewFile(level: nat, meta: Meta)

  /** The deleted files form a set that is listed in order. */
  datatype VersionEdit = VersionEdit(comparator: Option<Bytes>, logNumber: Option<nat>, prevLogNumber: Option<nat>,
                                     nextFile: Option<nat>, lastSequence: Option<nat>,
                                     pointers: seq<Pointer>, deleted: seq<Doomed>, added: seq<NewFile>)

  datatype Result<+T, +E> = Ok(value: T) | Err(error: E)

  const Empty: VersionEdit := VersionEdit(None, None, None, None, None, [], [], [])

  // ---------- tagged fields ----------

  datatype Counter = LogNumber | PrevLogNumber | NextFile | LastSequence

  datatype Item =
    | Comparator(name: Bytes)
    | Number(counter: Counter, number: nat)
    | CompactPointer(pointer: Pointer)
    | DeletedFile(file: Doomed)
    | AddedFile(added: NewFile)

  function CounterTag(c: Counter): nat {
    match c
    case LogNumber => 2
    case NextFile => 3
    case LastSequence => 4
    case PrevLogNumber => 9
  }

  function Tag(item: Item): nat {
    match item
    case Comparator(_) => 1
    case Number(counter, _) => CounterTag(counter)
    case CompactPointer(_) => 5
    case DeletedFile(_) => 6
    case AddedFile(_) => 7
  }

  function Body(item: Item): Bytes {
    match item
    case Comparator(name) => Prefixed(name)
    case CompactPointer(p) => Varint(p.level) + Prefixed(p.key)
    case DeletedFile(d) => Varint(d.level) + Varint(d.number)
    case AddedFile(n) => Varint(n.level) + MetaBytes(n.meta)
    case Number(_, n) => Varint(n)
  }

  function MetaBytes(m: Meta): Bytes {
    Varint(m.number) + (Varint(m.size) + KeyBytes(m.smallest, m.largest))
  }

  function KeyBytes(smallest: Bytes, largest: Bytes): Bytes { Prefixed(smallest) + Prefixed(largest) }

  function ItemBytes(item: Item): Bytes { Varint(Tag(item)) + Body(item) }

  function Bytewise(items: seq<Item>): Bytes {
    if items == [] then [] else ItemBytes(items[0]) + Bytewise(items[1..])
  }

  function Opt(o: Option<nat>, counter: Counter): seq<Item> {
    if o.Some? then [Number(counter, o.value)] else []
  }

  function Pointers(ps: seq<Pointer>): (r: seq<Item>)
    ensures |r| == |ps|
  {
    seq(|ps|, i requires 0 <= i < |ps| => CompactPointer(ps[i]))
  }

  function Deletions(ds: seq<Doomed>): (r: seq<Item>)
    ensures |r| == |ds|
  {
    seq(|ds|, i requires 0 <= i < |ds| => DeletedFile(ds[i]))
  }

  function Additions(ns: seq<NewFile>): (r: seq<Item>)
    ensures |r| == |ns|
  {
    seq(|ns|, i requires 0 <= i < |ns| => AddedFile(ns[i]))
  }

  /** The fields of an edit without its lists. */
  function Header(e: VersionEdit): seq<Item> {
    (if e.comparator.Some? then [Comparator(e.comparator.value)] else [])
    + Opt(e.logNumber, LogNumber) + Opt(e.prevLogNumber, PrevLogNumber)
    + Opt(e.nextFile, NextFile) + Opt(e.lastSequence, LastSequence)
  }

  function Items(e: VersionEdit): seq<Item> {
    Header(e) + Pointers(e.pointers) + Deletions(e.deleted) + Additions(e.added)
  }

  function Encoded(e: VersionEdit): Bytes { Bytewise(Items(e)) }

  // ---------- what can be encoded ----------

  predicate KeyOk(s: Bytes) { s != [] && |s| < WORD }

  predicate MetaOk(m: Meta) {
    m.number < LONG && m.size < LONG && KeyOk(m.smallest) && KeyOk(m.largest)
  }

  /** Numbers are 64 bits wide, lengths 32, levels exist and internal keys are not empty. */
  predicate Sized(item: Item) {
    match item
    case Comparator(name) => Short(name)
    case CompactPointer(p) => p.level < NUM_LEVELS && KeyOk(p.key)
    case DeletedFile(d) => d.level < NUM_LEVELS && d.number < LONG
    case AddedFile(n) => n.level < NUM_LEVELS && MetaOk(n.meta)
    case Number(_, n) => n < LONG
  }

  /** The order of std::pair. */
  predicate Precedes(a: Doomed, b: Doomed) { a.level < b.level || (a.level == b.level && a.number < b.number) }

  ghost predicate Listed(ds: seq<Doomed>) {
    forall i, j :: 0 <= i < j < |ds| ==> Precedes(ds[i], ds[j])
  }

  predicate CounterOk(o: Option<nat>) { o.Some? ==> o.value < LONG }

  /** An edit that fits the format. */
  ghost predicate Encodable(e: VersionEdit) {
    && (e.comparator.Some? ==> Short(e.comparator.value))
    && CounterOk(e.logNumber) && CounterOk(e.prevLogNumber) && CounterOk(e.nextFile) && CounterOk(e.lastSequence)
    && (forall p {:trigger CompactPointer(p)} {:trigger p in e.pointers} :: p in e.pointers ==> Sized(CompactPointer(p)))
    && (forall d {:trigger DeletedFile(d)} {:trigger d in e.deleted} :: d in e.deleted ==> Sized(DeletedFile(d)))
    && (forall n {:trigger AddedFile(n)} {:trigger n in e.added} :: n in e.added ==> Sized(AddedFile(n)))
    && Listed(e.deleted)
  }

  ghost predicate AllSized(items: seq<Item>) { forall item :: item in items ==> Sized(item) }

  lemma ItemsAreSized(e: VersionEdit)
    requires Encodable(e)
    ensures AllSized(Items(e))
  {
    assert AllSized(Header(e));
    assert AllSized(Pointers(e.pointers)) by {
      forall i | 0 <= i < |e.pointers| ensures Sized(Pointers(e.pointers)[i]) { assert e.pointers[i] in e.pointers; }
    }
    assert AllSized(Deletions(e.deleted)) by {
      forall i | 0 <= i < |e.deleted| ensures Sized(Deletions(e.deleted)[i]) { assert e.deleted[i] in e.deleted; }
    }
    assert AllSized(Additions(e.added)) by {
      forall i | 0 <= i < |e.added| ensures Sized(Additions(e.added)[i]) { assert e.added[i] in e.added; }
    }
  }

  // ---------- EncodeTo ----------

  lemma BytewiseSnoc(items: seq<Item>, item: Item)
    ensures Bytewise(items + [item]) == Bytewise(items) + ItemBytes(item)
  {
    if items == [] {
      assert ([] + [item])[1..] == [];
    } else {
      BytewiseSnoc(items[1..], item);
      assert (items + [item])[1..] == items[1..] + [item];
      assert ItemBytes(items[0]) + (Bytewise(items[1..]) + ItemBytes(item))
          == ItemBytes(items[0]) + Bytewise(items[1..]) + ItemBytes(item);
    }
  }

  lemma BytewiseStep(front: seq<Item>, more: seq<Item>, i: nat)
    requires i < |more|
    ensures Bytewise(front + more[..i + 1]) == Bytewise(front + more[..i]) + ItemBytes(more[i])
  {
    assert front + more[..i + 1] == front + more[..i] + [more[i]];
    BytewiseSnoc(front + more[..i], more[i]);
  }

  /** Appends fields to a string of fields. */
  method PutAll(dst: Bytes, ghost front: seq<Item>, more: seq<Item>) returns (dst': Bytes)
    requires dst == Bytewise(front)
    ensures dst' == Bytewise(front + more)
  {
    dst' := dst;
    assert front + more[..0] == front;
    for i := 0 to |more|
      invariant dst' == Bytewise(front + more[..i])
    {
      BytewiseStep(front, more, i);
      dst' := dst' + ItemBytes(more[i]);
    }
    assert more[..|more|] == more;
  }

  method EncodeTo(e: VersionEdit) returns (dst: Bytes)
    ensures dst == Encoded(e)
  {
    dst := PutAll([], [], Header(e));
    assert [] + Header(e) == Header(e);
    dst := PutAll(dst, Header(e), Pointers(e.pointers));
    dst := PutAll(dst, Header(e) + Pointers(e.pointers), Deletions(e.deleted));
    dst := PutAll(dst, Header(e) + Pointers(e.pointers) + Deletions(e.deleted), Additions(e.added));
  }

  // ---------- reading fields ----------

  function GetInternalKey(b: Bytes, p: nat): (r: Parsed<Bytes>)
    ensures r.Parsed? ==> p < r.next <= |b| && KeyOk(r.value)
  {
    var s := GetSlice(b, p);
    if s.Failed? || s.value == [] then Failed else s
  }

  function GetLevel(b: Bytes, p: nat): (r: Got)
    ensures r.Got? ==> p < r.next <= |b| && r.value < NUM_LEVELS
  {
    var r := GetVarint32(b, p, |b|);
    if r.Got? && r.value < NUM_LEVELS then r else Nothing
  }

  function GetPointer(b: Bytes, p: nat): (r: Parsed<Pointer>)
    ensures r.Parsed? ==> p < r.next <= |b| && r.value.level < NUM_LEVELS && KeyOk(r.value.key)
  {
    var level := GetLevel(b, p);
    if level.Nothing? then Failed
    else
      var key := GetInternalKey(b, level.next);
      if key.Failed? then Failed else Parsed(Pointer(level.value, key.value), key.next)
  }

  function GetDoomed(b: Bytes, p: nat): (r: Parsed<Doomed>)
    ensures r.Parsed? ==> p < r.next <= |b| && r.value.level < NUM_LEVELS && r.value.number < LONG
  {
    var level := GetLevel(b, p);
    if level.Nothing? then Failed
    else
      var number := GetVarint64(b, level.next);
      if number.Nothing? then Failed else Parsed(Doomed(level.value, number.value), number.next)
  }

  function GetKeys(b: Bytes, p: nat): (r: Parsed<(Bytes, Bytes)>)
    ensures r.Parsed? ==> p < r.next <= |b| && KeyOk(r.value.0) && KeyOk(r.value.1)
  {
    var smallest := GetInternalKey(b, p);
    if smallest.Failed? then Failed
    else
      var largest := GetInternalKey(b, smallest.next);
      if largest.Failed? then Failed else Parsed((smallest.value, largest.value), largest.next)
  }

  function GetMeta(b: Bytes, p: nat): (r: Parsed<Meta>)
    ensures r.Parsed? ==> p < r.next <= |b| && MetaOk(r.value)
  {
    var number := GetVarint64(b, p);
    if number.Nothing? then Failed
    else
      var size := GetVarint64(b, number.next);
      if size.Nothing? then Failed
      else
        var keys := GetKeys(b, size.next);
        if keys.Failed? then Failed
        else Parsed(Meta(number.value, size.value, keys.value.0, keys.value.1), keys.next)
  }

  function GetNewFile(b: Bytes, p: nat): (r: Parsed<NewFile>)
    ensures r.Parsed? ==> p < r.next <= |b| && r.value.level < NUM_LEVELS && MetaOk(r.value.meta)
  {
    var level := GetLevel(b, p);
    if level.Nothing? then Failed
    else
      var meta := GetMeta(b, level.next);
      if meta.Failed? then Failed else Parsed(NewFile(level.value, meta.value), meta.next)
  }

  datatype Complaint =
    | ComparatorName | LogNumberField | PrevLogNumberField | NextFileField | LastSequenceField
    | PointerField | DeletedField | NewFileField | UnknownTag | InvalidTag

  /** What one turn of DecodeFrom's loop comes upon. */
  datatype Turn = End | Bad(complaint: Complaint) | Field(item: Item, next: nat)

  function Complain(counter: Counter): Complaint {
    match counter
    case LogNumber => LogNumberField
    case PrevLogNumber => PrevLogNumberField
    case NextFile => NextFileField
    case LastSequence => LastSequenceField
  }

  function CounterField(b: Bytes, p: nat, counter: Counter): Turn {
    var r := GetVarint64(b, p);
    if r.Nothing? then Bad(Complain(counter)) else Field(Number(counter, r.value), r.next)
  }

  /** The switch over tags. */
  function FieldOf(b: Bytes, tag: nat, p: nat): Turn {
    match tag
    case 1 => (var r := GetSlice(b, p); if r.Failed? then Bad(ComparatorName) else Field(Comparator(r.value), r.next))
    case 2 => CounterField(b, p, LogNumber)
    case 3 => CounterField(b, p, NextFile)
    case 4 => CounterField(b, p, LastSequence)
    case 5 => (var r := GetPointer(b, p); if r.Failed? then Bad(PointerField) else Field(CompactPointer(r.value), r.next))
    case 6 => (var r := GetDoomed(b, p); if r.Failed? then Bad(DeletedField) else Field(DeletedFile(r.value), r.next))
    case 7 => (var r := GetNewFile(b, p); if r.Failed? then Bad(NewFileField) else Field(AddedFile(r.value), r.next))
    case 9 => CounterField(b, p, PrevLogNumber)
    case _ => Bad(UnknownTag)
  }

  function NextField(b: Bytes, p: nat): (r: Turn)
    requires p <= |b|
    ensures r.Field? ==> p < r.next <= |b| && Sized(r.item)
  {
    var tag := GetVarint32(b, p, |b|);
    if tag.Nothing? then if p == |b| then End else Bad(InvalidTag)
    else FieldOf(b, tag.value, tag.next)
  }

  /** Insertion into the set of deleted files. */
  function Mark(ds: seq<Doomed>, d: Doomed): seq<Doomed> {
    if ds == [] || Precedes(d, ds[0]) then [d] + ds
    else if ds[0] == d then ds
    else [ds[0]] + Mark(ds[1..], d)
  }

  function RecordCounter(e: VersionEdit, counter: Counter, n: nat): VersionEdit {
    match counter
    case LogNumber => e.(logNumber := Some(n))
    case PrevLogNumber => e.(prevLogNumber := Some(n))
    case NextFile => e.(nextFile := Some(n))
    case LastSequence => e.(lastSequence := Some(n))
  }

  /** What a field adds to the edit. */
  function Record(e: VersionEdit, item: Item): VersionEdit {
    match item
    case Comparator(name) => e.(comparator := Some(name))
    case Number(counter, n) => RecordCounter(e, counter, n)
    case CompactPointer(p) => e.(pointers := e.pointers + [p])
    case DeletedFile(d) => e.(deleted := Mark(e.deleted, d))
    case AddedFile(n) => e.(added := e.added + [n])
  }

  /** What is left of the string, read into the edit. */
  function DecodedFrom(b: Bytes, p: nat, e: VersionEdit): Result<VersionEdit, Complaint>
    requires p <= |b|
    decreases |b| - p
  {
    match NextField(b, p)
    case End => Ok(e)
    case Bad(complaint) => Err(complaint)
    case Field(item, next) => DecodedFrom(b, next, Record(e, item))
  }

  function Decoded(b: Bytes): Result<VersionEdit, Complaint> { DecodedFrom(b, 0, Empty) }

  method DecodeFrom(src: Bytes) returns (r: Result<VersionEdit, Complaint>)
    ensures r == Decoded(src)
  {
    var e, p := Empty, 0;
    while true
      invariant 0 <= p <= |src| && Decoded(src) == DecodedFrom(src, p, e)
      decreases |src| - p
    {
      match NextField(src, p) {
        case End => return Ok(e);
        case Bad(complaint) => return Err(complaint);
        case Field(item, next) => e, p := Record(e, item), next;
      }
    }
  }

  // ---------- reading back what was written ----------

  lemma ReadsLevel(b: Bytes, p: nat, level: nat, rest: Bytes)
    requires Has(b, p, Varint(level) + rest) && level < NUM_LEVELS
    ensures GetLevel(b, p) == Got(level, p + |Varint(level)|) && Has(b, p + |Varint(level)|, rest)
  {
    HasSplit(b, p, Varint(level), rest);
    ReadsWord(b, p, level);
  }

  lemma ReadsKey(b: Bytes, p: nat, key: Bytes)
    requires Has(b, p, Prefixed(key)) && KeyOk(key)
    ensures GetInternalKey(b, p) == Parsed(key, p + |Prefixed(key)|)
  {
    ReadsSlice(b, p, key);
  }

  lemma KeyParts(b: Bytes, p: nat, smallest: Bytes, largest: Bytes, q: nat, next: nat)
    requires GetInternalKey(b, p) == Parsed(smallest, q) && GetInternalKey(b, q) == Parsed(largest, next)
    ensures GetKeys(b, p) == Parsed((smallest, largest), next)
  {
  }

  lemma ReadsKeys(b: Bytes, p: nat, smallest: Bytes, largest: Bytes)
    requires Has(b, p, KeyBytes(smallest, largest)) && KeyOk(smallest) && KeyOk(largest)
    ensures GetKeys(b, p) == Parsed((smallest, largest), p + |KeyBytes(smallest, largest)|)
  {
    var q := p + |Prefixed(smallest)|;
    HasSplit(b, p, Prefixed(smallest), Prefixed(largest));
    ReadsKey(b, p, smallest);
    ReadsKey(b, q, largest);
    KeyParts(b, p, smallest, largest, q, q + |Prefixed(largest)|);
  }

  lemma MetaParts(b: Bytes, p: nat, m: Meta, q: nat, r: nat, next: nat)
    requires GetVarint64(b, p) == Got(m.number, q) && GetVarint64(b, q) == Got(m.size, r)
    requires GetKeys(b, r) == Parsed((m.smallest, m.largest), next)
    ensures GetMeta(b, p) == Parsed(m, next)
  {
  }

  lemma ReadsMeta(b: Bytes, p: nat, m: Meta)
    requires Has(b, p, MetaBytes(m)) && MetaOk(m)
    ensures GetMeta(b, p) == Parsed(m, p + |MetaBytes(m)|)
  {
    var keys := KeyBytes(m.smallest, m.largest);
    var q := p + |Varint(m.number)|;
    var r := q + |Varint(m.size)|;
    ReadsLongThen(b, p, m.number, Varint(m.size) + keys);
    ReadsLongThen(b, q, m.size, keys);
    ReadsKeys(b, r, m.smallest, m.largest);
    MetaParts(b, p, m, q, r, r + |keys|);
  }

  lemma NewFileParts(b: Bytes, p: nat, n: NewFile, q: nat, next: nat)
    requires GetLevel(b, p) == Got(n.level, q) && GetMeta(b, q) == Parsed(n.meta, next)
    ensures GetNewFile(b, p) == Parsed(n, next)
  {
  }

  lemma PointerParts(b: Bytes, p: nat, ptr: Pointer, q: nat, next: nat)
    requires GetLevel(b, p) == Got(ptr.level, q) && GetInternalKey(b, q) == Parsed(ptr.key, next)
    ensures GetPointer(b, p) == Parsed(ptr, next)
  {
  }

  lemma ReadsPointer(b: Bytes, p: nat, ptr: Pointer)
    requires Has(b, p, Varint(ptr.level) + Prefixed(ptr.key)) && ptr.level < NUM_LEVELS && KeyOk(ptr.key)
    ensures GetPointer(b, p) == Parsed(ptr, p + |Varint(ptr.level) + Prefixed(ptr.key)|)
  {
    var q := p + |Varint(ptr.level)|;
    ReadsLevel(b, p, ptr.level, Prefixed(ptr.key));
    ReadsKey(b, q, ptr.key);
    PointerParts(b, p, ptr, q, q + |Prefixed(ptr.key)|);
  }

  lemma DoomedParts(b: Bytes, p: nat, d: Doomed, q: nat, next: nat)
    requires GetLevel(b, p) == Got(d.level, q) && GetVarint64(b, q) == Got(d.number, next)
    ensures GetDoomed(b, p) == Parsed(d, next)
  {
  }

  lemma ReadsDoomed(b: Bytes, p: nat, d: Doomed)
    requires Has(b, p, Varint(d.level) + Varint(d.number)) && d.level < NUM_LEVELS && d.number < LONG
    ensures GetDoomed(b, p) == Parsed(d, p + |Varint(d.level) + Varint(d.number)|)
  {
    var q := p + |Varint(d.level)|;
    ReadsLevel(b, p, d.level, Varint(d.number));
    ReadsLong(b, q, d.number);
    DoomedParts(b, p, d, q, q + |Varint(d.number)|);
  }

  lemma ReadsNewFile(b: Bytes, p: nat, n: NewFile)
    requires Has(b, p, Varint(n.level) + MetaBytes(n.meta)) && n.level < NUM_LEVELS && MetaOk(n.meta)
    ensures GetNewFile(b, p) == Parsed(n, p + |Varint(n.level) + MetaBytes(n.meta)|)
  {
    var q := p + |Varint(n.level)|;
    ReadsLevel(b, p, n.level, MetaBytes(n.meta));
    ReadsMeta(b, q, n.meta);
    NewFileParts(b, p, n, q, q + |MetaBytes(n.meta)|);
  }

  lemma ReadsFile(b: Bytes, p: nat, item: Item)
    requires Has(b, p, Body(item)) && Sized(item) && (item.DeletedFile? || item.AddedFile?)
    ensures FieldOf(b, Tag(item), p) == Field(item, p + |Body(item)|)
  {
    if item.DeletedFile? { ReadsDoomed(b, p, item.file); } else { ReadsNewFile(b, p, item.added); }
  }

  lemma ReadsBody(b: Bytes, p: nat, item: Item)
    requires Has(b, p, Body(item)) && Sized(item)
    ensures FieldOf(b, Tag(item), p) == Field(item, p + |Body(item)|)
  {
    match item
    case Comparator(name) => ReadsSlice(b, p, name);
    case Number(_, n) => ReadsLong(b, p, n);
    case CompactPointer(ptr) => ReadsPointer(b, p, ptr);
    case _ => ReadsFile(b, p, item);
  }

  /** A field is read back where it was written. */
  lemma ReadsItem(b: Bytes, p: nat, item: Item)
    requires Has(b, p, ItemBytes(item)) && Sized(item)
    ensures NextField(b, p) == Field(item, p + |ItemBytes(item)|)
  {
    HasSplit(b, p, Varint(Tag(item)), Body(item));
    ReadsWord(b, p, Tag(item));
    ReadsBody(b, p + |Varint(Tag(item))|, item);
  }

  function RecordAll(e: VersionEdit, items: seq<Item>): VersionEdit
    decreases |items|
  {
    if items == [] then e else RecordAll(Record(e, items[0]), items[1..])
  }

  lemma DecodesField(b: Bytes, p: nat, item: Item, next: nat, e: VersionEdit)
    requires p <= |b| && NextField(b, p) == Field(item, next)
    ensures next <= |b| && DecodedFrom(b, p, e) == DecodedFrom(b, next, Record(e, item))
  {
  }

  lemma DecodesNothing(b: Bytes, e: VersionEdit)
    ensures DecodedFrom(b, |b|, e) == Ok(e)
  {
    assert GetVarint32(b, |b|, |b|).Nothing?;
  }

  lemma {:induction false} ReadsItems(b: Bytes, p: nat, items: seq<Item>, e: VersionEdit)
    requires Has(b, p, Bytewise(items)) && p + |Bytewise(items)| == |b|
    requires AllSized(items)
    ensures DecodedFrom(b, p, e) == Ok(RecordAll(e, items))
    decreases |items|
  {
    if items == [] {
      DecodesNothing(b, e);
    } else {
      var next := p + |ItemBytes(items[0])|;
      HasSplit(b, p, ItemBytes(items[0]), Bytewise(items[1..]));
      ReadsItem(b, p, items[0]);
      DecodesField(b, p, items[0], next, e);
      assert AllSized(items[1..]);
      ReadsItems(b, next, items[1..], Record(e, items[0]));
    }
  }

  // ---------- the fields make up the edit ----------

  lemma {:induction false} RecordConcat(e: VersionEdit, a: seq<Item>, b: seq<Item>)
    ensures RecordAll(e, a + b) == RecordAll(RecordAll(e, a), b)
    decreases |a|
  {
    if a == [] {
      assert [] + b == b;
    } else {
      assert (a + b)[1..] == a[1..] + b;
      RecordConcat(Record(e, a[0]), a[1..], b);
    }
  }

  lemma {:induction false} RecordPointers(e: VersionEdit, ps: seq<Pointer>)
    ensures RecordAll(e, Pointers(ps)) == e.(pointers := e.pointers + ps)
    decreases |ps|
  {
    if ps == [] {
      assert e.pointers + ps == e.pointers;
    } else {
      assert Pointers(ps)[1..] == Pointers(ps[1..]);
      RecordPointers(Record(e, CompactPointer(ps[0])), ps[1..]);
      assert e.pointers + [ps[0]] + ps[1..] == e.pointers + ps;
    }
  }

  lemma {:induction false} RecordAdditions(e: VersionEdit, ns: seq<NewFile>)
    ensures RecordAll(e, Additions(ns)) == e.(added := e.added + ns)
    decreases |ns|
  {
    if ns == [] {
      assert e.added + ns == e.added;
    } else {
      assert Additions(ns)[1..] == Additions(ns[1..]);
      RecordAdditions(Record(e, AddedFile(ns[0])), ns[1..]);
      assert e.added + [ns[0]] + ns[1..] == e.added + ns;
    }
  }

  lemma {:induction false} MarkLast(ds: seq<Doomed>, d: Doomed)
    requires forall i :: 0 <= i < |ds| ==> Precedes(ds[i], d)
    ensures Mark(ds, d) == ds + [d]
  {
    if ds != [] {
      assert forall i :: 0 <= i < |ds[1..]| ==> ds[1..][i] == ds[i + 1];
      MarkLast(ds[1..], d);
    }
  }

  lemma {:induction false} RecordDeletions(e: VersionEdit, ds: seq<Doomed>)
    requires Listed(e.deleted + ds)
    ensures RecordAll(e, Deletions(ds)) == e.(deleted := e.deleted + ds)
    decreases |ds|
  {
    if ds == [] {
      assert e.deleted + ds == e.deleted;
    } else {
      assert Deletions(ds)[1..] == Deletions(ds[1..]);
      forall i | 0 <= i < |e.deleted| ensures Precedes(e.deleted[i], ds[0]) {
        assert (e.deleted + ds)[i] == e.deleted[i] && (e.deleted + ds)[|e.deleted|] == ds[0];
      }
      MarkLast(e.deleted, ds[0]);
      assert e.deleted + [ds[0]] + ds[1..] == e.deleted + ds;
      RecordDeletions(Record(e, DeletedFile(ds[0])), ds[1..]);
    }
  }

  lemma RecordHeader(e: VersionEdit)
    ensures RecordAll(Empty, Header(e)) == e.(pointers := [], deleted := [], added := [])
  {
    var a := if e.comparator.Some? then [Comparator(e.comparator.value)] else [];
    var b, c := Opt(e.logNumber, LogNumber), Opt(e.prevLogNumber, PrevLogNumber);
    var d, f := Opt(e.nextFile, NextFile), Opt(e.lastSequence, LastSequence);
    RecordConcat(Empty, a + b + c + d, f);
    RecordConcat(Empty, a + b + c, d);
    RecordConcat(Empty, a + b, c);
    RecordConcat(Empty, a, b);
  }

  lemma RecordItems(e: VersionEdit)
    requires Listed(e.deleted)
    ensures RecordAll(Empty, Items(e)) == e
  {
    var a, b, c, d := Header(e), Pointers(e.pointers), Deletions(e.deleted), Additions(e.added);
    RecordConcat(Empty, a + b + c, d);
    RecordConcat(Empty, a + b, c);
    RecordConcat(Empty, a, b);
    RecordHeader(e);
    var e1 := RecordAll(Empty, a);
    RecordPointers(e1, e.pointers);
    var e2 := RecordAll(e1, b);
    assert e2.deleted + e.deleted == e.deleted;
    RecordDeletions(e2, e.deleted);
    RecordAdditions(RecordAll(e2, c), e.added);
  }

  /** Decoding undoes encoding. */
  lemma EditRoundTrip(e: VersionEdit)
    requires Encodable(e)
    ensures Decoded(Encoded(e)) == Ok(e)
  {
    ItemsAreSized(e);
    ReadsItems(Encoded(e), 0, Items(e), Empty);
    RecordItems(e);
  }

  lemma ListedCons(d: Doomed, ds: seq<Doomed>)
    requires Listed(ds) && forall x :: x in ds ==> Precedes(d, x)
    ensures Listed([d] + ds)
  {
    forall j | 0 <= j < |ds| ensures Precedes(d, ds[j]) { assert ds[j] in ds; }
  }

  lemma ListedTail(ds: seq<Doomed>)
    requires Listed(ds) && ds != []
    ensures Listed(ds[1..]) && forall x :: x in ds[1..] ==> Precedes(ds[0], x)
  {
    forall x | x in ds[1..] ensures Precedes(ds[0], x) {
      var j :| 0 <= j < |ds[1..]| && ds[1..][j] == x;
      assert ds[j + 1] == x;
    }
  }

  lemma {:induction false} MarkFacts(ds: seq<Doomed>, d: Doomed)
    requires Listed(ds)
    ensures Listed(Mark(ds, d)) && forall x :: x in Mark(ds, d) <==> x in ds || x == d
  {
    if ds == [] {
    } else if Precedes(d, ds[0]) {
      ListedTail(ds);
      assert ds == [ds[0]] + ds[1..];
      ListedCons(d, ds);
    } else if ds[0] != d {
      ListedTail(ds);
      assert ds == [ds[0]] + ds[1..];
      MarkFacts(ds[1..], d);
      ListedCons(ds[0], Mark(ds[1..], d));
    }
  }

  // ---------- the format in bytes ----------

  /** A numbered field, if there is a number. */
  function Numbered(tag: Byte, o: Option<nat>): Bytes { if o.None? then [] else [tag] + Varint(o.value) }

  lemma {:induction false} BytewiseConcat(a: seq<Item>, b: seq<Item>)
    ensures Bytewise(a + b) == Bytewise(a) + Bytewise(b)
    decreases |a|
  {
    if a == [] {
      assert [] + b == b;
    } else {
      assert (a + b)[1..] == a[1..] + b;
      BytewiseConcat(a[1..], b);
      assert ItemBytes(a[0]) + (Bytewise(a[1..]) + Bytewise(b)) == ItemBytes(a[0]) + Bytewise(a[1..]) + Bytewise(b);
    }
  }

  lemma BytewiseOne(item: Item)
    ensures Bytewise([item]) == ItemBytes(item)
  {
    assert [item][1..] == [] && ItemBytes(item) + [] == ItemBytes(item);
  }

  lemma OptBytes(o: Option<nat>, counter: Counter, tag: Byte)
    requires tag < 128 && CounterTag(counter) == tag
    ensures Bytewise(Opt(o, counter)) == Numbered(tag, o)
  {
    if o.Some? { BytewiseOne(Number(counter, o.value)); }
  }

  /** The bytes of an edit: the comparator's name under tag 1, the counters under tags 2, 9, 3 and 4,
      and then the lists under tags 5, 6 and 7. */
  lemma EncodedBytes(e: VersionEdit)
    ensures Encoded(e) ==
      (if e.comparator.None? then [] else [1] + (Varint(|e.comparator.value|) + e.comparator.value))
      + Numbered(2, e.logNumber) + Numbered(9, e.prevLogNumber) + Numbered(3, e.nextFile) + Numbered(4, e.lastSequence)
      + Bytewise(Pointers(e.pointers)) + Bytewise(Deletions(e.deleted)) + Bytewise(Additions(e.added))
  {
    var a := if e.comparator.Some? then [Comparator(e.comparator.value)] else [];
    var b, c := Opt(e.logNumber, LogNumber), Opt(e.prevLogNumber, PrevLogNumber);
    var d, f := Opt(e.nextFile, NextFile), Opt(e.lastSequence, LastSequence);
    var p, x, n := Pointers(e.pointers), Deletions(e.deleted), Additions(e.added);
    BytewiseConcat(a + b + c + d + f + p + x, n);
    BytewiseConcat(a + b + c + d + f + p, x);
    BytewiseConcat(a + b + c + d + f, p);
    BytewiseConcat(a + b + c + d, f);
    BytewiseConcat(a + b + c, d);
    BytewiseConcat(a + b, c);
    BytewiseConcat(a, b);
    OptBytes(e.logNumber, LogNumber, 2);
    OptBytes(e.prevLogNumber, PrevLogNumber, 9);
    OptBytes(e.nextFile, NextFile, 3);
    OptBytes(e.lastSequence, LastSequence, 4);
    if e.comparator.Some? { BytewiseOne(Comparator(e.comparator.value)); }
  }

  /** The bytes of one entry of each list. */
  lemma EntryBytes(p: Pointer, d: Doomed, n: NewFile)
    ensures ItemBytes(CompactPointer(p)) == [5] + (Varint(p.level) + (Varint(|p.key|) + p.key))
    ensures ItemBytes(DeletedFile(d)) == [6] + (Varint(d.level) + Varint(d.number))
    ensures var m := n.meta;
      ItemBytes(AddedFile(n)) == [7] + (Varint(n.level) + (Varint(m.number) + (Varint(m.size)
        + ((Varint(|m.smallest|) + m.smallest) + (Varint(|m.largest|) + m.largest)))))
  {
  }

  ghost predicate KeyAt(b: Bytes, p: nat, key: Bytes, next: nat) { SliceAt(b, p, key, next) && key != [] }

  predicate LevelAt(b: Bytes, p: nat, level: nat, next: nat) { IntAt(b, p, level, next) && level < 7 }

  ghost predicate PointerAt(b: Bytes, p: nat, x: Pointer, next: nat) {
    exists q :: LevelAt(b, p, x.level, q) && KeyAt(b, q, x.key, next)
  }

  ghost predicate DoomedAt(b: Bytes, p: nat, x: Doomed, next: nat) {
    exists q :: LevelAt(b, p, x.level, q) && LongAt(b, q, x.number, next)
  }

  ghost predicate NewFileAt(b: Bytes, p: nat, x: NewFile, next: nat) {
    exists q, r, s, t :: LevelAt(b, p, x.level, q) && LongAt(b, q, x.meta.number, r) && LongAt(b, r, x.meta.size, s)
                         && KeyAt(b, s, x.meta.smallest, t) && KeyAt(b, t, x.meta.largest, next)
  }

  /** The tag and the contents of a field lie from `p` to `next`, the contents from `q` on. */
  ghost predicate Spelled(b: Bytes, p: nat, q: nat, item: Item, next: nat) {
    match item
    case Comparator(name) => IntAt(b, p, 1, q) && SliceAt(b, q, name, next)
    case Number(LogNumber, n) => IntAt(b, p, 2, q) && LongAt(b, q, n, next)
    case Number(NextFile, n) => IntAt(b, p, 3, q) && LongAt(b, q, n, next)
    case Number(LastSequence, n) => IntAt(b, p, 4, q) && LongAt(b, q, n, next)
    case CompactPointer(x) => IntAt(b, p, 5, q) && PointerAt(b, q, x, next)
    case DeletedFile(x) => IntAt(b, p, 6, q) && DoomedAt(b, q, x, next)
    case AddedFile(x) => IntAt(b, p, 7, q) && NewFileAt(b, q, x, next)
    case Number(PrevLogNumber, n) => IntAt(b, p, 9, q) && LongAt(b, q, n, next)
  }

  ghost predicate FieldAt(b: Bytes, p: nat, item: Item, next: nat) { exists q :: Spelled(b, p, q, item, next) }

  lemma LevelExactly(b: Bytes, p: nat, level: nat, next: nat)
    ensures GetLevel(b, p) == Got(level, next) <==> LevelAt(b, p, level, next)
  {
    IntExactly(b, p, level, next);
  }

  lemma KeyExactly(b: Bytes, p: nat, key: Bytes, next: nat)
    ensures GetInternalKey(b, p) == Parsed(key, next) <==> KeyAt(b, p, key, next)
  {
    SliceExactly(b, p, key, next);
  }

  lemma PointerExactly(b: Bytes, p: nat, x: Pointer, next: nat)
    ensures GetPointer(b, p) == Parsed(x, next) <==> PointerAt(b, p, x, next)
  {
    var level := GetLevel(b, p);
    if level.Got? {
      LevelExactly(b, p, level.value, level.next);
      KeyExactly(b, level.next, x.key, next);
    }
    forall q | LevelAt(b, p, x.level, q) ensures level == Got(x.level, q) { LevelExactly(b, p, x.level, q); }
  }

  lemma DoomedExactly(b: Bytes, p: nat, x: Doomed, next: nat)
    ensures GetDoomed(b, p) == Parsed(x, next) <==> DoomedAt(b, p, x, next)
  {
    var level := GetLevel(b, p);
    if level.Got? {
      LevelExactly(b, p, level.value, level.next);
      LongExactly(b, level.next, x.number, next);
    }
    forall q | LevelAt(b, p, x.level, q) ensures level == Got(x.level, q) { LevelExactly(b, p, x.level, q); }
  }

  /** What is read as a new file is spelled out as one. */
  lemma NewFileIsThere(b: Bytes, p: nat, x: NewFile, next: nat)
    requires GetNewFile(b, p) == Parsed(x, next)
    ensures NewFileAt(b, p, x, next)
  {
    var q := GetLevel(b, p).next;
    var r := GetVarint64(b, q).next;
    var s := GetVarint64(b, r).next;
    var t := GetInternalKey(b, s).next;
    LevelExactly(b, p, x.level, q);
    LongExactly(b, q, x.meta.number, r);
    LongExactly(b, r, x.meta.size, s);
    KeyExactly(b, s, x.meta.smallest, t);
    KeyExactly(b, t, x.meta.largest, next);
  }

  lemma NewFileIsRead(b: Bytes, p: nat, x: NewFile, next: nat)
    requires NewFileAt(b, p, x, next)
    ensures GetNewFile(b, p) == Parsed(x, next)
  {
    var q, r, s, t :| LevelAt(b, p, x.level, q) && LongAt(b, q, x.meta.number, r) && LongAt(b, r, x.meta.size, s)
                      && KeyAt(b, s, x.meta.smallest, t) && KeyAt(b, t, x.meta.largest, next);
    LevelExactly(b, p, x.level, q);
    LongExactly(b, q, x.meta.number, r);
    LongExactly(b, r, x.meta.size, s);
    KeyExactly(b, s, x.meta.smallest, t);
    KeyExactly(b, t, x.meta.largest, next);
    KeyParts(b, s, x.meta.smallest, x.meta.largest, t, next);
    MetaParts(b, q, x.meta, r, s, next);
    NewFileParts(b, p, x, q, next);
  }

  lemma ContentsExactly(b: Bytes, p: nat, q: nat, item: Item, next: nat)
    requires IntAt(b, p, Tag(item), q)
    ensures FieldOf(b, Tag(item), q) == Field(item, next) <==> Spelled(b, p, q, item, next)
  {
    match item
    case Comparator(name) => SliceExactly(b, q, name, next);
    case Number(_, n) => LongExactly(b, q, n, next);
    case CompactPointer(x) => PointerExactly(b, q, x, next);
    case DeletedFile(x) => DoomedExactly(b, q, x, next);
    case AddedFile(x) =>
      if FieldOf(b, Tag(item), q) == Field(item, next) { NewFileIsThere(b, q, x, next); }
      if NewFileAt(b, q, x, next) { NewFileIsRead(b, q, x, next); }
  }

  lemma FieldHasItsTag(b: Bytes, tag: nat, p: nat)
    ensures FieldOf(b, tag, p).Field? ==> tag == Tag(FieldOf(b, tag, p).item)
  {
  }

  /** One turn of the loop, on any bytes, takes the field that is there. */
  lemma FieldExactly(b: Bytes, p: nat, item: Item, next: nat)
    requires p <= |b|
    ensures NextField(b, p) == Field(item, next) <==> FieldAt(b, p, item, next)
  {
    var tag := GetVarint32(b, p, |b|);
    if tag.Got? {
      IntExactly(b, p, tag.value, tag.next);
      FieldHasItsTag(b, tag.value, tag.next);
      if tag.value == Tag(item) { ContentsExactly(b, p, tag.next, item, next); }
    }
    forall q | Spelled(b, p, q, item, next) ensures tag == Got(Tag(item), q) { IntExactly(b, p, Tag(item), q); }
  }

  /** From `p` to the end the bytes are these fields, one after the other. */
  ghost predicate FieldsAt(b: Bytes, p: nat, items: seq<Item>)
    decreases |items|
  {
    if items == [] then p == |b| else exists next :: p < next <= |b| && FieldAt(b, p, items[0], next) && FieldsAt(b, next, items[1..])
  }

  lemma {:induction false} FieldsAreRead(b: Bytes, p: nat, items: seq<Item>, e: VersionEdit)
    requires p <= |b| && FieldsAt(b, p, items)
    ensures DecodedFrom(b, p, e) == Ok(RecordAll(e, items))
    decreases |items|
  {
    if items == [] {
      DecodesNothing(b, e);
    } else {
      var next :| p < next <= |b| && FieldAt(b, p, items[0], next) && FieldsAt(b, next, items[1..]);
      FieldExactly(b, p, items[0], next);
      FieldsAreRead(b, next, items[1..], Record(e, items[0]));
    }
  }

  lemma {:induction false} ReadsFields(b: Bytes, p: nat, e: VersionEdit) returns (items: seq<Item>)
    requires p <= |b| && DecodedFrom(b, p, e).Ok?
    ensures FieldsAt(b, p, items) && DecodedFrom(b, p, e) == Ok(RecordAll(e, items))
    decreases |b| - p
  {
    match NextField(b, p)
    case End => items := [];
    case Field(item, next) =>
      var rest := ReadsFields(b, next, Record(e, item));
      items := [item] + rest;
      assert items[1..] == rest;
      FieldExactly(b, p, item, next);
  }

  /** On any bytes, decoding succeeds just if they are fields from beginning to end, and then it yields
      what these fields record. */
  lemma DecodesExactly(b: Bytes, e: VersionEdit)
    ensures Decoded(b) == Ok(e) <==> exists items :: FieldsAt(b, 0, items) && e == RecordAll(Empty, items)
  {
    if Decoded(b) == Ok(e) { var items := ReadsFields(b, 0, Empty); }
    forall items | FieldsAt(b, 0, items) ensures Decoded(b) == Ok(RecordAll(Empty, items)) { FieldsAreRead(b, 0, items, Empty); }
  }

  /** What the last field adds to the edit: a counter replaces an earlier one, lists grow at their ends. */
  lemma LastFieldRecords(e: VersionEdit, items: seq<Item>, item: Item)
    requires Listed(RecordAll(e, items).deleted)
    ensures var was, r := RecordAll(e, items), RecordAll(e, items + [item]);
      match item
      case Comparator(name) => r == was.(comparator := Some(name))
      case Number(LogNumber, n) => r == was.(logNumber := Some(n))
      case Number(PrevLogNumber, n) => r == was.(prevLogNumber := Some(n))
      case Number(NextFile, n) => r == was.(nextFile := Some(n))
      case Number(LastSequence, n) => r == was.(lastSequence := Some(n))
      case CompactPointer(p) => r == was.(pointers := was.pointers + [p])
      case AddedFile(n) => r == was.(added := was.added + [n])
      case DeletedFile(d) => r == was.(deleted := r.deleted) && Listed(r.deleted) && forall x :: x in r.deleted <==> x in was.deleted || x == d
  {
    RecordConcat(e, items, [item]);
    assert [item][1..] == [];
    assert RecordAll(RecordAll(e, items), [item]) == Record(RecordAll(e, items), item);
    if item.DeletedFile? { MarkFacts(RecordAll(e, items).deleted, item.file); }
  }

  lemma RecordKeepsEncodable(e: VersionEdit, item: Item)
    requires Encodable(e) && Sized(item)
    ensures Encodable(Record(e, item))
  {
    if item.DeletedFile? { MarkFacts(e.deleted, item.file); }
  }

  lemma {:induction false} DecodedIsEncodable(b: Bytes, p: nat, e: VersionEdit)
    requires p <= |b| && Encodable(e) && DecodedFrom(b, p, e).Ok?
    ensures Encodable(DecodedFrom(b, p, e).value)
    decreases |b| - p
  {
    var turn := NextField(b, p);
    if turn.Field? {
      RecordKeepsEncodable(e, turn.item);
      DecodedIsEncodable(b, turn.next, Record(e, turn.item));
    }
  }

  /** Whatever bytes an edit was read from, it fits the format, so that written again it reads as the
      same edit. */
  lemma ReencodesSame(b: Bytes)
    requires Decoded(b).Ok?
    ensures Encodable(Decoded(b).value) && Decoded(Encoded(Decoded(b).value)) == Decoded(b)
  {
    DecodedIsEncodable(b, 0, Empty);
    EditRoundTrip(Decoded(b).value);
  }
}
