/** The write-ahead log (db/log_format.h, db/log_writer.cc, db/log_reader.cc): records are
    fragmented over 32 KiB blocks and reassembled. What protects a physical record is a parameter:
    the round trip holds for every seal that its own check accepts, whatever else it accepts. */
module Log {
  import opened Coding
  import opened DbFormat

  const BLOCK: nat := 32768
  const HEADER: nat := 7

  const FULL: nat := 1
  const FIRST: nat := 2
  const MIDDLE: nat := 3
  const LAST: nat := 4

  /** Numbers by which ReadPhysicalRecord reports the end of the file and a bad record; a stored type
      byte with the same number is taken for such a report. */
  const EOF: nat := 5
  const BAD_RECORD: nat := 6

  /** Four bytes computed from type and payload, and the test of stored bytes against them. */
  datatype Seal = Seal(make: Bytes -> Bytes, accepts: (Bytes, Bytes) -> bool) {
    ghost predicate Lawful() {
      forall data :: |make(data)| == 4 && accepts(data, make(data))
    }

    function Made(data: Bytes): (b: Bytes)
      ensures |b| == 4
    {
      var b := make(data);
      if |b| == 4 then b else [0, 0, 0, 0]
    }
  }

  // ---------- the seal the log uses ----------

  const MASK_DELTA: nat := 0xa282ead8

  /** crc32c::Mask: rotated right by 15 bits, plus a constant, in 32 bits. */
  function Mask(crc: nat): nat {
    (crc / 0x8000 + crc % 0x8000 * 0x2_0000 + MASK_DELTA) % WORD
  }

  function Unmask(masked: nat): nat {
    var rot := (masked + WORD - MASK_DELTA) % WORD;
    rot / 0x2_0000 + rot % 0x2_0000 * 0x8000
  }

  lemma UnmaskMask(crc: nat)
    requires crc < WORD
    ensures Unmask(Mask(crc)) == crc && Mask(crc) < WORD
  {
    var a, b := crc / 0x8000, crc % 0x8000;
    var rot := a + b * 0x2_0000;
    assert crc == a * 0x8000 + b && rot < WORD;
    var m := rot + MASK_DELTA;
    assert Mask(crc) == if m < WORD then m else m - WORD;
    assert (Mask(crc) + WORD - MASK_DELTA) % WORD == rot;
    assert rot / 0x2_0000 == b && rot % 0x2_0000 == a;
  }

  /** The masked checksum of type and payload, for any checksum function. */
  function CrcSeal(crc: Bytes -> nat): Seal {
    Seal(data => Fixed32(Mask(crc(data) % WORD)),
         (data, stored) => |stored| == 4 && Unmask(Decode32(stored)) == crc(data) % WORD)
  }

  lemma CrcSealIsLawful(crc: Bytes -> nat)
    ensures CrcSeal(crc).Lawful()
  {
    forall data: Bytes ensures |CrcSeal(crc).make(data)| == 4 && CrcSeal(crc).accepts(data, CrcSeal(crc).make(data)) {
      UnmaskMask(crc(data) % WORD);
      Fixed32RoundTrip(Mask(crc(data) % WORD));
    }
  }

  lemma MaskUnmask(m: nat)
    requires m < WORD
    ensures Unmask(m) < WORD && Mask(Unmask(m)) == m
  {
    var rot := if m >= MASK_DELTA then m - MASK_DELTA else m + WORD - MASK_DELTA;
    assert rot == (m + WORD - MASK_DELTA) % WORD;
    var a, b := rot % 0x2_0000, rot / 0x2_0000;
    assert b < 0x8000 && Unmask(m) == b + a * 0x8000;
    assert Unmask(m) / 0x8000 == a && Unmask(m) % 0x8000 == b;
    assert a + b * 0x2_0000 == rot;
  }

  /** Four stored bytes are accepted just if they are the checksum of type and payload, turned by 15
      bits with the constant added, least significant byte first. */
  lemma CrcSealIsExact(crc: Bytes -> nat, data: Bytes, stored: Bytes)
    requires |stored| == 4
    ensures var c := crc(data) % 0x1_0000_0000;
      CrcSeal(crc).accepts(data, stored) <==>
        stored[0] as int + stored[1] as int * 256 + stored[2] as int * 65536 + stored[3] as int * 16777216
        == (c / 0x8000 + c % 0x8000 * 0x2_0000 + 0xa282ead8) % 0x1_0000_0000
  {
    var c, m := crc(data) % WORD, Decode32(stored);
    assert m == stored[0] as int + stored[1] as int * 256 + stored[2] as int * 65536 + stored[3] as int * 16777216;
    UnmaskMask(c);
    MaskUnmask(m);
  }

  // ---------- physical records ----------

  /** Seal of type and payload, length, type, payload. */
  function Physical(seal: Seal, t: Byte, payload: Bytes): (r: Bytes)
    requires |payload| < 65536
    ensures |r| == HEADER + |payload|
  {
    Header(seal, t, payload) + payload
  }

  function Header(seal: Seal, t: Byte, payload: Bytes): (h: Bytes)
    requires |payload| < 65536
    ensures |h| == HEADER
  {
    seal.Made([t] + payload) + [|payload| % 256, |payload| / 256, t]
  }

  /** A physical record without its framing. */
  datatype Piece = Piece(t: Byte, payload: Bytes)

  function Zeros(n: nat): (r: Bytes)
    ensures |r| == n && forall i :: 0 <= i < n ==> r[i] == 0
  {
    seq(n, _ => 0)
  }

  function Min(a: nat, b: nat): nat { if a < b then a else b }

  /** Where the next header goes: a block with fewer than seven bytes left is given up. */
  function Fresh(off: nat): (r: nat)
    requires off <= BLOCK
    ensures r + HEADER <= BLOCK
  {
    if BLOCK - off < HEADER then 0 else off
  }

  function Pad(off: nat): nat
    requires off <= BLOCK
  {
    if BLOCK - off < HEADER then BLOCK - off else 0
  }

  /** The piece fits into the block that a writer at offset `off` puts it in. */
  predicate Fits(off: nat, piece: Piece)
    requires off <= BLOCK
  {
    Fresh(off) + HEADER + |piece.payload| <= BLOCK
  }

  function NextOff(off: nat, piece: Piece): (r: nat)
    requires off <= BLOCK && Fits(off, piece)
    ensures r <= BLOCK
  {
    Fresh(off) + HEADER + |piece.payload|
  }

  predicate FitAll(off: nat, pieces: seq<Piece>)
    requires off <= BLOCK
    decreases |pieces|
  {
    pieces != [] ==> Fits(off, pieces[0]) && FitAll(NextOff(off, pieces[0]), pieces[1..])
  }

  /** The bytes of pieces written one after the other from offset `off` of a block. */
  function Layout(seal: Seal, off: nat, pieces: seq<Piece>): Bytes
    requires off <= BLOCK && FitAll(off, pieces)
    decreases |pieces|
  {
    if pieces == [] then []
    else Zeros(Pad(off)) + Physical(seal, pieces[0].t, pieces[0].payload)
         + Layout(seal, NextOff(off, pieces[0]), pieces[1..])
  }

  function EndOff(off: nat, pieces: seq<Piece>): (r: nat)
    requires off <= BLOCK && FitAll(off, pieces)
    ensures r <= BLOCK
    decreases |pieces|
  {
    if pieces == [] then off else EndOff(NextOff(off, pieces[0]), pieces[1..])
  }

  // ---------- fragmentation ----------

  function RecordType(begin: bool, end: bool): Byte {
    if begin && end then FULL else if begin then FIRST else if end then LAST else MIDDLE
  }

  /** The pieces a writer at offset `off` cuts the rest of a record into. */
  function Pieces(off: nat, data: Bytes, begin: bool): (r: seq<Piece>)
    requires off <= BLOCK
    ensures |r| > 0 && FitAll(off, r)
    decreases |data|, if off == BLOCK - HEADER then 1 else 0
  {
    var n := Min(|data|, BLOCK - Fresh(off) - HEADER);
    var piece := Piece(RecordType(begin, n == |data|), data[..n]);
    if n == |data| then [piece] else [piece] + Pieces(NextOff(off, piece), data[n..], false)
  }

  /** Every fragment of a record but the last goes up to the end of its block. */
  lemma {:induction false} PiecesFill(off: nat, data: Bytes, begin: bool, i: nat)
    requires off <= BLOCK && i + 1 < |Pieces(off, data, begin)|
    ensures var front := Pieces(off, data, begin)[..i + 1]; FitAll(off, front) && EndOff(off, front) == 32768
    decreases i
  {
    var n := Min(|data|, BLOCK - Fresh(off) - HEADER);
    var piece := Piece(RecordType(begin, false), data[..n]);
    var more := Pieces(NextOff(off, piece), data[n..], false);
    var front := Pieces(off, data, begin)[..i + 1];
    assert front[0] == piece && front[1..] == more[..i];
    if i == 0 {
      assert front[1..] == [];
    } else {
      PiecesFill(NextOff(off, piece), data[n..], false, i - 1);
    }
  }

  class Writer {
    const seal: Seal
    var dest: Bytes        // the file
    var blockOffset: nat   // current offset in the block

    ghost predicate Valid()
      reads this
    {
      blockOffset <= BLOCK
    }

    constructor (seal: Seal, dest: Bytes)
      ensures Valid() && this.seal == seal && this.dest == dest && blockOffset == |dest| % BLOCK
    {
      this.seal, this.dest, this.blockOffset := seal, dest, |dest| % BLOCK;
    }

    method EmitPhysicalRecord(t: Byte, payload: Bytes)
      requires Valid() && blockOffset + HEADER + |payload| <= BLOCK
      modifies this
      ensures Valid() && blockOffset == old(blockOffset) + HEADER + |payload|
      ensures dest == old(dest) + Physical(seal, t, payload)
    {
      dest := dest + Physical(seal, t, payload);
      blockOffset := blockOffset + HEADER + |payload|;
    }

    /** Gives up a block too short for another header. */
    method StartBlock()
      requires Valid()
      modifies this
      ensures Valid() && blockOffset == Fresh(old(blockOffset))
      ensures dest == old(dest) + Zeros(Pad(old(blockOffset)))
      ensures old(blockOffset) + 7 <= 32768 ==> dest == old(dest) && blockOffset == old(blockOffset)
      ensures old(blockOffset) + 7 > 32768 ==> blockOffset == 0 && |dest| == |old(dest)| + 32768 - old(blockOffset)
    {
      var leftover := BLOCK - blockOffset;
      if leftover < HEADER {
        if leftover > 0 {
          dest := dest + Zeros(leftover);
        }
        blockOffset := 0;
      }
    }

    /** One round of the fragmentation loop: the next piece of the record reaches the file. */
    method AddFragment(left: Bytes, begin: bool) returns (rest: Bytes, ghost piece: Piece)
      requires Valid()
      modifies this
      ensures Valid() && Fits(old(blockOffset), piece) && blockOffset == NextOff(old(blockOffset), piece)
      ensures dest == old(dest) + Zeros(Pad(old(blockOffset))) + Physical(seal, piece.t, piece.payload)
      ensures Pieces(old(blockOffset), left, begin)
           == [piece] + if rest == [] then [] else Pieces(blockOffset, rest, false)
      ensures rest != [] ==> |rest| < |left|
                             || (|rest| == |left| && old(blockOffset) == BLOCK - HEADER && blockOffset == BLOCK)
    {
      StartBlock();
      var avail := BLOCK - blockOffset - HEADER;
      var length := if |left| < avail then |left| else avail;
      var end := |left| == length;
      piece := Piece(RecordType(begin, end), left[..length]);
      EmitPhysicalRecord(RecordType(begin, end), left[..length]);
      rest := left[length..];
    }

    /** Appends one record, fragmenting it where blocks end. */
    method AddRecord(data: Bytes)
      requires Valid()
      modifies this
      ensures Valid()
      ensures dest == old(dest) + Layout(seal, old(blockOffset), Pieces(old(blockOffset), data, true))
      ensures blockOffset == EndOff(old(blockOffset), Pieces(old(blockOffset), data, true))
    {
      ghost var pieces := Pieces(blockOffset, data, true);
      ghost var goal, goalOff := dest + Layout(seal, blockOffset, pieces), EndOff(blockOffset, pieces);
      var left, begin, more := data, true, true;
      while more
        invariant Valid() && FitAll(blockOffset, pieces)
        invariant pieces == if more then Pieces(blockOffset, left, begin) else []
        invariant goal == dest + Layout(seal, blockOffset, pieces)
        invariant goalOff == EndOff(blockOffset, pieces)
        decreases more, |left|, if blockOffset == BLOCK - HEADER then 1 else 0
      {
        ghost var at, was := blockOffset, dest;
        ghost var piece;
        left, piece := AddFragment(left, begin);
        begin, more := false, left != [];
        pieces := if more then Pieces(blockOffset, left, false) else [];
        LayoutCons(seal, was, at, piece, pieces);
      }
    }
  }

  lemma Regroup(a: Bytes, b: Bytes, c: Bytes, d: Bytes)
    ensures a + (b + c + d) == a + b + c + d
    ensures a + (b + c) == a + b + c
  {
  }

  lemma LayoutUnfold(seal: Seal, off: nat, piece: Piece, rest: seq<Piece>)
    requires off <= BLOCK && Fits(off, piece) && FitAll(NextOff(off, piece), rest)
    ensures FitAll(off, [piece] + rest) && EndOff(off, [piece] + rest) == EndOff(NextOff(off, piece), rest)
    ensures Layout(seal, off, [piece] + rest)
         == Zeros(Pad(off)) + Physical(seal, piece.t, piece.payload) + Layout(seal, NextOff(off, piece), rest)
  {
    assert ([piece] + rest)[1..] == rest;
  }

  lemma LayoutCons(seal: Seal, dest: Bytes, off: nat, piece: Piece, rest: seq<Piece>)
    requires off <= BLOCK && Fits(off, piece) && FitAll(NextOff(off, piece), rest)
    ensures FitAll(off, [piece] + rest) && EndOff(off, [piece] + rest) == EndOff(NextOff(off, piece), rest)
    ensures dest + Layout(seal, off, [piece] + rest)
         == dest + Zeros(Pad(off)) + Physical(seal, piece.t, piece.payload) + Layout(seal, NextOff(off, piece), rest)
  {
    LayoutUnfold(seal, off, piece, rest);
    Regroup(dest, Zeros(Pad(off)), Physical(seal, piece.t, piece.payload), Layout(seal, NextOff(off, piece), rest));
  }

  /** The bytes of a list of records written from offset `off` of a block. */
  function Written(seal: Seal, off: nat, records: seq<Bytes>): Bytes
    requires off <= BLOCK
    decreases |records|
  {
    if records == [] then []
    else
      var pieces := Pieces(off, records[0], true);
      Layout(seal, off, pieces) + Written(seal, EndOff(off, pieces), records[1..])
  }

  /** The offset in the block once the records are written. */
  function WrittenEnd(off: nat, records: seq<Bytes>): (r: nat)
    requires off <= BLOCK
    ensures r <= BLOCK
    decreases |records|
  {
    if records == [] then off else WrittenEnd(EndOff(off, Pieces(off, records[0], true)), records[1..])
  }

  lemma {:induction false} WrittenSnoc(seal: Seal, off: nat, records: seq<Bytes>, data: Bytes)
    requires off <= BLOCK
    ensures var end := WrittenEnd(off, records);
      && Written(seal, off, records + [data]) == Written(seal, off, records) + Layout(seal, end, Pieces(end, data, true))
      && WrittenEnd(off, records + [data]) == EndOff(end, Pieces(end, data, true))
    decreases |records|
  {
    if records == [] {
      assert ([] + [data])[1..] == [];
    } else {
      var pieces := Pieces(off, records[0], true);
      assert (records + [data])[1..] == records[1..] + [data];
      WrittenSnoc(seal, EndOff(off, pieces), records[1..], data);
    }
  }

  lemma WrittenStep(seal: Seal, dest: Bytes, off: nat, records: seq<Bytes>)
    requires off <= BLOCK && records != []
    ensures var pieces := Pieces(off, records[0], true);
      dest + Written(seal, off, records)
      == dest + Layout(seal, off, pieces) + Written(seal, EndOff(off, pieces), records[1..])
  {
    var pieces := Pieces(off, records[0], true);
    Regroup(dest, Layout(seal, off, pieces), Written(seal, EndOff(off, pieces), records[1..]), []);
  }

  method WriteAll(seal: Seal, records: seq<Bytes>) returns (file: Bytes)
    ensures file == Written(seal, 0, records)
  {
    var w := new Writer(seal, []);
    var i := 0;
    while i < |records|
      invariant 0 <= i <= |records| && w.Valid() && w.seal == seal
      invariant Written(seal, 0, records) == w.dest + Written(seal, w.blockOffset, records[i..])
    {
      ghost var off, was := w.blockOffset, w.dest;
      w.AddRecord(records[i]);
      WrittenStep(seal, was, off, records[i..]);
      assert records[i..][1..] == records[i + 1..];
      i := i + 1;
    }
    file := w.dest;
  }

  // ---------- what a reader makes of a file ----------

  /** A position in the file as a block and an offset in it. */
  datatype Cursor = At(start: nat, off: nat) {
    function Pos(): nat { start + off }
    predicate In(file: Bytes) { off <= BLOCK && start + off <= |file| }
  }

  /** The block is wholly in the file, so the read that fetched it was not short. */
  predicate FullBlock(file: Bytes, start: nat) { start + BLOCK <= |file| }

  /** Where the reader stands after giving up on the rest of its buffer. */
  function Skip(file: Bytes, start: nat): (c: Cursor)
    requires start <= |file|
    ensures c.In(file)
  {
    if FullBlock(file, start) then At(start + BLOCK, 0) else At(start, |file| - start)
  }

  /** Outcome of ReadPhysicalRecord: end of file, a bad stretch with the number of bytes reported
      as dropped, or a record. */
  datatype Phys = Eof | Bad(next: Cursor, dropped: Option<nat>) | Rec(piece: Piece, next: Cursor)

  function ReadPhys(seal: Seal, file: Bytes, c: Cursor): (r: Phys)
    requires c.In(file)
    ensures r.Bad? || r.Rec? ==> r.next.In(file) && c.Pos() < r.next.Pos()
    decreases |file| - c.start
  {
    if Min(|file|, c.start + BLOCK) - c.Pos() < HEADER then
      if FullBlock(file, c.start) then ReadPhys(seal, file, At(c.start + BLOCK, 0)) else Eof
    else
      ReadHere(seal, file, c)
  }

  datatype Parse = TooLong | ZeroFill | BadSeal | Fine(piece: Piece)

  /** What ReadPhysicalRecord makes of a buffer that holds a header. */
  function ParseHeader(seal: Seal, buffer: Bytes): (r: Parse)
    requires |buffer| >= HEADER
    ensures r.Fine? ==> HEADER + |r.piece.payload| <= |buffer|
  {
    var length := buffer[4] as int + buffer[5] as int * 256;
    var t := buffer[6];
    if HEADER + length > |buffer| then TooLong
    else if t == 0 && length == 0 then ZeroFill
    else
      var payload := buffer[HEADER..HEADER + length];
      if !seal.accepts([t] + payload, buffer[..4]) then BadSeal else Fine(Piece(t, payload))
  }

  /** The part of ReadPhysicalRecord after a header was found in the buffer. */
  function ReadHere(seal: Seal, file: Bytes, c: Cursor): (r: Phys)
    requires c.In(file) && Min(|file|, c.start + BLOCK) - c.Pos() >= HEADER
    ensures r.Bad? || r.Rec? ==> r.next.In(file) && c.Pos() < r.next.Pos()
  {
    var buffer := file[c.Pos()..Min(|file|, c.start + BLOCK)];
    match ParseHeader(seal, buffer)
    case TooLong => if FullBlock(file, c.start) then Bad(Skip(file, c.start), Some(|buffer|)) else Eof
    case ZeroFill => Bad(Skip(file, c.start), None)
    case BadSeal => Bad(Skip(file, c.start), Some(|buffer|))
    case Fine(piece) => Rec(piece, At(c.start, c.off + HEADER + |piece.payload|))
  }

  /** From position `p` on, the file agrees with `bytes` as far as both go. */
  ghost predicate Holds(file: Bytes, p: nat, bytes: Bytes) {
    p <= |file| && forall i :: 0 <= i < |bytes| && p + i < |file| ==> file[p + i] == bytes[i]
  }

  lemma HoldsSplit(file: Bytes, p: nat, a: Bytes, b: Bytes)
    requires Holds(file, p, a + b)
    ensures Holds(file, p, a) && (p + |a| <= |file| ==> Holds(file, p + |a|, b))
  {
    forall i | 0 <= i < |a| && p + i < |file| ensures file[p + i] == a[i] {
      assert (a + b)[i] == a[i];
    }
    forall i | 0 <= i < |b| && p + |a| + i < |file| ensures file[p + |a| + i] == b[i] {
      assert (a + b)[|a| + i] == b[i];
    }
  }

  lemma LengthBytes(n: nat)
    requires n < 65536
    ensures n % 256 + n / 256 * 256 == n
  {
  }

  lemma HeaderRead(seal: Seal, file: Bytes, p: nat, t: Byte, payload: Bytes)
    requires |payload| < 65536 && Holds(file, p, Physical(seal, t, payload)) && p + HEADER <= |file|
    ensures file[p + 4] as int + file[p + 5] as int * 256 == |payload| && file[p + 6] == t
  {
    var r := Physical(seal, t, payload);
    assert r[4] == |payload| % 256 && r[5] == |payload| / 256 && r[6] == t;
    assert file[p + 4] == r[4] && file[p + 5] == r[5] && file[p + 6] == r[6];
    LengthBytes(|payload|);
  }

  lemma PayloadRead(seal: Seal, file: Bytes, p: nat, t: Byte, payload: Bytes)
    requires |payload| < 65536 && Holds(file, p, Physical(seal, t, payload)) && p + HEADER + |payload| <= |file|
    ensures file[p..p + 4] == seal.Made([t] + payload)
    ensures file[p + HEADER..p + HEADER + |payload|] == payload
  {
    var r := Physical(seal, t, payload);
    assert r[..4] == seal.Made([t] + payload) && r[HEADER..] == payload;
    assert file[p..p + |r|] == r;
    assert file[p..p + 4] == r[..4];
    assert file[p + HEADER..p + HEADER + |payload|] == r[HEADER..];
  }

  /** A physical record wholly in the file is read back; a truncated one looks like end of file. */
  lemma ReadsPhysical(seal: Seal, file: Bytes, c: Cursor, t: Byte, payload: Bytes)
    requires seal.Lawful() && c.off + HEADER + |payload| <= BLOCK && t != 0
    requires Holds(file, c.Pos(), Physical(seal, t, payload))
    ensures ReadPhys(seal, file, c)
         == if c.Pos() + HEADER + |payload| <= |file| then Rec(Piece(t, payload), At(c.start, c.off + HEADER + |payload|)) else Eof
  {
    var p := c.Pos();
    if p + HEADER <= |file| {
      HeaderRead(seal, file, p, t, payload);
      if p + HEADER + |payload| <= |file| {
        PayloadRead(seal, file, p, t, payload);
        assert seal.accepts([t] + payload, seal.Made([t] + payload));
      }
      HereIs(seal, file, c, t, payload);
    }
  }

  lemma HereIs(seal: Seal, file: Bytes, c: Cursor, t: Byte, payload: Bytes)
    requires c.off + HEADER + |payload| <= BLOCK && t != 0 && c.Pos() + HEADER <= |file|
    requires file[c.Pos() + 4] as int + file[c.Pos() + 5] as int * 256 == |payload| && file[c.Pos() + 6] == t
    requires c.Pos() + HEADER + |payload| <= |file| ==>
               && file[c.Pos() + HEADER..c.Pos() + HEADER + |payload|] == payload
               && seal.accepts([t] + payload, file[c.Pos()..c.Pos() + 4])
    ensures ReadHere(seal, file, c)
         == if c.Pos() + HEADER + |payload| <= |file| then Rec(Piece(t, payload), At(c.start, c.off + HEADER + |payload|)) else Eof
  {
    var p, n := c.Pos(), |payload|;
    var buffer := file[p..Min(|file|, c.start + BLOCK)];
    assert buffer[4] == file[p + 4] && buffer[5] == file[p + 5] && buffer[6] == file[p + 6];
    if p + HEADER + n <= |file| {
      SubSlice(file, p, p + |buffer|, 0, 4);
      SubSlice(file, p, p + |buffer|, HEADER, HEADER + n);
    }
  }

  lemma SubSlice(s: Bytes, p: nat, e: nat, a: nat, b: nat)
    requires p <= e <= |s| && a <= b <= e - p
    ensures s[p..e][a..b] == s[p + a..p + b]
  {
    var x, y := s[p..e][a..b], s[p + a..p + b];
    forall i | 0 <= i < b - a ensures x[i] == y[i] {
    }
  }

  /** The cursor a writer at `c` stands at once it has made room for a header. */
  function FreshAt(c: Cursor): (d: Cursor)
    requires c.off <= BLOCK
    ensures d.off + HEADER <= BLOCK && d.off == Fresh(c.off) && d.Pos() == c.Pos() + Pad(c.off)
  {
    if BLOCK - c.off < HEADER then At(c.start + BLOCK, 0) else c
  }

  function NextAt(c: Cursor, piece: Piece): (d: Cursor)
    requires c.off <= BLOCK && Fits(c.off, piece)
    ensures d.off == NextOff(c.off, piece) && d.Pos() == c.Pos() + Pad(c.off) + HEADER + |piece.payload|
  {
    At(FreshAt(c).start, FreshAt(c).off + HEADER + |piece.payload|)
  }

  /** Zero bytes at the end of a block are skipped; a file cut off inside them has ended. */
  lemma TrailerSkipped(seal: Seal, file: Bytes, c: Cursor)
    requires c.In(file)
    ensures ReadPhys(seal, file, c) == if FreshAt(c).In(file) then ReadPhys(seal, file, FreshAt(c)) else Eof
  {
  }

  /** Reading where a writer put a piece gives the piece, or end of file if it was cut off. */
  lemma ReadsPiece(seal: Seal, file: Bytes, c: Cursor, piece: Piece, rest: Bytes)
    requires seal.Lawful() && c.off <= BLOCK && Fits(c.off, piece) && piece.t != 0
    requires Holds(file, c.Pos(), Zeros(Pad(c.off)) + Physical(seal, piece.t, piece.payload) + rest)
    ensures ReadPhys(seal, file, c) == if NextAt(c, piece).In(file) then Rec(piece, NextAt(c, piece)) else Eof
    ensures NextAt(c, piece).In(file) ==> Holds(file, NextAt(c, piece).Pos(), rest)
  {
    var a, b := Zeros(Pad(c.off)), Physical(seal, piece.t, piece.payload);
    HoldsSplit(file, c.Pos(), a + b, rest);
    HoldsSplit(file, c.Pos(), a, b);
    TrailerSkipped(seal, file, c);
    if FreshAt(c).In(file) {
      ReadsPhysical(seal, file, FreshAt(c), piece.t, piece.payload);
    }
  }

  // ---------- reassembly ----------

  /** What the reader sees of a file, one physical outcome after the other. */
  datatype Seen = Good(piece: Piece) | Garbage(dropped: Option<nat>)

  function Sight(seal: Seal, file: Bytes, c: Cursor): seq<Seen>
    requires c.In(file)
    decreases |file| - c.Pos()
  {
    match ReadPhys(seal, file, c)
    case Eof => []
    case Bad(next, dropped) => [Garbage(dropped)] + Sight(seal, file, next)
    case Rec(piece, next) => [Good(piece)] + Sight(seal, file, next)
  }

  /** What ReadRecord does with one physical outcome: stop, return, or go on with a new scratch. */
  datatype Turn =
    | Stop
    | Return(record: Bytes, reports: seq<nat>)
    | Continue(scratch: Bytes, inFragment: bool, reports: seq<nat>)

  function ReportIf(b: bool, n: nat): seq<nat> { if b then [n] else [] }

  /** The switch over record types in ReadRecord. */
  function Digest(seen: Seen, scratch: Bytes, inFragment: bool): Turn {
    match seen
    case Garbage(dropped) =>
      Continue([], false, (if dropped.Some? then [dropped.value] else []) + ReportIf(inFragment, |scratch|))
    case Good(Piece(t, payload)) =>
      if t == FULL then Return(payload, ReportIf(inFragment && scratch != [], |scratch|))
      else if t == FIRST then Continue(payload, true, ReportIf(inFragment && scratch != [], |scratch|))
      else if t == MIDDLE then
        if inFragment then Continue(scratch + payload, true, []) else Continue(scratch, false, [|payload|])
      else if t == LAST then
        if inFragment then Return(scratch + payload, []) else Continue(scratch, false, [|payload|])
      else if t == EOF then Stop
      else if t == BAD_RECORD then Continue([], false, ReportIf(inFragment, |scratch|))
      else Continue([], false, [|payload| + if inFragment then |scratch| else 0])
  }

  /** A logical record, how many physical outcomes it took, and the sizes reported as dropped. */
  datatype Outcome = Outcome(record: Option<Bytes>, used: nat, reports: seq<nat>)

  function Assemble(sight: seq<Seen>, scratch: Bytes, inFragment: bool): (r: Outcome)
    ensures r.used <= |sight| && (r.record.Some? ==> r.used > 0)
  {
    if sight == [] then Outcome(None, 0, [])
    else
      match Digest(sight[0], scratch, inFragment)
      case Stop => Outcome(None, 1, [])
      case Return(record, reports) => Outcome(Some(record), 1, reports)
      case Continue(scratch', inFragment', reports) =>
        var rest := Assemble(sight[1..], scratch', inFragment');
        Outcome(rest.record, rest.used + 1, reports + rest.reports)
  }

  /** All the records a reader returns until it says there are no more, and all the drops it reports. */
  function ReadAll(sight: seq<Seen>): (r: (seq<Bytes>, seq<nat>)) {
    var a := Assemble(sight, [], false);
    if a.record.None? then ([], a.reports)
    else
      var rest := ReadAll(sight[a.used..]);
      ([a.record.value] + rest.0, a.reports + rest.1)
  }

  // ---------- a stored type that reads as the end of the file ----------

  predicate LooksLikeEof(seen: Seen) { seen.Good? && seen.piece.t == EOF }

  /** How many physical outcomes come before the first that looks like the end of the file. */
  function BeforeEof(sight: seq<Seen>): (n: nat)
    ensures n <= |sight| && (n < |sight| ==> LooksLikeEof(sight[n]))
    ensures forall i :: 0 <= i < n ==> !LooksLikeEof(sight[i])
  {
    if sight == [] || LooksLikeEof(sight[0]) then 0 else 1 + BeforeEof(sight[1..])
  }

  /** How many physical outcomes have been read when the reader says that there are no more records. */
  function Consumed(sight: seq<Seen>): (n: nat)
    ensures n <= |sight|
  {
    var a := Assemble(sight, [], false);
    if a.record.None? then a.used else a.used + Consumed(sight[a.used..])
  }

  /** Assembling a record looks at no more than it uses. */
  lemma {:induction false} AssemblePrefix(sight: seq<Seen>, scratch: Bytes, inFragment: bool, k: nat)
    requires Assemble(sight, scratch, inFragment).record.Some? && Assemble(sight, scratch, inFragment).used <= k <= |sight|
    ensures Assemble(sight[..k], scratch, inFragment) == Assemble(sight, scratch, inFragment)
  {
    assert sight[..k][0] == sight[0] && sight[..k][1..] == sight[1..][..k - 1];
    var d := Digest(sight[0], scratch, inFragment);
    if d.Continue? {
      AssemblePrefix(sight[1..], d.scratch, d.inFragment, k - 1);
    }
  }

  /** A record that is returned was found before the first apparent end. */
  lemma {:induction false} FoundBefore(sight: seq<Seen>, scratch: Bytes, inFragment: bool)
    requires Assemble(sight, scratch, inFragment).record.Some?
    ensures var used := Assemble(sight, scratch, inFragment).used;
      used <= BeforeEof(sight) && BeforeEof(sight[used..]) == BeforeEof(sight) - used
  {
    var d := Digest(sight[0], scratch, inFragment);
    if d.Continue? {
      FoundBefore(sight[1..], d.scratch, d.inFragment);
      assert sight[1..][Assemble(sight[1..], d.scratch, d.inFragment).used..] == sight[Assemble(sight, scratch, inFragment).used..];
    }
  }

  /** If none is returned the reader has stopped at the first apparent end or at the real one. */
  lemma {:induction false} NoneFound(sight: seq<Seen>, scratch: Bytes, inFragment: bool)
    requires Assemble(sight, scratch, inFragment).record.None?
    ensures Assemble(sight, scratch, inFragment).used == Min(BeforeEof(sight) + 1, |sight|)
    ensures var front := Assemble(sight[..BeforeEof(sight)], scratch, inFragment);
      front.record.None? && front.reports == Assemble(sight, scratch, inFragment).reports
  {
    if sight != [] && !LooksLikeEof(sight[0]) {
      var n := BeforeEof(sight);
      assert sight[..n][0] == sight[0] && sight[..n][1..] == sight[1..][..n - 1];
      var d := Digest(sight[0], scratch, inFragment);
      NoneFound(sight[1..], d.scratch, d.inFragment);
    }
  }

  /** A record with an accepted seal whose type byte is that of kEof ends the log without a report,
      whatever follows it; nothing else keeps the reader from going on to the end. */
  lemma {:induction false} SilentEnd(sight: seq<Seen>)
    ensures Consumed(sight) == Min(BeforeEof(sight) + 1, |sight|)
    ensures ReadAll(sight) == ReadAll(sight[..BeforeEof(sight)])
    decreases |sight|
  {
    var a, n := Assemble(sight, [], false), BeforeEof(sight);
    if a.record.Some? {
      FoundBefore(sight, [], false);
      AssemblePrefix(sight, [], false, n);
      SilentEnd(sight[a.used..]);
      assert sight[..n][a.used..] == sight[a.used..][..n - a.used];
    } else {
      NoneFound(sight, [], false);
    }
  }

  /** What stands first in sight of a header that is in the buffer. */
  lemma SeesHeader(seal: Seal, file: Bytes, c: Cursor)
    requires c.In(file) && Min(|file|, c.start + BLOCK) - c.Pos() >= HEADER
    ensures var parse := ParseHeader(seal, file[c.Pos()..Min(|file|, c.start + BLOCK)]);
      if parse.Fine? then Sight(seal, file, c) != [] && Sight(seal, file, c)[0] == Good(parse.piece)
      else Sight(seal, file, c) == [] || Sight(seal, file, c)[0].Garbage?
  {
  }

  lemma EndsReading(sight: seq<Seen>)
    requires sight != [] && LooksLikeEof(sight[0])
    ensures ReadAll(sight) == ([], [])
  {
  }

  /** The bytes on which that happens: a header with type byte 5 whose payload is in the buffer and
      whose seal is accepted. */
  lemma EofBytes(seal: Seal, file: Bytes, c: Cursor)
    requires c.In(file) && Min(|file|, c.start + BLOCK) - c.Pos() >= HEADER
    ensures var buffer := file[c.Pos()..Min(|file|, c.start + BLOCK)];
      var end := HEADER + buffer[4] as int + buffer[5] as int * 256;
      (buffer[6] == EOF && end <= |buffer| && seal.accepts([buffer[6]] + buffer[HEADER..end], buffer[..4]))
      <==> Sight(seal, file, c) != [] && LooksLikeEof(Sight(seal, file, c)[0])
    ensures Sight(seal, file, c) != [] && LooksLikeEof(Sight(seal, file, c)[0]) ==> ReadAll(Sight(seal, file, c)) == ([], [])
  {
    SeesHeader(seal, file, c);
    if Sight(seal, file, c) != [] && LooksLikeEof(Sight(seal, file, c)[0]) { EndsReading(Sight(seal, file, c)); }
  }

  function Goods(pieces: seq<Piece>): (r: seq<Seen>)
    ensures |r| == |pieces|
  {
    if pieces == [] then [] else [Good(pieces[0])] + Goods(pieces[1..])
  }

  lemma GoodsCons(piece: Piece, more: seq<Piece>, rest: seq<Seen>)
    ensures Goods([piece] + more) + rest == [Good(piece)] + (Goods(more) + rest)
  {
    assert ([piece] + more)[1..] == more;
  }

  /** The pieces of one record give the record back, without a report. */
  lemma {:induction false} AssembleWhole(off: nat, data: Bytes, begin: bool, scratch: Bytes, rest: seq<Seen>)
    requires off <= BLOCK && (begin ==> scratch == [])
    ensures Assemble(Goods(Pieces(off, data, begin)) + rest, scratch, !begin)
         == Outcome(Some(scratch + data), |Pieces(off, data, begin)|, [])
    decreases |data|, if off == BLOCK - HEADER then 1 else 0
  {
    var n := Min(|data|, BLOCK - Fresh(off) - HEADER);
    if n == |data| {
      var piece := Piece(RecordType(begin, true), data);
      assert data[..n] == data;
      assert Pieces(off, data, begin) == [piece] + [];
      GoodsCons(piece, [], rest);
      AssembleStep([Good(piece)] + (Goods([]) + rest), begin, true, data, scratch);
    } else {
      var piece := Piece(RecordType(begin, false), data[..n]);
      var more := Pieces(NextOff(off, piece), data[n..], false);
      assert Pieces(off, data, begin) == [piece] + more;
      GoodsCons(piece, more, rest);
      AssembleStep([Good(piece)] + (Goods(more) + rest), begin, false, data[..n], scratch);
      assert scratch + data[..n] + data[n..] == scratch + data;
      AssembleWhole(NextOff(off, piece), data[n..], false, scratch + data[..n], rest);
    }
  }

  lemma AssembleStep(sight: seq<Seen>, begin: bool, end: bool, payload: Bytes, scratch: Bytes)
    requires sight != [] && sight[0] == Good(Piece(RecordType(begin, end), payload)) && (begin ==> scratch == [])
    ensures Assemble(sight, scratch, !begin)
         == if end then Outcome(Some(scratch + payload), 1, [])
            else var rest := Assemble(sight[1..], scratch + payload, true);
                 Outcome(rest.record, rest.used + 1, rest.reports)
  {
    assert begin ==> scratch + payload == payload;
  }

  /** Some but not all pieces of a record are dropped without a report. */
  lemma {:induction false} AssemblePart(off: nat, data: Bytes, begin: bool, scratch: Bytes, k: nat)
    requires off <= BLOCK && (begin ==> scratch == []) && k < |Pieces(off, data, begin)|
    ensures Assemble(Goods(Pieces(off, data, begin)[..k]), scratch, !begin) == Outcome(None, k, [])
    decreases |data|, if off == BLOCK - HEADER then 1 else 0
  {
    if k > 0 {
      var n := Min(|data|, BLOCK - Fresh(off) - HEADER);
      var piece := Piece(RecordType(begin, false), data[..n]);
      var more := Pieces(NextOff(off, piece), data[n..], false);
      assert Pieces(off, data, begin) == [piece] + more;
      var part := ([piece] + more)[..k];
      assert part[0] == piece && part[1..] == more[..k - 1];
      AssembleStep(Goods(part), begin, false, data[..n], scratch);
      AssemblePart(NextOff(off, piece), data[n..], false, scratch + data[..n], k - 1);
    }
  }

  // ---------- round trip ----------

  /** The file holds a layout of pieces: the reader sees them all and then whatever follows, or,
      if the file ends inside, the pieces before the cut and nothing else. */
  lemma {:induction false} SeesPieces(seal: Seal, file: Bytes, c: Cursor, pieces: seq<Piece>, rest: Bytes) returns (k: nat, d: Cursor)
    requires seal.Lawful() && c.off <= BLOCK && FitAll(c.off, pieces)
    requires forall i :: 0 <= i < |pieces| ==> pieces[i].t != 0
    requires Holds(file, c.Pos(), Layout(seal, c.off, pieces) + rest)
    ensures c.Pos() + |Layout(seal, c.off, pieces)| <= |file| ==>
              && d.In(file) && d.off == EndOff(c.off, pieces) && d.Pos() == c.Pos() + |Layout(seal, c.off, pieces)|
              && Holds(file, d.Pos(), rest) && Sight(seal, file, c) == Goods(pieces) + Sight(seal, file, d)
    ensures c.Pos() + |Layout(seal, c.off, pieces)| > |file| ==>
              k < |pieces| && Sight(seal, file, c) == Goods(pieces[..k])
    decreases |pieces|
  {
    if pieces == [] {
      k, d := 0, c;
      assert Layout(seal, c.off, pieces) + rest == rest;
    } else {
      var piece, more := pieces[0], pieces[1..];
      assert pieces == [piece] + more;
      var next := SeesPiece(seal, file, c, piece, more, rest);
      if next.In(file) {
        k, d := SeesPieces(seal, file, next, more, rest);
        SeesMore(seal, file, c, piece, next, more, if next.Pos() + |Layout(seal, next.off, more)| <= |file| then Sight(seal, file, d) else []);
        k := k + 1;
        if k < |pieces| {
          assert pieces[..k] == [piece] + more[..k - 1];
          GoodsCons(piece, more[..k - 1], []);
        }
      } else {
        k, d := 0, c;
      }
    }
  }

  lemma SeesPiece(seal: Seal, file: Bytes, c: Cursor, piece: Piece, more: seq<Piece>, rest: Bytes) returns (next: Cursor)
    requires seal.Lawful() && c.off <= BLOCK && FitAll(c.off, [piece] + more) && piece.t != 0
    requires Holds(file, c.Pos(), Layout(seal, c.off, [piece] + more) + rest)
    ensures Fits(c.off, piece) && next == NextAt(c, piece) && FitAll(next.off, more)
    ensures c.Pos() + |Layout(seal, c.off, [piece] + more)| == next.Pos() + |Layout(seal, next.off, more)|
    ensures EndOff(c.off, [piece] + more) == EndOff(next.off, more)
    ensures if next.In(file) then Sight(seal, file, c) == [Good(piece)] + Sight(seal, file, next) else Sight(seal, file, c) == []
    ensures next.In(file) ==> Holds(file, next.Pos(), Layout(seal, next.off, more) + rest)
  {
    assert ([piece] + more)[1..] == more;
    next := NextAt(c, piece);
    LayoutUnfold(seal, c.off, piece, more);
    var tail := Layout(seal, next.off, more);
    Shift(Zeros(Pad(c.off)), Physical(seal, piece.t, piece.payload), tail, rest);
    ReadsPiece(seal, file, c, piece, tail + rest);
    if next.In(file) { SightCons(seal, file, c, piece, next); }
  }

  lemma SeesMore(seal: Seal, file: Bytes, c: Cursor, piece: Piece, next: Cursor, more: seq<Piece>, tail: seq<Seen>)
    requires c.In(file) && next.In(file) && Sight(seal, file, c) == [Good(piece)] + Sight(seal, file, next)
    ensures Sight(seal, file, next) == Goods(more) + tail ==> Sight(seal, file, c) == Goods([piece] + more) + tail
  {
    GoodsCons(piece, more, tail);
  }

  lemma Shift(a: Bytes, b: Bytes, c: Bytes, d: Bytes)
    ensures a + b + c + d == a + b + (c + d)
  {
  }

  lemma SightCons(seal: Seal, file: Bytes, c: Cursor, piece: Piece, next: Cursor)
    requires c.In(file) && ReadPhys(seal, file, c) == Rec(piece, next)
    ensures Sight(seal, file, c) == [Good(piece)] + Sight(seal, file, next)
  {
  }

  /** How many of the records lie wholly in the first `room` bytes. */
  function Complete(seal: Seal, off: nat, records: seq<Bytes>, room: nat): (n: nat)
    requires off <= BLOCK
    ensures n <= |records|
    decreases |records|
  {
    if records == [] then 0
    else
      var pieces := Pieces(off, records[0], true);
      var size := |Layout(seal, off, pieces)|;
      if size > room then 0 else 1 + Complete(seal, EndOff(off, pieces), records[1..], room - size)
  }

  lemma {:induction false} PieceTypes(off: nat, data: Bytes, begin: bool)
    requires off <= BLOCK
    ensures forall i :: 0 <= i < |Pieces(off, data, begin)| ==> Pieces(off, data, begin)[i].t != 0
    decreases |data|, if off == BLOCK - HEADER then 1 else 0
  {
    var n := Min(|data|, BLOCK - Fresh(off) - HEADER);
    if n < |data| {
      var piece := Piece(RecordType(begin, false), data[..n]);
      PieceTypes(NextOff(off, piece), data[n..], false);
    }
  }

  /** One record: the reader returns it and goes on behind it, or, if the file ends inside, returns
      nothing at all. */
  lemma ReadsOne(seal: Seal, file: Bytes, c: Cursor, data: Bytes, rest: Bytes) returns (d: Cursor)
    requires seal.Lawful() && c.off <= BLOCK
    requires Holds(file, c.Pos(), Layout(seal, c.off, Pieces(c.off, data, true)) + rest)
    ensures var size := |Layout(seal, c.off, Pieces(c.off, data, true))|;
            if c.Pos() + size <= |file| then
              && d.In(file) && d.off == EndOff(c.off, Pieces(c.off, data, true)) && d.Pos() == c.Pos() + size
              && Holds(file, d.Pos(), rest)
              && ReadAll(Sight(seal, file, c)).0 == [data] + ReadAll(Sight(seal, file, d)).0
              && ReadAll(Sight(seal, file, c)).1 == ReadAll(Sight(seal, file, d)).1
            else ReadAll(Sight(seal, file, c)) == ([], [])
  {
    var pieces := Pieces(c.off, data, true);
    PieceTypes(c.off, data, true);
    var k: nat;
    k, d := SeesPieces(seal, file, c, pieces, rest);
    if c.Pos() + |Layout(seal, c.off, pieces)| <= |file| {
      AssembleWhole(c.off, data, true, [], Sight(seal, file, d));
      assert [] + data == data;
      ReadAllStep(Goods(pieces), Sight(seal, file, d), data);
    } else {
      AssemblePart(c.off, data, true, [], k);
    }
  }

  /** The cursor is at a record boundary, with `records` written behind it and nothing after them. */
  ghost predicate Ahead(seal: Seal, file: Bytes, c: Cursor, records: seq<Bytes>) {
    && c.off <= BLOCK && Holds(file, c.Pos(), Written(seal, c.off, records))
    && |file| <= c.Pos() + |Written(seal, c.off, records)|
  }

  /** From the cursor on, the reader returns the records that are wholly in the file and reports
      nothing. */
  lemma {:induction false} ReadsRecords(seal: Seal, file: Bytes, c: Cursor, records: seq<Bytes>)
      returns (n: nat, all: (seq<Bytes>, seq<nat>))
    requires seal.Lawful() && Ahead(seal, file, c, records)
    ensures n <= |records| && n == Complete(seal, c.off, records, |file| - c.Pos())
    ensures all == ReadAll(Sight(seal, file, c)) && all == (records[..n], [])
    decreases |records|
  {
    all := ReadAll(Sight(seal, file, c));
    if records == [] {
      NothingLeft(seal, file, c);
      n := 0;
    } else {
      var whole, d := ReadsFirst(seal, file, c, records);
      if whole {
        var more;
        n, more := ReadsRecords(seal, file, d, records[1..]);
        CompleteStep(seal, file, c, d, records, n);
        OneMore(records, n, all, more);
        n := n + 1;
      } else {
        n := 0;
      }
    }
  }

  /** The cursor `d` is where the first of the records ends. */
  ghost predicate Behind(seal: Seal, c: Cursor, d: Cursor, data: Bytes)
    requires c.off <= BLOCK
  {
    var pieces := Pieces(c.off, data, true);
    d.off == EndOff(c.off, pieces) && d.Pos() == c.Pos() + |Layout(seal, c.off, pieces)|
  }

  lemma CompleteStep(seal: Seal, file: Bytes, c: Cursor, d: Cursor, records: seq<Bytes>, n: nat)
    requires c.off <= BLOCK && d.off <= BLOCK && records != [] && Behind(seal, c, d, records[0]) && d.Pos() <= |file|
    requires n == Complete(seal, d.off, records[1..], |file| - d.Pos())
    ensures Complete(seal, c.off, records, |file| - c.Pos()) == n + 1
  {
  }

  lemma ReadsFirst(seal: Seal, file: Bytes, c: Cursor, records: seq<Bytes>) returns (whole: bool, d: Cursor)
    requires seal.Lawful() && records != [] && Ahead(seal, file, c, records)
    ensures whole ==> d.In(file) && Behind(seal, c, d, records[0]) && Ahead(seal, file, d, records[1..])
    ensures whole ==> ReadAll(Sight(seal, file, c)).0 == [records[0]] + ReadAll(Sight(seal, file, d)).0
    ensures whole ==> ReadAll(Sight(seal, file, c)).1 == ReadAll(Sight(seal, file, d)).1
    ensures !whole ==> Complete(seal, c.off, records, |file| - c.Pos()) == 0 && ReadAll(Sight(seal, file, c)) == ([], [])
  {
    var pieces := Pieces(c.off, records[0], true);
    whole := c.Pos() + |Layout(seal, c.off, pieces)| <= |file|;
    d := ReadsOne(seal, file, c, records[0], Written(seal, EndOff(c.off, pieces), records[1..]));
  }

  lemma OneMore(records: seq<Bytes>, n: nat, all: (seq<Bytes>, seq<nat>), more: (seq<Bytes>, seq<nat>))
    requires n < |records| && more == (records[1..][..n], []) && all.0 == [records[0]] + more.0 && all.1 == more.1
    ensures all == (records[..n + 1], [])
  {
    PrefixCons(records, n);
  }

  lemma ReadAllUnfold(sight: seq<Seen>, data: Bytes, n: nat)
    requires n <= |sight| && Assemble(sight, [], false) == Outcome(Some(data), n, [])
    ensures ReadAll(sight).0 == [data] + ReadAll(sight[n..]).0 && ReadAll(sight).1 == ReadAll(sight[n..]).1
  {
    assert [] + ReadAll(sight[n..]).1 == ReadAll(sight[n..]).1;
  }

  lemma ReadAllStep(goods: seq<Seen>, rest: seq<Seen>, data: Bytes)
    requires Assemble(goods + rest, [], false) == Outcome(Some(data), |goods|, [])
    ensures ReadAll(goods + rest).0 == [data] + ReadAll(rest).0 && ReadAll(goods + rest).1 == ReadAll(rest).1
  {
    ReadAllUnfold(goods + rest, data, |goods|);
    assert (goods + rest)[|goods|..] == rest;
  }

  lemma PrefixCons(records: seq<Bytes>, n: nat)
    requires n < |records|
    ensures [records[0]] + records[1..][..n] == records[..n + 1]
  {
  }

  lemma NothingLeft(seal: Seal, file: Bytes, c: Cursor)
    requires c.In(file) && c.Pos() == |file|
    ensures Sight(seal, file, c) == []
  {
  }

  /** The log round trip: cut the written file at any byte, and reading it returns exactly the
      records wholly before the cut, without reporting a corruption. */
  lemma LogRoundTrip(seal: Seal, records: seq<Bytes>, cut: nat)
    requires seal.Lawful() && cut <= |Written(seal, 0, records)|
    ensures ReadAll(Sight(seal, Written(seal, 0, records)[..cut], At(0, 0)))
         == (records[..Complete(seal, 0, records, cut)], [])
  {
    var n, all := ReadsRecords(seal, Written(seal, 0, records)[..cut], At(0, 0), records);
  }

  /** The complete records are the longest prefix whose bytes fit in the room. */
  lemma {:induction false} CompleteIsLongest(seal: Seal, off: nat, records: seq<Bytes>, room: nat)
    requires off <= BLOCK
    ensures var n := Complete(seal, off, records, room);
            && |Written(seal, off, records[..n])| <= room
            && (n < |records| ==> |Written(seal, off, records[..n + 1])| > room)
    decreases |records|
  {
    if records != [] {
      var pieces := Pieces(off, records[0], true);
      var size, end := |Layout(seal, off, pieces)|, EndOff(off, pieces);
      WrittenPrefix(seal, off, records, 1);
      if size <= room {
        CompleteIsLongest(seal, end, records[1..], room - size);
        var n := Complete(seal, end, records[1..], room - size);
        WrittenPrefix(seal, off, records, n + 1);
        if n + 1 < |records| { WrittenPrefix(seal, off, records, n + 2); }
      }
    }
  }

  lemma WrittenPrefix(seal: Seal, off: nat, records: seq<Bytes>, n: nat)
    requires off <= BLOCK && 0 < n <= |records|
    ensures var pieces := Pieces(off, records[0], true);
            |Written(seal, off, records[..n])| == |Layout(seal, off, pieces)| + |Written(seal, EndOff(off, pieces), records[1..][..n - 1])|
  {
    assert records[..n][1..] == records[1..][..n - 1];
  }

  lemma {:induction false} AllComplete(seal: Seal, off: nat, records: seq<Bytes>)
    requires off <= BLOCK
    ensures Complete(seal, off, records, |Written(seal, off, records)|) == |records|
    decreases |records|
  {
    if records != [] {
      AllComplete(seal, EndOff(off, Pieces(off, records[0], true)), records[1..]);
    }
  }

  // ---------- the reader ----------

  class Reader {
    const seal: Seal
    const file: Bytes
    var pos: nat              // how far the file was read
    var buffer: Bytes         // what is left of the block last read
    var eof: bool             // the last read was short
    var reports: seq<nat>     // sizes passed to the reporter
    ghost var at: Cursor

    ghost predicate Valid()
      reads this
    {
      && pos <= |file| && |buffer| <= pos && buffer == file[pos - |buffer|..pos]
      && at.In(file) && at.Pos() == pos - |buffer|
      && if eof then pos == |file| && at.start + BLOCK > |file|
         else pos == at.start + BLOCK || (pos == at.start && at.off == 0)
    }

    constructor (seal: Seal, file: Bytes)
      ensures Valid() && this.seal == seal && this.file == file && at == At(0, 0) && reports == []
    {
      this.seal, this.file, this.pos, this.buffer, this.eof, this.reports := seal, file, 0, [], false, [];
      at := At(0, 0);
    }

    /** Fetches the next block. */
    method ReadBlock()
      requires Valid() && !eof && |buffer| < HEADER
      modifies this
      ensures Valid() && reports == old(reports) && ReadPhys(seal, file, at) == ReadPhys(seal, file, old(at))
      ensures eof || (|buffer| == BLOCK && pos > old(pos))
    {
      at := if pos == at.start + BLOCK then At(pos, 0) else at;
      var n := if |file| - pos < BLOCK then |file| - pos else BLOCK;
      buffer := file[pos..pos + n];
      pos := pos + n;
      eof := n < BLOCK;
    }
  
    /** Gives up on the rest of the buffer. */
    method Drop()
      requires Valid() && |buffer| >= HEADER
      modifies this
      ensures Valid() && reports == old(reports) && eof == old(eof) && at == Skip(file, old(at).start)
    {
      buffer := [];
      at := Skip(file, at.start);
    }

    /** Takes bytes off the front of the buffer. */
    method Advance(n: nat)
      requires Valid() && 0 < n <= |buffer|
      modifies this
      ensures Valid() && reports == old(reports) && at == At(old(at).start, old(at).off + n)
    {
      SubSlice(file, pos - |buffer|, pos, n, |buffer|);
      buffer := buffer[n..];
      at := At(at.start, at.off + n);
    }

    lemma BufferIsRest()
      requires Valid() && |buffer| >= HEADER
      ensures Min(|file|, at.start + BLOCK) - at.Pos() == |buffer|
      ensures file[at.Pos()..Min(|file|, at.start + BLOCK)] == buffer
      ensures FullBlock(file, at.start) <==> !eof
    {
    }

    lemma ReadsBuffer()
      requires Valid() && |buffer| >= HEADER
      ensures ReadPhys(seal, file, at) == match ParseHeader(seal, buffer)
        case TooLong => if eof then Eof else Bad(Skip(file, at.start), Some(|buffer|))
        case ZeroFill => Bad(Skip(file, at.start), None)
        case BadSeal => Bad(Skip(file, at.start), Some(|buffer|))
        case Fine(piece) => Rec(piece, At(at.start, at.off + HEADER + |piece.payload|))
    {
      BufferIsRest();
    }

    /** Handles a header that is in the buffer. */
    method ParsePhysicalRecord() returns (seen: Option<Seen>)
      requires Valid() && |buffer| >= HEADER
      modifies this
      ensures Valid() && Saw(ReadPhys(seal, file, old(at)), seen, at)
      ensures reports == old(reports) + Dropped(seen)
    {
      ReadsBuffer();
      var dropSize, parse := |buffer|, ParseHeader(seal, buffer);
      if parse.Fine? {
        Advance(HEADER + |parse.piece.payload|);
        return Some(Good(parse.piece));
      }
      Drop();
      if parse.TooLong? && eof {
        NothingLeft(seal, file, at);
        return None;
      }
      if parse.ZeroFill? {
        return Some(Garbage(None));
      }
      reports := reports + [dropSize];
      return Some(Garbage(Some(dropSize)));
    }

    /** The outcome is what the specification reads here, and the cursor moves on accordingly. */
    ghost predicate Saw(r: Phys, seen: Option<Seen>, next: Cursor)
      requires next.In(file)
    {
      match r
      case Eof => seen.None? && Sight(seal, file, next) == []
      case Bad(d, dropped) => seen == Some(Garbage(dropped)) && next == d
      case Rec(piece, d) => seen == Some(Good(piece)) && next == d
    }

    method ReadPhysicalRecord() returns (seen: Option<Seen>)
      requires Valid()
      modifies this
      ensures Valid() && Saw(ReadPhys(seal, file, old(at)), seen, at)
      ensures reports == old(reports) + Dropped(seen)
    {
      var ended := FillBuffer();
      if ended { return None; }
      seen := ParsePhysicalRecord();
    }

    /** Reads blocks until the buffer holds a header, unless the file ends first. */
    method FillBuffer() returns (ended: bool)
      requires Valid()
      modifies this
      ensures Valid() && reports == old(reports)
      ensures if ended then ReadPhys(seal, file, old(at)).Eof? && Sight(seal, file, at) == []
              else |buffer| >= HEADER && ReadPhys(seal, file, at) == ReadPhys(seal, file, old(at))
    {
      while |buffer| < HEADER
        invariant Valid() && reports == old(reports) && ReadPhys(seal, file, at) == ReadPhys(seal, file, old(at))
        decreases |file| - pos, if eof then 0 else 1
      {
        if eof {
          ClearTail();
          return true;
        }
        ReadBlock();
      }
      return false;
    }

    /** A truncated header at the end of the file is the end of the log. */
    method ClearTail()
      requires Valid() && eof && |buffer| < HEADER
      modifies this
      ensures Valid() && reports == old(reports)
      ensures ReadPhys(seal, file, old(at)).Eof? && Sight(seal, file, at) == []
    {
      buffer := [];
      at := At(at.start, |file| - at.start);
      NothingLeft(seal, file, at);
    }

    /** The switch over record types, once a physical outcome is in. */
    method Absorb(seen: Seen, scratch: Bytes, inFragment: bool, ghost was: seq<nat>)
      returns (ended: bool, record: Option<Bytes>, scratch': Bytes, inFragment': bool)
      requires Valid() && reports == was + Dropped(Some(seen))
      modifies this`reports
      ensures Valid()
      ensures match Digest(seen, scratch, inFragment)
              case Stop => ended && record.None? && reports == was
              case Return(whole, drops) => !ended && record == Some(whole) && reports == was + drops
              case Continue(s, f, drops) =>
                !ended && record.None? && scratch' == s && inFragment' == f && reports == was + drops
    {
      ended, record, scratch', inFragment' := false, None, scratch, inFragment;
      match seen {
        case Garbage(_) =>
          if inFragment {
            reports := reports + [|scratch|];
          }
          inFragment', scratch' := false, [];
        case Good(Piece(t, payload)) =>
          if t == FULL || t == FIRST {
            if inFragment && scratch != [] {
              reports := reports + [|scratch|];
            }
            if t == FULL {
              record := Some(payload);
            } else {
              scratch', inFragment' := payload, true;
            }
          } else if t == MIDDLE || t == LAST {
            if !inFragment {
              reports := reports + [|payload|];
            } else {
              scratch' := scratch + payload;
              if t == LAST {
                record := Some(scratch');
              }
            }
          } else if t == EOF {
            ended := true;
          } else if t == BAD_RECORD {
            if inFragment {
              reports := reports + [|scratch|];
            }
            inFragment', scratch' := false, [];
          } else {
            reports := reports + [|payload| + if inFragment then |scratch| else 0];
            inFragment', scratch' := false, [];
          }
      }
    }

    /** One round of ReadRecord's loop. */
    method Round(scratch: Bytes, inFragment: bool, ghost all: seq<Seen>, ghost before: seq<nat>, ghost used: nat)
      returns (ended: bool, record: Option<Bytes>, scratch': Bytes, inFragment': bool, ghost used': nat)
      requires Valid() && used <= |all| && Sight(seal, file, at) == all[used..]
      requires Resumes(all, before, used, scratch, inFragment, reports)
      modifies this
      ensures Valid() && used' <= |all| && Sight(seal, file, at) == all[used'..]
      ensures ended ==> record.None?
      ensures ended || record.Some? ==> Delivers(all, before, record, used', reports)
      ensures !ended && record.None? ==>
                Resumes(all, before, used', scratch', inFragment', reports) && at.Pos() > old(at).Pos()
    {
      ghost var was, c := reports, at;
      var seen := ReadPhysicalRecord();
      if seen.None? {
        assert all[used..] == [];
        return true, None, scratch, inFragment, |all|;
      }
      SightStep(seal, file, c, seen.value, at);
      assert all[used..][0] == seen.value && all[used..][1..] == all[used + 1..];
      ResumeStep(all, before, used, scratch, inFragment, was, seen.value);
      used' := used + 1;
      ended, record, scratch', inFragment' := Absorb(seen.value, scratch, inFragment, was);
    }

    /** Returns the next logical record, if any, exactly as reassembling all that is in sight
        would, and leaves the rest in sight. */
    method ReadRecord() returns (record: Option<Bytes>)
      requires Valid()
      modifies this
      ensures Valid()
      ensures var a := Assemble(Sight(seal, file, old(at)), [], false);
        && record == a.record && reports == old(reports) + a.reports
        && Sight(seal, file, at) == Sight(seal, file, old(at))[a.used..]
    {
      var scratch: Bytes, inFragment, ended := [], false, false;
      ghost var all := Sight(seal, file, at);
      ghost var used: nat := 0;
      while true
        invariant Valid() && used <= |all| && Sight(seal, file, at) == all[used..]
        invariant Resumes(all, old(reports), used, scratch, inFragment, reports)
        decreases |file| - at.Pos()
      {
        ended, record, scratch, inFragment, used := Round(scratch, inFragment, all, old(reports), used);
        if ended || record.Some? {
          return;
        }
      }
    }
  }

  /** This is what reading all that was in sight comes to. */
  ghost predicate Delivers(all: seq<Seen>, before: seq<nat>, record: Option<Bytes>, used: nat, reports: seq<nat>) {
    var a := Assemble(all, [], false);
    a.record == record && a.used == used && before + a.reports == reports
  }

  function Dropped(seen: Option<Seen>): seq<nat> {
    if seen.Some? && seen.value.Garbage? && seen.value.dropped.Some? then [seen.value.dropped.value] else []
  }

  lemma SightStep(seal: Seal, file: Bytes, c: Cursor, seen: Seen, next: Cursor)
    requires c.In(file) && next.In(file)
    requires match ReadPhys(seal, file, c)
             case Eof => false
             case Bad(d, dropped) => seen == Garbage(dropped) && next == d
             case Rec(piece, d) => seen == Good(piece) && next == d
    ensures Sight(seal, file, c) == [seen] + Sight(seal, file, next) && next.Pos() > c.Pos()
  {
  }

  /** Going on from the middle of what is in sight comes to the same end as starting over. */
  ghost predicate Resumes(all: seq<Seen>, before: seq<nat>, used: nat, scratch: Bytes, inFragment: bool, reports: seq<nat>)
    requires used <= |all|
  {
    var a := Assemble(all, [], false);
    var b := Assemble(all[used..], scratch, inFragment);
    a.record == b.record && a.used == used + b.used && before + a.reports == reports + b.reports
  }

  lemma ResumeStep(all: seq<Seen>, before: seq<nat>, used: nat, scratch: Bytes, inFragment: bool, reports: seq<nat>, seen: Seen)
    requires used < |all| && all[used] == seen && Resumes(all, before, used, scratch, inFragment, reports)
    ensures match Digest(seen, scratch, inFragment)
            case Stop => Delivers(all, before, None, used + 1, reports)
            case Return(whole, drops) =>
              var a := Assemble(all, [], false);
              a.record == Some(whole) && a.used == used + 1 && before + a.reports == reports + drops
            case Continue(s, f, drops) => Resumes(all, before, used + 1, s, f, reports + drops)
  {
    hide Assemble;
    hide Digest;
    var sight := all[used..];
    assert sight[0] == seen && sight[1..] == all[used + 1..];
    AssembleUnfold(sight, scratch, inFragment);
    var d := Digest(seen, scratch, inFragment);
    if d.Continue? {
      var rest := Assemble(all[used + 1..], d.scratch, d.inFragment);
      assert reports + (d.reports + rest.reports) == reports + d.reports + rest.reports;
    }
  }

  lemma AssembleUnfold(sight: seq<Seen>, scratch: Bytes, inFragment: bool)
    requires sight != []
    ensures Assemble(sight, scratch, inFragment) ==
      match Digest(sight[0], scratch, inFragment)
      case Stop => Outcome(None, 1, [])
      case Return(record, reports) => Outcome(Some(record), 1, reports)
      case Continue(scratch', inFragment', reports) =>
        var rest := Assemble(sight[1..], scratch', inFragment');
        Outcome(rest.record, rest.used + 1, reports + rest.reports)
  {
  }
}
