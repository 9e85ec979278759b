/** Write batches (db/write_batch.cc): updates appended to a string behind a header of sequence number
    and count, and the loop that hands them to a memtable. */
module WriteBatches {
  import opened Coding
  import opened DbFormat

  /** A deletion comes with an empty value. */
  datatype Op = Op(kind: Kind, key: Bytes, value: Bytes)

  datatype Failure = TooSmall | BadPut | BadDelete | UnknownTag | WrongCount

  // ---------- the format ----------

  predicate Fits(op: Op) { Short(op.key) && Short(op.value) && (op.kind.Deletion? ==> op.value == []) }

  ghost predicate AllFit(ops: seq<Op>) { forall i :: 0 <= i < |ops| ==> Fits(ops[i]) }

  function OpBytes(op: Op): (r: Bytes)
    ensures |r| > 0
  {
    if op.kind.Put? then [1] + (Prefixed(op.key) + Prefixed(op.value)) else [0] + Prefixed(op.key)
  }

  function OpsBytes(ops: seq<Op>): Bytes {
    if ops == [] then [] else OpBytes(ops[0]) + OpsBytes(ops[1..])
  }

  /** The batch is made of this sequence number and these updates. */
  ghost predicate Carries(rep: Bytes, number: nat, ops: seq<Op>) {
    && |rep| >= 12 && AllFit(ops)
    && rep[..8] == Fixed64(number) && rep[8..12] == Fixed32(|ops|) && rep[12..] == OpsBytes(ops)
  }

  /** On any bytes, the update from `p` up to `next`. */
  ghost predicate OpAt(b: Bytes, p: nat, op: Op, next: nat) {
    && p < next <= |b|
    && match op.kind
       case Put => b[p] == 1 && exists m :: SliceAt(b, p + 1, op.key, m) && SliceAt(b, m, op.value, next)
       case Deletion => b[p] == 0 && op.value == [] && SliceAt(b, p + 1, op.key, next)
  }

  /** The updates stand end to end from `p` up to `end`. */
  ghost predicate OpsAt(b: Bytes, p: nat, ops: seq<Op>, end: nat)
    decreases |ops|
  {
    if ops == [] then p == end <= |b|
    else exists next :: OpAt(b, p, ops[0], next) && OpsAt(b, next, ops[1..], end)
  }

  lemma {:induction false} OpsConcat(a: seq<Op>, b: seq<Op>)
    ensures OpsBytes(a + b) == OpsBytes(a) + OpsBytes(b)
    decreases |a|
  {
    if a == [] {
      assert [] + b == b;
    } else {
      assert (a + b)[1..] == a[1..] + b;
      OpsConcat(a[1..], b);
      assert OpBytes(a[0]) + (OpsBytes(a[1..]) + OpsBytes(b)) == OpBytes(a[0]) + OpsBytes(a[1..]) + OpsBytes(b);
    }
  }

  lemma OpsSnoc(ops: seq<Op>, op: Op)
    ensures OpsBytes(ops + [op]) == OpsBytes(ops) + OpBytes(op)
  {
    OpsConcat(ops, [op]);
    assert [op][1..] == [] && OpBytes(op) + [] == OpBytes(op);
  }

  // ---------- reading updates ----------

  /** What one turn of the loop comes upon. */
  datatype Turn = Bad(failure: Failure) | Next(op: Op, next: nat)

  function GetPut(b: Bytes, p: nat): (r: Turn)
    ensures r.Next? ==> p < r.next <= |b|
  {
    var key := GetSlice(b, p);
    if key.Failed? then Bad(BadPut)
    else
      var value := GetSlice(b, key.next);
      if value.Failed? then Bad(BadPut) else Next(Op(Put, key.value, value.value), value.next)
  }

  function GetDelete(b: Bytes, p: nat): (r: Turn)
    ensures r.Next? ==> p < r.next <= |b|
  {
    var key := GetSlice(b, p);
    if key.Failed? then Bad(BadDelete) else Next(Op(Deletion, key.value, []), key.next)
  }

  function NextOp(b: Bytes, p: nat): (r: Turn)
    requires p < |b|
    ensures r.Next? ==> p < r.next <= |b|
  {
    if b[p] == 1 then GetPut(b, p + 1) else if b[p] == 0 then GetDelete(b, p + 1) else Bad(UnknownTag)
  }

  lemma PutExactly(b: Bytes, p: nat, op: Op, next: nat)
    requires op.kind.Put?
    ensures GetPut(b, p) == Next(op, next) <==> exists m :: SliceAt(b, p, op.key, m) && SliceAt(b, m, op.value, next)
  {
    hide SliceAt;
    var key := GetSlice(b, p);
    if key.Parsed? {
      SliceExactly(b, p, key.value, key.next);
      SliceExactly(b, key.next, op.value, next);
    }
    forall m | SliceAt(b, p, op.key, m) ensures key == Parsed(op.key, m) { SliceExactly(b, p, op.key, m); }
  }

  /** One turn, on any bytes, takes the update that is there. */
  lemma OpExactly(b: Bytes, p: nat, op: Op, next: nat)
    requires p < |b|
    ensures NextOp(b, p) == Next(op, next) <==> OpAt(b, p, op, next)
  {
    hide SliceAt;
    hide GetSlice;
    if op.kind.Put? { PutExactly(b, p + 1, op, next); }
    SliceExactly(b, p + 1, op.key, next);
  }

  /** The updates handed out from `p` on, where the loop stops, and why, if not for the end. */
  datatype Scanned = Scanned(ops: seq<Op>, end: nat, failure: Option<Failure>)

  function Scan(b: Bytes, p: nat): (r: Scanned)
    requires p <= |b|
    decreases |b| - p
  {
    if p == |b| then Scanned([], p, None)
    else
      match NextOp(b, p)
      case Bad(failure) => Scanned([], p, Some(failure))
      case Next(op, next) => var rest := Scan(b, next); rest.(ops := [op] + rest.ops)
  }

  /** The updates handed out are those that stand end to end from `p` on; the loop goes on to the end of
      the string, or to where no update stands. */
  lemma {:induction false} ScanExactly(b: Bytes, p: nat)
    requires p <= |b|
    ensures var r := Scan(b, p);
      && p <= r.end <= |b| && OpsAt(b, p, r.ops, r.end) && (r.failure.None? <==> r.end == |b|)
      && (r.failure.Some? ==> forall op, next :: !OpAt(b, r.end, op, next))
    decreases |b| - p
  {
    if p < |b| {
      var r := Scan(b, p);
      match NextOp(b, p)
      case Bad(_) =>
        forall op, next ensures !OpAt(b, p, op, next) { OpExactly(b, p, op, next); }
      case Next(op, next) =>
        OpExactly(b, p, op, next);
        ScanExactly(b, next);
        assert r.ops[1..] == Scan(b, next).ops;
    }
  }

  /** Updates that stand end to end up to the end of the string are handed out. */
  lemma {:induction false} ScansAll(b: Bytes, p: nat, ops: seq<Op>)
    requires p <= |b| && OpsAt(b, p, ops, |b|)
    ensures Scan(b, p) == Scanned(ops, |b|, None)
    decreases |ops|
  {
    hide NextOp;
    if ops != [] {
      var next :| OpAt(b, p, ops[0], next) && OpsAt(b, next, ops[1..], |b|);
      OpExactly(b, p, ops[0], next);
      ScansAll(b, next, ops[1..]);
    }
  }

  /** An update is read back where it was written. */
  lemma ReadsOp(b: Bytes, p: nat, op: Op)
    requires Has(b, p, OpBytes(op)) && Fits(op)
    ensures p < |b| && NextOp(b, p) == Next(op, p + |OpBytes(op)|)
  {
    hide GetSlice;
    if op.kind.Put? {
      HasSplit(b, p, [1], Prefixed(op.key) + Prefixed(op.value));
      HasSplit(b, p + 1, Prefixed(op.key), Prefixed(op.value));
      assert b[p] == b[p..p + 1][0];
      ReadsSlice(b, p + 1, op.key);
      ReadsSlice(b, p + 1 + |Prefixed(op.key)|, op.value);
    } else {
      HasSplit(b, p, [0], Prefixed(op.key));
      assert b[p] == b[p..p + 1][0];
      ReadsSlice(b, p + 1, op.key);
    }
  }

  lemma {:induction false} ReadsOps(b: Bytes, p: nat, ops: seq<Op>)
    requires Has(b, p, OpsBytes(ops)) && p + |OpsBytes(ops)| == |b| && AllFit(ops)
    ensures Scan(b, p) == Scanned(ops, |b|, None)
    decreases |ops|
  {
    hide OpBytes;
    hide NextOp;
    if ops != [] {
      HasSplit(b, p, OpBytes(ops[0]), OpsBytes(ops[1..]));
      assert Fits(ops[0]) && AllFit(ops[1..]);
      ReadsOp(b, p, ops[0]);
      ReadsOps(b, p + |OpBytes(ops[0])|, ops[1..]);
    }
  }

  // ---------- batches ----------

  /** The bytes with others in place of those from `p` on. */
  function Patch(rep: Bytes, p: nat, s: Bytes): Bytes
    requires p + |s| <= |rep|
  {
    rep[..p] + s + rep[p + |s|..]
  }

  class WriteBatch {
    var rep: Bytes

    ghost predicate Valid()
      reads this
    {
      |rep| >= 12
    }

    constructor ()
      ensures Valid() && Carries(rep, 0, [])
    {
      rep := [0, 0, 0, 0, 0, 0, 0, 0, 0, 0, 0, 0];
    }

    method Count() returns (n: nat)
      requires Valid()
      ensures n == Decode32(rep[8..12])
    {
      n := Decode32(rep[8..12]);
    }

    /** The count has 32 bits. */
    method SetCount(n: nat)
      requires Valid()
      modifies this
      ensures Valid() && rep == Patch(old(rep), 8, Fixed32(n % 0x1_0000_0000))
    {
      rep := Patch(rep, 8, Fixed32(n % 0x1_0000_0000));
    }

    method SetSequence(number: nat)
      requires Valid()
      modifies this
      ensures Valid() && rep == Patch(old(rep), 0, Fixed64(number))
      ensures forall n, ops {:trigger Carries(old(rep), n, ops)} :: Carries(old(rep), n, ops) ==> Carries(rep, number, ops)
    {
      rep := Patch(rep, 0, Fixed64(number));
      assert rep[..8] == Fixed64(number) && rep[8..12] == old(rep)[8..12] && rep[12..] == old(rep)[12..];
    }

    /** The batch carries one more update, at its end. */
    method Put(key: Bytes, value: Bytes)
      requires Valid() && Short(key) && Short(value)
      modifies this
      ensures Valid()
      ensures forall n, ops {:trigger Carries(old(rep), n, ops)} ::
        Carries(old(rep), n, ops) && |ops| + 1 < 0x1_0000_0000 ==> Carries(rep, n, ops + [Op(DbFormat.Put, key, value)])
    {
      AddUpdate(Op(DbFormat.Put, key, value));
    }

    method Delete(key: Bytes)
      requires Valid() && Short(key)
      modifies this
      ensures Valid()
      ensures forall n, ops {:trigger Carries(old(rep), n, ops)} ::
        Carries(old(rep), n, ops) && |ops| + 1 < 0x1_0000_0000 ==> Carries(rep, n, ops + [Op(Deletion, key, [])])
    {
      AddUpdate(Op(Deletion, key, []));
    }

    method AddUpdate(op: Op)
      requires Valid() && Fits(op)
      modifies this
      ensures Valid()
      ensures forall n, ops {:trigger Carries(old(rep), n, ops)} ::
        Carries(old(rep), n, ops) && |ops| + 1 < 0x1_0000_0000 ==> Carries(rep, n, ops + [op])
    {
      var count := Count();
      SetCount(count + 1);
      rep := rep + OpBytes(op);
      GrowsBy(old(rep), [op], (count + 1) % 0x1_0000_0000, rep);
    }

    /** The updates of the other batch follow, in their order. */
    method Append(source: WriteBatch)
      requires Valid() && source.Valid() && source != this
      modifies this
      ensures Valid() && source.rep == old(source.rep)
      ensures forall n, ops, m, more {:trigger Carries(old(rep), n, ops), Carries(source.rep, m, more)} ::
        Carries(old(rep), n, ops) && Carries(source.rep, m, more) && |ops| + |more| < 0x1_0000_0000 ==> Carries(rep, n, ops + more)
    {
      var a := Count();
      var b := source.Count();
      SetCount(a + b);
      rep := rep + source.rep[12..];
      forall m, more | Carries(source.rep, m, more) && |more| < WORD
        ensures forall n, ops {:trigger Carries(old(rep), n, ops)} ::
          Carries(old(rep), n, ops) && |ops| + |more| < WORD ==> Carries(rep, n, ops + more)
      {
        Fixed32RoundTrip(|more|);
        GrowsBy(old(rep), more, (a + b) % 0x1_0000_0000, rep);
      }
    }
  }

  /** The count goes up by the number of updates appended. */
  lemma GrowsBy(rep: Bytes, more: seq<Op>, total: nat, rep': Bytes)
    requires |rep| >= 12 && AllFit(more) && total == (Decode32(rep[8..12]) + |more|) % 0x1_0000_0000
    requires rep' == Patch(rep, 8, Fixed32(total)) + OpsBytes(more)
    ensures forall n, ops {:trigger Carries(rep, n, ops)} ::
      Carries(rep, n, ops) && |ops| + |more| < WORD ==> Carries(rep', n, ops + more)
  {
    hide Patch;
    hide OpsBytes;
    hide Fixed64;
    forall n, ops | Carries(rep, n, ops) && |ops| + |more| < WORD ensures Carries(rep', n, ops + more) {
      CountIs(rep, n, ops);
      Wraps(Decode32(rep[8..12]) + |more|);
      assert total == |ops + more|;
      Extends(rep, n, ops, more, Fixed32(total));
    }
  }

  lemma PatchCount(rep: Bytes, s: Bytes, tail: Bytes)
    requires |rep| >= 12 && |s| == 4
    ensures var r := Patch(rep, 8, s) + tail;
      |r| >= 12 && r[..8] == rep[..8] && r[8..12] == s && r[12..] == rep[12..] + tail
  {
  }

  lemma Wraps(n: nat)
    requires n < 0x1_0000_0000
    ensures n % 0x1_0000_0000 == n
  {
  }

  lemma CountIs(rep: Bytes, n: nat, ops: seq<Op>)
    requires Carries(rep, n, ops) && |ops| < WORD
    ensures Decode32(rep[8..12]) == |ops|
  {
    Fixed32RoundTrip(|ops|);
  }

  /** More updates at the end, and their number added to the count. */
  lemma Extends(rep: Bytes, number: nat, ops: seq<Op>, more: seq<Op>, count: Bytes)
    requires Carries(rep, number, ops) && AllFit(more) && count == Fixed32(|ops + more|)
    ensures Carries(Patch(rep, 8, count) + OpsBytes(more), number, ops + more)
  {
    hide OpsBytes;
    hide Fixed64;
    hide Fits;
    hide Patch;
    hide Fixed32;
    PatchCount(rep, count, OpsBytes(more));
    OpsConcat(ops, more);
  }

  // ---------- inserting into a memtable ----------

  /** A call of MemTable::Add. */
  datatype Addition = Addition(number: nat, op: Op)

  /** The updates under consecutive numbers. */
  function Numbered(number: nat, ops: seq<Op>): (r: seq<Addition>)
    ensures |r| == |ops| && forall i :: 0 <= i < |ops| ==> r[i] == Addition(number + i, ops[i])
  {
    seq(|ops|, i requires 0 <= i < |ops| => Addition(number + i, ops[i]))
  }

  class MemTableInserter {
    var sequence: nat
    var mem: seq<Addition>   // the calls of MemTable::Add so far

    constructor (sequence: nat)
      ensures this.sequence == sequence && mem == []
    {
      this.sequence, mem := sequence, [];
    }

    method Handle(op: Op)
      modifies this
      ensures sequence == old(sequence) + 1 && mem == old(mem) + [Addition(old(sequence), op)]
    {
      mem := mem + [Addition(sequence, op)];
      sequence := sequence + 1;
    }
  }

  lemma NumberedSnoc(number: nat, ops: seq<Op>, op: Op)
    ensures Numbered(number, ops + [op]) == Numbered(number, ops) + [Addition(number + |ops|, op)]
  {
  }

  /** The loop has handed out `done` and is at `p`. */
  ghost predicate Handed(rep: Bytes, p: nat, done: seq<Op>) {
    12 <= p <= |rep| && Scan(rep, 12) == Scan(rep, p).(ops := done + Scan(rep, p).ops)
  }

  lemma HandsNothing(rep: Bytes)
    requires |rep| >= 12
    ensures Handed(rep, 12, [])
  {
    assert [] + Scan(rep, 12).ops == Scan(rep, 12).ops;
  }

  lemma HandsOne(rep: Bytes, p: nat, done: seq<Op>)
    requires Handed(rep, p, done)
    ensures p == |rep| ==> Scan(rep, 12) == Scanned(done, p, None)
    ensures p < |rep| && NextOp(rep, p).Bad? ==> Scan(rep, 12) == Scanned(done, p, Some(NextOp(rep, p).failure))
    ensures p < |rep| && NextOp(rep, p).Next? ==> Handed(rep, NextOp(rep, p).next, done + [NextOp(rep, p).op])
  {
    hide NextOp;
    if p < |rep| && NextOp(rep, p).Next? {
      var rest := Scan(rep, NextOp(rep, p).next);
      assert done + ([NextOp(rep, p).op] + rest.ops) == done + [NextOp(rep, p).op] + rest.ops;
    } else {
      assert done + [] == done;
    }
  }

  /** WriteBatch::Iterate, on any bytes: the handler gets the updates that stand behind the header, up to
      the first place where none stands, whatever comes of it. */
  method Iterate(rep: Bytes, handler: MemTableInserter) returns (failure: Option<Failure>)
    modifies handler
    ensures |rep| < 12 ==> failure == Some(TooSmall) && handler.mem == old(handler.mem) && handler.sequence == old(handler.sequence)
    ensures |rep| >= 12 ==> handler.mem == old(handler.mem) + Numbered(old(handler.sequence), Scan(rep, 12).ops)
    ensures |rep| >= 12 ==> handler.sequence == old(handler.sequence) + |Scan(rep, 12).ops|
    ensures |rep| >= 12 ==>
      failure == if Scan(rep, 12).failure.Some? then Scan(rep, 12).failure
                 else if |Scan(rep, 12).ops| != Decode32(rep[8..12]) then Some(WrongCount) else None
  {
    if |rep| < 12 {
      return Some(TooSmall);
    }
    hide Scan;
    hide NextOp;
    hide Numbered;
    hide Handed;
    var p, found := 12, 0;
    ghost var done: seq<Op> := [];
    HandsNothing(rep);
    while p < |rep|
      invariant 12 <= p <= |rep| && found == |done| && Handed(rep, p, done)
      invariant handler.mem == old(handler.mem) + Numbered(old(handler.sequence), done)
      invariant handler.sequence == old(handler.sequence) + |done|
      decreases |rep| - p
    {
      HandsOne(rep, p, done);
      var turn := NextOp(rep, p);
      if turn.Bad? {
        return Some(turn.failure);
      }
      handler.Handle(turn.op);
      NumberedSnoc(old(handler.sequence), done, turn.op);
      done := done + [turn.op];
      p, found := turn.next, found + 1;
    }
    HandsOne(rep, p, done);
    failure := if found != Decode32(rep[8..12]) then Some(WrongCount) else None;
  }

  /** InsertInto: the memtable gets the updates under consecutive numbers, from that of the header on. It
      succeeds just if these are all there is behind the header, and as many as its count says. */
  method InsertInto(rep: Bytes, mem: seq<Addition>) returns (mem': seq<Addition>, failure: Option<Failure>, ghost ops: seq<Op>)
    requires |rep| >= 12
    ensures ops == Scan(rep, 12).ops && mem' == mem + Numbered(Decode64(rep[..8]), ops)
    ensures exists end: nat :: OpsAt(rep, 12, ops, end) && (end < |rep| ==> failure.Some? && forall op, next :: !OpAt(rep, end, op, next))
    ensures failure.None? <==> OpsAt(rep, 12, ops, |rep|) && |ops| == Decode32(rep[8..12])
  {
    hide Decode64;
    hide Decode32;
    hide Numbered;
    hide OpAt;
    hide OpsAt;
    hide Scan;
    ghost var first := Decode64(rep[..8]);
    var handler := new MemTableInserter(Decode64(rep[..8]));
    failure := Iterate(rep, handler);
    ops := Scan(rep, 12).ops;
    ScanExactly(rep, 12);
    if OpsAt(rep, 12, ops, |rep|) { ScansAll(rep, 12, ops); }
    assert [] + Numbered(first, ops) == Numbered(first, ops);
    mem' := mem + handler.mem;
  }

  /** Inserting undoes building: the memtable gets just the updates the batch carries. */
  lemma InsertsWhatItCarries(rep: Bytes, number: nat, ops: seq<Op>)
    requires Carries(rep, number, ops) && number < LONG && |ops| < WORD
    ensures Scan(rep, 12) == Scanned(ops, |rep|, None)
    ensures Decode64(rep[..8]) == number && Decode32(rep[8..12]) == |ops|
  {
    assert rep[12..12 + |OpsBytes(ops)|] == rep[12..];
    ReadsOps(rep, 12, ops);
    Fixed32RoundTrip(|ops|);
    Fixed64RoundTrip(number);
  }
}
