/** What the log reader makes of bytes that no writer left (db/log_reader.cc): every record returned is
    stored in the file under accepted seals, every byte seen is returned or reported, and damage costs
    no more than the records and blocks it touches. */
module LogDamage {
  import opened Coding
  import opened DbFormat
  import opened Log

  // ---------- physical records in the bytes of the file ----------

  function BlockOf(p: nat): nat { p - p % BLOCK }

  /** Where the block that holds position `p` ends, or the file in it. */
  function BlockEnd(file: Bytes, p: nat): nat { Min(|file|, BlockOf(p) + BLOCK) }

  predicate HasHeader(file: Bytes, p: nat) { p + 7 <= BlockEnd(file, p) }

  function LengthAt(file: Bytes, p: nat): nat
    requires HasHeader(file, p)
  {
    file[p + 4] as int + file[p + 5] as int * 256
  }

  /** The type and the payload stand in the file behind four bytes that the seal accepts. */
  predicate Stored(seal: Seal, file: Bytes, p: nat, piece: Piece) {
    && HasHeader(file, p) && LengthAt(file, p) == |piece.payload| && p + 7 + |piece.payload| <= BlockEnd(file, p)
    && file[p + 6] == piece.t && file[p + 7..p + 7 + |piece.payload|] == piece.payload
    && seal.accepts([piece.t] + piece.payload, file[p..p + 4])
  }

  predicate ZeroHeader(file: Bytes, p: nat) { HasHeader(file, p) && LengthAt(file, p) == 0 && file[p + 6] == 0 }

  /** The length goes beyond the block. */
  predicate TooLongAt(file: Bytes, p: nat) { HasHeader(file, p) && p + 7 + LengthAt(file, p) > BlockEnd(file, p) }

  /** The four bytes are refused for the type and the payload that stand behind them. */
  predicate RejectedAt(seal: Seal, file: Bytes, p: nat) {
    && HasHeader(file, p) && !TooLongAt(file, p) && !ZeroHeader(file, p)
    && !seal.accepts([file[p + 6]] + file[p + 7..p + 7 + LengthAt(file, p)], file[p..p + 4])
  }

  /** What the reader sees at a header: an accepted record; or a bad stretch up to the end of the
      block, all of which is reported as dropped unless the header is zero. */
  ghost predicate SeenAt(seal: Seal, file: Bytes, p: nat, seen: Seen) {
    match seen
    case Good(piece) => Stored(seal, file, p, piece) && !ZeroHeader(file, p)
    case Garbage(None) => ZeroHeader(file, p)
    case Garbage(Some(n)) =>
      && HasHeader(file, p) && n == BlockEnd(file, p) - p
      && (RejectedAt(seal, file, p) || (TooLongAt(file, p) && BlockOf(p) + BLOCK <= |file|))
  }

  function After(file: Bytes, p: nat, seen: Seen): nat {
    if seen.Good? then p + 7 + |seen.piece.payload| else BlockEnd(file, p)
  }

  /** From `q` to `p` there is nothing, or the trailer of a block, too short for a header. */
  predicate Reaches(q: nat, p: nat) { p == q || (q < p < q + 7 && p % BLOCK == 0) }

  /** No header is left, or the last one announces more than the file has. */
  ghost predicate StopsAt(file: Bytes, q: nat) {
    exists p: nat :: Reaches(q, p) && (|file| < p + 7 || (TooLongAt(file, p) && BlockOf(p) + BLOCK > |file|))
  }

  /** The outcomes stand at these positions, one behind the other, and nothing is left behind them. */
  ghost predicate Walk(seal: Seal, file: Bytes, q: nat, sight: seq<Seen>, spots: seq<nat>)
    decreases |sight|
  {
    && |spots| == |sight|
    && if sight == [] then StopsAt(file, q)
       else
         && Reaches(q, spots[0]) && SeenAt(seal, file, spots[0], sight[0])
         && Walk(seal, file, After(file, spots[0], sight[0]), sight[1..], spots[1..])
  }

  /** One call of ReadPhysicalRecord, in terms of the bytes. */
  ghost predicate Advances(seal: Seal, file: Bytes, q: nat, p: nat, seen: Seen, next: Cursor) {
    && Reaches(q, p) && SeenAt(seal, file, p, seen)
    && next.In(file) && next.start % BLOCK == 0 && next.Pos() == After(file, p, seen)
  }

  /** What a call yields is seen at `p`, if it yields anything. */
  ghost predicate Yields(seal: Seal, file: Bytes, q: nat, p: nat, phys: Phys) {
    match phys
    case Eof => true
    case Bad(next, dropped) => Advances(seal, file, q, p, Garbage(dropped), next)
    case Rec(piece, next) => Advances(seal, file, q, p, Good(piece), next)
  }

  lemma ParsesRaw(seal: Seal, file: Bytes, c: Cursor)
    requires c.In(file) && c.start % BLOCK == 0 && Min(|file|, c.start + BLOCK) - c.Pos() >= HEADER
    ensures var p := c.Pos();
      && HasHeader(file, p) && BlockOf(p) == c.start && BlockEnd(file, p) == Min(|file|, c.start + BLOCK)
      && ParseHeader(seal, file[p..BlockEnd(file, p)])
         == if TooLongAt(file, p) then TooLong
            else if ZeroHeader(file, p) then ZeroFill
            else if RejectedAt(seal, file, p) then BadSeal
            else Fine(Piece(file[p + 6], file[p + 7..p + 7 + LengthAt(file, p)]))
  {
    var p, end := c.Pos(), Min(|file|, c.start + BLOCK);
    var buffer := file[p..end];
    assert BlockOf(p) == c.start && HasHeader(file, p);
    assert buffer[4] == file[p + 4] && buffer[5] == file[p + 5] && buffer[6] == file[p + 6];
    SubSlice(file, p, end, 0, 4);
    if HEADER + LengthAt(file, p) <= |buffer| {
      SubSlice(file, p, end, HEADER, HEADER + LengthAt(file, p));
    }
  }

  lemma ParsesAt(seal: Seal, file: Bytes, c: Cursor)
    requires c.In(file) && c.start % BLOCK == 0 && Min(|file|, c.start + BLOCK) - c.Pos() >= HEADER
    ensures Yields(seal, file, c.Pos(), c.Pos(), ReadHere(seal, file, c))
    ensures ReadHere(seal, file, c).Eof? ==> TooLongAt(file, c.Pos()) && BlockOf(c.Pos()) + BLOCK > |file|
    ensures RejectedAt(seal, file, c.Pos()) ==>
      ReadHere(seal, file, c) == Bad(Skip(file, c.start), Some(BlockEnd(file, c.Pos()) - c.Pos()))
  {
    ParsesRaw(seal, file, c);
    hide ParseHeader;
  }

  lemma ReadsAt(seal: Seal, file: Bytes, c: Cursor) returns (p: nat)
    requires c.In(file) && c.start % BLOCK == 0
    ensures Yields(seal, file, c.Pos(), p, ReadPhys(seal, file, c))
    ensures ReadPhys(seal, file, c).Eof? ==> StopsAt(file, c.Pos())
    decreases |file| - c.start
  {
    p := c.Pos();
    if Min(|file|, c.start + BLOCK) - p >= HEADER {
      ParsesAt(seal, file, c);
      assert Reaches(p, p);
    } else if FullBlock(file, c.start) {
      var d := At(c.start + BLOCK, 0);
      p := d.Pos();
      if Min(|file|, d.start + BLOCK) - p >= HEADER {
        ParsesAt(seal, file, d);
      }
      assert Reaches(c.Pos(), p);
    } else {
      assert Reaches(p, p);
    }
  }

  /** All that is in sight of the reader, in terms of the bytes. */
  lemma {:induction false} Walks(seal: Seal, file: Bytes, c: Cursor) returns (spots: seq<nat>)
    requires c.In(file) && c.start % BLOCK == 0
    ensures |spots| == |Sight(seal, file, c)| && Walk(seal, file, c.Pos(), Sight(seal, file, c), spots)
    decreases |file| - c.Pos()
  {
    var p := ReadsAt(seal, file, c);
    match ReadPhys(seal, file, c) {
      case Eof => spots := [];
      case Bad(next, dropped) =>
        spots := Walks(seal, file, next);
        WalkCons(seal, file, c.Pos(), p, Garbage(dropped), Sight(seal, file, next), spots);
        spots := [p] + spots;
      case Rec(piece, next) =>
        spots := Walks(seal, file, next);
        WalkCons(seal, file, c.Pos(), p, Good(piece), Sight(seal, file, next), spots);
        spots := [p] + spots;
    }
  }

  lemma WalkCons(seal: Seal, file: Bytes, q: nat, p: nat, seen: Seen, sight: seq<Seen>, spots: seq<nat>)
    requires Reaches(q, p) && SeenAt(seal, file, p, seen) && Walk(seal, file, After(file, p, seen), sight, spots)
    ensures Walk(seal, file, q, [seen] + sight, [p] + spots)
  {
    assert ([seen] + sight)[1..] == sight && ([p] + spots)[1..] == spots;
  }

  // ---------- records in what is seen ----------

  predicate OfType(seen: Seen, t: Byte) { seen.Good? && seen.piece.t == t }

  /** FIRST MIDDLE*, from `f` up to `k`. */
  ghost predicate Opens(all: seq<Seen>, f: nat, k: nat) {
    f < k <= |all| && OfType(all[f], FIRST) && forall j :: f < j < k ==> OfType(all[j], MIDDLE)
  }

  /** FULL, or FIRST MIDDLE* LAST, from `a` up to `b`. */
  ghost predicate IsRecord(all: seq<Seen>, a: nat, b: nat) {
    && a < b <= |all|
    && ((b == a + 1 && OfType(all[a], FULL)) || (Opens(all, a, b - 1) && OfType(all[b - 1], LAST)))
  }

  /** The payloads from `a` up to `b`. */
  function Payloads(all: seq<Seen>, a: nat, b: nat): Bytes
    requires a <= b <= |all|
  {
    if a == b then [] else Payloads(all, a, b - 1) + if all[b - 1].Good? then all[b - 1].piece.payload else []
  }

  /** Where ReadRecord's loop stands before outcome `k`: in a fragmented record that begins at `f`, or
      in none. */
  ghost predicate InLoop(all: seq<Seen>, k: nat, scratch: Bytes, inFragment: bool, f: nat) {
    && k <= |all|
    && if inFragment then Opens(all, f, k) && scratch == Payloads(all, f, k)
       else scratch == [] && forall g {:trigger Opens(all, g, k)} :: !Opens(all, g, k)
  }

  /** No record ends behind `k` and before `m`. */
  ghost predicate NoneEnds(all: seq<Seen>, k: nat, m: nat) {
    forall a: nat, b: nat {:trigger IsRecord(all, a, b)} :: k < b < m ==> !IsRecord(all, a, b)
  }

  lemma OpensStep(all: seq<Seen>, a: nat, k: nat)
    requires k < |all|
    ensures Opens(all, a, k + 1) <==> (a == k && OfType(all[k], FIRST)) || (Opens(all, a, k) && OfType(all[k], MIDDLE))
  {
  }

  lemma OpensOnce(all: seq<Seen>, a: nat, f: nat, k: nat)
    requires Opens(all, a, k) && Opens(all, f, k)
    ensures a == f
  {
  }

  /** The record that ends at `k + 1`, if one does, is the one the loop is in. */
  lemma EndsHere(all: seq<Seen>, k: nat, scratch: Bytes, inFragment: bool, f: nat, a: nat)
    requires InLoop(all, k, scratch, inFragment, f) && k < |all|
    ensures IsRecord(all, a, k + 1) <==>
      (a == k && OfType(all[k], FULL)) || (inFragment && a == f && OfType(all[k], LAST))
  {
    if Opens(all, a, k) && inFragment { OpensOnce(all, a, f, k); }
  }

  /** What a turn of the loop leads to: a record comes out exactly when one ends here. */
  ghost predicate Turns(all: seq<Seen>, k: nat, turn: Turn, g: nat) {
    && k < |all| && (turn.Stop? <==> LooksLikeEof(all[k]))
    && match turn
       case Stop => NoneEnds(all, k, k + 2)
       case Return(record, _) => EndsWith(all, g, k + 1, record)
       case Continue(scratch, inFragment, _) => InLoop(all, k + 1, scratch, inFragment, g) && NoneEnds(all, k, k + 2)
  }

  /** The record ends here, is the only one to do so, and leaves the loop in none. */
  ghost predicate EndsWith(all: seq<Seen>, g: nat, m: nat, record: Bytes) {
    && IsRecord(all, g, m) && record == Payloads(all, g, m) && InLoop(all, m, [], false, g)
    && forall a: nat {:trigger IsRecord(all, a, m)} :: IsRecord(all, a, m) ==> a == g
  }

  lemma OpensNext(all: seq<Seen>, k: nat)
    requires k < |all|
    ensures forall a: nat {:trigger Opens(all, a, k + 1)} ::
      Opens(all, a, k + 1) <==> (a == k && OfType(all[k], FIRST)) || (Opens(all, a, k) && OfType(all[k], MIDDLE))
  {
    var next := k + 1;
    forall a: nat {:trigger Opens(all, a, next)}
      ensures Opens(all, a, next) <==> (a == k && OfType(all[k], FIRST)) || (Opens(all, a, k) && OfType(all[k], MIDDLE))
    {
      OpensStep(all, a, k);
    }
  }

  lemma EndsNext(all: seq<Seen>, k: nat, scratch: Bytes, inFragment: bool, f: nat)
    requires InLoop(all, k, scratch, inFragment, f) && k < |all|
    ensures forall a: nat {:trigger IsRecord(all, a, k + 1)} ::
      IsRecord(all, a, k + 1) <==> (a == k && OfType(all[k], FULL)) || (inFragment && a == f && OfType(all[k], LAST))
  {
    var next := k + 1;
    forall a: nat {:trigger IsRecord(all, a, next)}
      ensures IsRecord(all, a, next) <==> (a == k && OfType(all[k], FULL)) || (inFragment && a == f && OfType(all[k], LAST))
    {
      EndsHere(all, k, scratch, inFragment, f, a);
    }
  }

  lemma LoopStep(all: seq<Seen>, k: nat, scratch: Bytes, inFragment: bool, f: nat) returns (g: nat)
    requires InLoop(all, k, scratch, inFragment, f) && k < |all|
    ensures Turns(all, k, Digest(all[k], scratch, inFragment), g)
  {
    assert inFragment ==> f < k;
    OpensNext(all, k);
    EndsNext(all, k, scratch, inFragment, f);
    hide Opens;
    hide IsRecord;
    g := if OfType(all[k], FIRST) || OfType(all[k], FULL) then k else f;
    assert Payloads(all, k, k) == [];
  }

  /** A call of ReadRecord that finds outcome `k` next. */
  function Call(all: seq<Seen>, k: nat, scratch: Bytes, inFragment: bool): (r: Outcome)
    ensures k <= |all| ==> k + r.used <= |all|
    ensures r.record.Some? ==> r.used > 0
    decreases |all| - k
  {
    if k >= |all| then Outcome(None, 0, [])
    else
      match Digest(all[k], scratch, inFragment)
      case Stop => Outcome(None, 1, [])
      case Return(record, reports) => Outcome(Some(record), 1, reports)
      case Continue(scratch', inFragment', reports) =>
        var rest := Call(all, k + 1, scratch', inFragment');
        Outcome(rest.record, rest.used + 1, reports + rest.reports)
  }

  lemma {:induction false} CallAssembles(all: seq<Seen>, k: nat, scratch: Bytes, inFragment: bool)
    requires k <= |all|
    ensures Assemble(all[k..], scratch, inFragment) == Call(all, k, scratch, inFragment)
    decreases |all| - k
  {
    if k < |all| {
      assert all[k..][0] == all[k] && all[k..][1..] == all[k + 1..];
      var d := Digest(all[k], scratch, inFragment);
      if d.Continue? { CallAssembles(all, k + 1, d.scratch, d.inFragment); }
    }
  }

  /** The calls from outcome `k` on. */
  function Calls(all: seq<Seen>, k: nat): (r: (seq<Bytes>, seq<nat>))
    requires k <= |all|
    decreases |all| - k
  {
    var r := Call(all, k, [], false);
    if r.record.None? then ([], r.reports)
    else
      var rest := Calls(all, k + r.used);
      ([r.record.value] + rest.0, r.reports + rest.1)
  }

  lemma {:induction false} CallsReadAll(all: seq<Seen>, k: nat)
    requires k <= |all|
    ensures ReadAll(all[k..]) == Calls(all, k)
    decreases |all| - k
  {
    CallAssembles(all, k, [], false);
    var r := Call(all, k, [], false);
    if r.record.Some? {
      CallsReadAll(all, k + r.used);
      assert all[k..][r.used..] == all[k + r.used..];
    }
  }

  /** The first outcome from `k` on that looks like the end of the file. */
  function EofFrom(all: seq<Seen>, k: nat): (n: nat)
    requires k <= |all|
    ensures k <= n <= |all| && (n < |all| ==> LooksLikeEof(all[n]))
    ensures forall i :: k <= i < n ==> !LooksLikeEof(all[i])
    decreases |all| - k
  {
    if k == |all| || LooksLikeEof(all[k]) then k else EofFrom(all, k + 1)
  }

  /** The call took the first record that ends behind `k`, and the only one that ends there. */
  ghost predicate Finds(all: seq<Seen>, k: nat, r: Outcome, g: nat) {
    var m := k + r.used;
    && m <= |all| && NoneEnds(all, k, if r.record.None? then m + 1 else m)
    && (forall i :: k <= i < m - 1 ==> !LooksLikeEof(all[i])) && (r.record.Some? ==> m > 0 && !LooksLikeEof(all[m - 1]))
    && if r.record.Some? then k < m && EndsWith(all, g, m, r.record.value) else |all| <= m || (k < m && LooksLikeEof(all[m - 1]))
  }

  lemma FindsNow(all: seq<Seen>, k: nat, turn: Turn, g: nat)
    requires Turns(all, k, turn, g)
    ensures turn.Stop? ==> Finds(all, k, Outcome(None, 1, []), g)
    ensures turn.Return? ==> Finds(all, k, Outcome(Some(turn.record), 1, turn.reports), g)
  {
  }

  lemma FindsNothing(all: seq<Seen>, g: nat)
    ensures Finds(all, |all|, Outcome(None, 0, []), g)
  {
  }

  lemma FindsLater(all: seq<Seen>, k: nat, turn: Turn, h: nat, rest: Outcome, g: nat)
    requires Turns(all, k, turn, h) && turn.Continue? && Finds(all, k + 1, rest, g)
    ensures Finds(all, k, Outcome(rest.record, rest.used + 1, turn.reports + rest.reports), g)
  {
  }

  /** One call of ReadRecord from outcome `k` on returns the first record that ends behind `k`. */
  lemma {:induction false} FirstRecord(all: seq<Seen>, k: nat, scratch: Bytes, inFragment: bool, f: nat) returns (g: nat)
    requires k <= |all| && InLoop(all, k, scratch, inFragment, f)
    ensures Finds(all, k, Call(all, k, scratch, inFragment), g)
    decreases |all| - k
  {
    hide InLoop;
    hide Finds;
    hide Digest;
    if k == |all| {
      g := f;
      FindsNothing(all, g);
    } else {
      g := LoopStep(all, k, scratch, inFragment, f);
      var d := Digest(all[k], scratch, inFragment);
      if d.Continue? {
        var h := g;
        g := FirstRecord(all, k + 1, d.scratch, d.inFragment, h);
        FindsLater(all, k, d, h, Call(all, k + 1, d.scratch, d.inFragment), g);
      } else {
        FindsNow(all, k, d, g);
      }
    }
  }

  datatype Span = Span(from: nat, to: nat)

  /** The spans are all the records that end behind `k` and not behind `n`, in order and apart. */
  ghost predicate AreRecords(all: seq<Seen>, k: nat, n: nat, spans: seq<Span>) {
    && (forall i {:trigger spans[i]} :: 0 <= i < |spans| ==>
          k <= spans[i].from && spans[i].to <= n && IsRecord(all, spans[i].from, spans[i].to))
    && (forall i, j {:trigger spans[i], spans[j]} :: 0 <= i < j < |spans| ==> spans[i].to <= spans[j].from)
    && (forall a: nat, b: nat {:trigger IsRecord(all, a, b)} :: k < b <= n && IsRecord(all, a, b) ==> Span(a, b) in spans)
  }

  predicate Carries(all: seq<Seen>, span: Span, record: Bytes) {
    span.from <= span.to <= |all| && record == Payloads(all, span.from, span.to)
  }

  ghost predicate Carry(all: seq<Seen>, spans: seq<Span>, records: seq<Bytes>) {
    |spans| == |records| && forall i {:trigger spans[i]} :: 0 <= i < |spans| ==> Carries(all, spans[i], records[i])
  }

  lemma BeginsBehind(all: seq<Seen>, k: nat, g: nat, m: nat)
    requires InLoop(all, k, [], false, 0) && k < m && IsRecord(all, g, m)
    ensures k <= g < m
  {
    assert g < k ==> Opens(all, g, k);
  }

  lemma SpansCons(all: seq<Seen>, k: nat, n: nat, r: Outcome, g: nat, spans: seq<Span>)
    requires AreRecords(all, k + r.used, n, spans) && k + r.used <= n && InLoop(all, k, [], false, 0)
    requires Finds(all, k, r, g) && r.record.Some?
    ensures AreRecords(all, k, n, [Span(g, k + r.used)] + spans)
  {
    hide Opens;
    hide IsRecord;
    var m := k + r.used;
    var longer := [Span(g, m)] + spans;
    BeginsBehind(all, k, g, m);
    assert forall span :: span in spans ==> span in longer;
    assert longer[0] == Span(g, m);
  }

  lemma CarryCons(all: seq<Seen>, spans: seq<Span>, records: seq<Bytes>, span: Span, record: Bytes)
    requires Carry(all, spans, records) && Carries(all, span, record)
    ensures Carry(all, [span] + spans, [record] + records)
  {
    var ss, rs := [span] + spans, [record] + records;
    forall i | 0 <= i < |ss| ensures Carries(all, ss[i], rs[i]) {
      if i > 0 { assert Carries(all, spans[i - 1], records[i - 1]); }
    }
  }

  lemma OneMoreRecord(all: seq<Seen>, k: nat, n: nat, r: Outcome, g: nat, spans: seq<Span>, records: seq<Bytes>)
    requires InLoop(all, k, [], false, 0) && Finds(all, k, r, g) && r.record.Some?
    requires k + r.used <= n && AreRecords(all, k + r.used, n, spans) && Carry(all, spans, records)
    ensures AreRecords(all, k, n, [Span(g, k + r.used)] + spans)
    ensures Carry(all, [Span(g, k + r.used)] + spans, [r.record.value] + records)
  {
    SpansCons(all, k, n, r, g, spans);
    CarryCons(all, spans, records, Span(g, k + r.used), r.record.value);
  }

  /** Where the next call starts, and what it means for the end. */
  lemma FindsEof(all: seq<Seen>, k: nat, r: Outcome, g: nat)
    requires k <= |all| && Finds(all, k, r, g)
    ensures r.record.Some? ==>
              && k < k + r.used <= EofFrom(all, k) == EofFrom(all, k + r.used) && InLoop(all, k + r.used, [], false, 0)
    ensures r.record.None? ==> AreRecords(all, k, EofFrom(all, k), []) && EofFrom(all, k) <= k + r.used
  {
    if r.record.Some? { EofLater(all, k, k + r.used); }
  }

  /** The records returned are exactly the stretches FULL and FIRST MIDDLE* LAST in what is seen,
      up to the first that looks like the end of the file. */
  lemma {:induction false} ReturnsRecords(all: seq<Seen>, k: nat) returns (spans: seq<Span>)
    requires InLoop(all, k, [], false, 0)
    ensures AreRecords(all, k, EofFrom(all, k), spans) && Carry(all, spans, Calls(all, k).0)
    decreases |all| - k
  {
    hide Finds;
    hide AreRecords;
    hide EofFrom;
    hide Call;
    hide Opens;
    hide IsRecord;
    var r := Call(all, k, [], false);
    var g := FirstRecord(all, k, [], false, 0);
    FindsEof(all, k, r, g);
    if r.record.None? {
      spans := [];
    } else {
      spans := ReturnsRecords(all, k + r.used);
      OneMoreRecord(all, k, EofFrom(all, k), r, g, spans, Calls(all, k + r.used).0);
      spans := [Span(g, k + r.used)] + spans;
    }
  }

  lemma EofLater(all: seq<Seen>, k: nat, m: nat)
    requires k <= m <= |all| && forall i :: k <= i < m ==> !LooksLikeEof(all[i])
    ensures EofFrom(all, k) == EofFrom(all, m)
  {
  }

  // ---------- nothing is lost without a report ----------

  /** Bytes of payload that passed the checks, or of a stretch reported as bad. */
  function Worth(seen: Seen): nat {
    match seen
    case Good(piece) => if piece.t == EOF || piece.t == BAD_RECORD then 0 else |piece.payload|
    case Garbage(Some(n)) => n
    case Garbage(None) => 0
  }

  function WorthOf(all: seq<Seen>, a: nat, b: nat): nat
    requires a <= b <= |all|
    decreases b - a
  {
    if a == b then 0 else Worth(all[a]) + WorthOf(all, a + 1, b)
  }

  lemma {:induction false} WorthSplit(all: seq<Seen>, a: nat, m: nat, b: nat)
    requires a <= m <= b <= |all|
    ensures WorthOf(all, a, b) == WorthOf(all, a, m) + WorthOf(all, m, b)
    decreases m - a
  {
    if a < m { WorthSplit(all, a + 1, m, b); }
  }

  function Sum(ns: seq<nat>): nat { if ns == [] then 0 else ns[0] + Sum(ns[1..]) }

  lemma {:induction false} SumAdds(a: seq<nat>, b: seq<nat>)
    ensures Sum(a + b) == Sum(a) + Sum(b)
  {
    if a == [] {
      assert a + b == b;
    } else {
      SumAdds(a[1..], b);
      assert (a + b)[1..] == a[1..] + b;
    }
  }

  lemma SumOne(n: nat)
    ensures Sum([n]) == n
  {
    assert [n][1..] == [];
  }

  /** The bytes of all records. */
  function Volume(records: seq<Bytes>): nat { if records == [] then 0 else |records[0]| + Volume(records[1..]) }

  /** One round: what was in hand and what came in is handed out, kept, or reported. */
  lemma StepBalances(seen: Seen, scratch: Bytes, inFragment: bool)
    requires !inFragment ==> scratch == []
    ensures match Digest(seen, scratch, inFragment)
      case Stop => Worth(seen) == 0
      case Return(record, drops) => |scratch| + Worth(seen) == |record| + Sum(drops)
      case Continue(scratch', _, drops) => |scratch| + Worth(seen) == |scratch'| + Sum(drops)
  {
    var n := if seen.Garbage? && seen.dropped.Some? then seen.dropped.value else 0;
    SumAdds(if seen.Garbage? && seen.dropped.Some? then [n] else [], ReportIf(inFragment, |scratch|));
    assert forall n: nat :: Sum([n]) == n by { forall n: nat { SumOne(n); } }
  }

  lemma StaysInLoop(all: seq<Seen>, k: nat, scratch: Bytes, inFragment: bool, f: nat) returns (g: nat)
    requires InLoop(all, k, scratch, inFragment, f) && k < |all|
    ensures var d := Digest(all[k], scratch, inFragment);
      d.Continue? ==> InLoop(all, k + 1, d.scratch, d.inFragment, g) && EofFrom(all, k) == EofFrom(all, k + 1)
    ensures Digest(all[k], scratch, inFragment).Stop? ==> EofFrom(all, k) == k
  {
    g := LoopStep(all, k, scratch, inFragment, f);
  }

  lemma Empty(all: seq<Seen>, k: nat)
    requires k < |all|
    ensures WorthOf(all, k, k + 1) == Worth(all[k])
  {
    assert WorthOf(all, k + 1, k + 1) == 0;
  }

  /** One call of ReadRecord. The tail is what it holds of an unfinished record at the end. */
  lemma {:induction false} CallBalances(all: seq<Seen>, k: nat, scratch: Bytes, inFragment: bool, f: nat)
      returns (tail: Bytes, g: nat)
    requires InLoop(all, k, scratch, inFragment, f)
    ensures var r := Call(all, k, scratch, inFragment);
      && |scratch| + WorthOf(all, k, k + r.used)
         == Sum(r.reports) + (if r.record.Some? then |r.record.value| else |tail|)
      && (r.record.None? && tail != [] ==> Opens(all, g, EofFrom(all, k)) && tail == Payloads(all, g, EofFrom(all, k)))
    decreases |all| - k
  {
    hide Digest;
    hide Opens;
    hide IsRecord;
    tail, g := scratch, f;
    if k < |all| {
      var h := StaysInLoop(all, k, scratch, inFragment, f);
      StepBalances(all[k], scratch, inFragment);
      Empty(all, k);
      var d := Digest(all[k], scratch, inFragment);
      if d.Continue? {
        tail, g := CallBalances(all, k + 1, d.scratch, d.inFragment, h);
        SumAdds(d.reports, Call(all, k + 1, d.scratch, d.inFragment).reports);
      }
    }
  }

  /** Every byte seen before the end is in a record returned or in a size reported, but for the
      payloads of a last record that is not finished. */
  lemma {:induction false} NothingIsLost(all: seq<Seen>, k: nat) returns (tail: Bytes, f: nat)
    requires InLoop(all, k, [], false, 0)
    ensures WorthOf(all, k, EofFrom(all, k)) == Volume(Calls(all, k).0) + Sum(Calls(all, k).1) + |tail|
    ensures tail != [] ==> Opens(all, f, EofFrom(all, k)) && tail == Payloads(all, f, EofFrom(all, k))
    decreases |all| - k
  {
    hide Opens;
    hide IsRecord;
    var r := Call(all, k, [], false);
    var m := k + r.used;
    tail, f := CallBalances(all, k, [], false, 0);
    var g := FirstRecord(all, k, [], false, 0);
    if r.record.None? {
      StopsWorthless(all, k, m);
    } else {
      EofLater(all, k, m);
      WorthSplit(all, k, m, EofFrom(all, k));
      tail, f := NothingIsLost(all, m);
      SumAdds(r.reports, Calls(all, m).1);
    }
  }

  /** The outcome that looks like the end counts for nothing. */
  lemma StopsWorthless(all: seq<Seen>, k: nat, m: nat)
    requires k <= m <= |all| && (m == |all| || (k < m && LooksLikeEof(all[m - 1])))
    requires forall i :: k <= i < m - 1 ==> !LooksLikeEof(all[i])
    ensures WorthOf(all, k, EofFrom(all, k)) == WorthOf(all, k, m)
  {
    var n := EofFrom(all, k);
    WorthSplit(all, k, n, m);
    if n < m { assert n == m - 1 && WorthOf(all, m, m) == 0; }
  }

  /** What is reported for a bad stretch is among the reports. */
  lemma {:induction false} BadIsInCall(all: seq<Seen>, k: nat, scratch: Bytes, inFragment: bool, i: nat, n: nat)
    requires k <= i < |all| && all[i] == Garbage(Some(n)) && i < k + Call(all, k, scratch, inFragment).used
    ensures n in Call(all, k, scratch, inFragment).reports
    decreases |all| - k
  {
    var d := Digest(all[k], scratch, inFragment);
    if k == i {
      assert d.reports[0] == n;
    } else {
      BadIsInCall(all, k + 1, d.scratch, d.inFragment, i, n);
    }
  }

  lemma {:induction false} BadIsReported(all: seq<Seen>, k: nat, i: nat, n: nat)
    requires k <= |all| && InLoop(all, k, [], false, 0) && k <= i < EofFrom(all, k) && all[i] == Garbage(Some(n))
    ensures n in Calls(all, k).1
    decreases |all| - k
  {
    hide Finds;
    hide InLoop;
    hide EofFrom;
    hide AreRecords;
    hide Opens;
    hide IsRecord;
    var r := Call(all, k, [], false);
    var g := FirstRecord(all, k, [], false, 0);
    FindsEof(all, k, r, g);
    if r.record.None? || i < k + r.used {
      BadIsInCall(all, k, [], false, i, n);
    } else {
      BadIsReported(all, k + r.used, i, n);
    }
  }

  // ---------- the records returned, in the bytes of the file ----------

  /** Where the fragments of a record stand. */
  datatype Place = Place(spots: seq<nat>, pieces: seq<Piece>)

  function Joined(pieces: seq<Piece>): Bytes {
    if pieces == [] then [] else Joined(pieces[..|pieces| - 1]) + pieces[|pieces| - 1].payload
  }

  /** The record is stored in the file: fragments of type FULL, or FIRST MIDDLE* LAST, under accepted
      seals, one right behind the other but for block trailers, whose payloads make up the record. */
  ghost predicate InFile(seal: Seal, file: Bytes, place: Place, record: Bytes) {
    && 0 < |place.pieces| == |place.spots| && record == Joined(place.pieces)
    && (forall i {:trigger place.spots[i]} :: 0 <= i < |place.spots| ==> Stored(seal, file, place.spots[i], place.pieces[i]))
    && (forall i :: 0 <= i < |place.spots| - 1 ==> Reaches(place.spots[i] + 7 + |place.pieces[i].payload|, place.spots[i + 1]))
    && var last := |place.pieces| - 1;
       if last == 0 then place.pieces[0].t == FULL
       else
         && place.pieces[0].t == FIRST && place.pieces[last].t == LAST
         && forall i :: 0 < i < last ==> place.pieces[i].t == MIDDLE
  }

  function StartOf(place: Place): nat { if place.spots == [] then 0 else place.spots[0] }

  /** Where the last fragment ends. */
  function EndOf(place: Place): nat {
    if place.spots == [] || place.pieces == [] then 0
    else place.spots[|place.spots| - 1] + 7 + |place.pieces[|place.pieces| - 1].payload|
  }

  lemma {:induction false} WalkAt(seal: Seal, file: Bytes, q: nat, sight: seq<Seen>, spots: seq<nat>, i: nat)
    requires Walk(seal, file, q, sight, spots) && i < |sight|
    ensures SeenAt(seal, file, spots[i], sight[i]) && q <= spots[i]
    ensures i + 1 < |sight| ==> Reaches(After(file, spots[i], sight[i]), spots[i + 1])
    decreases |sight|
  {
    if i > 0 {
      WalkAt(seal, file, After(file, spots[0], sight[0]), sight[1..], spots[1..], i - 1);
    } else if |sight| > 1 {
      assert Walk(seal, file, After(file, spots[0], sight[0]), sight[1..], spots[1..]);
    }
  }

  /** Later outcomes stand behind earlier ones. */
  lemma {:induction false} WalkRises(seal: Seal, file: Bytes, q: nat, sight: seq<Seen>, spots: seq<nat>, i: nat, j: nat)
    requires Walk(seal, file, q, sight, spots) && i < j < |sight|
    ensures After(file, spots[i], sight[i]) <= spots[j]
    decreases j
  {
    WalkAt(seal, file, q, sight, spots, j - 1);
    if i < j - 1 {
      WalkRises(seal, file, q, sight, spots, i, j - 1);
    }
  }

  function PiecesIn(all: seq<Seen>, a: nat, b: nat): (r: seq<Piece>)
    requires a <= b <= |all| && forall i :: a <= i < b ==> all[i].Good?
    ensures |r| == b - a && forall i :: 0 <= i < b - a ==> r[i] == all[a + i].piece
  {
    seq(b - a, i requires 0 <= i < b - a => all[a + i].piece)
  }

  lemma JoinedSnoc(pieces: seq<Piece>, piece: Piece)
    ensures Joined(pieces + [piece]) == Joined(pieces) + piece.payload
  {
    assert (pieces + [piece])[..|pieces|] == pieces;
  }

  lemma {:induction false} PayloadsJoined(all: seq<Seen>, a: nat, b: nat)
    requires a <= b <= |all| && forall i :: a <= i < b ==> all[i].Good?
    ensures Payloads(all, a, b) == Joined(PiecesIn(all, a, b))
    decreases b - a
  {
    if a < b {
      PayloadsJoined(all, a, b - 1);
      JoinedSnoc(PiecesIn(all, a, b - 1), all[b - 1].piece);
      assert PiecesIn(all, a, b) == PiecesIn(all, a, b - 1) + [all[b - 1].piece];
    }
  }

  lemma StoredFrom(seal: Seal, file: Bytes, sight: seq<Seen>, spots: seq<nat>, a: nat, b: nat)
    requires |spots| == |sight| && Walk(seal, file, 0, sight, spots) && a < b <= |sight| && forall i :: a <= i < b ==> sight[i].Good?
    ensures var ps, pieces := spots[a..b], PiecesIn(sight, a, b);
      && (forall i {:trigger ps[i]} :: 0 <= i < b - a ==> Stored(seal, file, ps[i], pieces[i]))
      && (forall i :: 0 <= i < b - a - 1 ==> Reaches(ps[i] + 7 + |pieces[i].payload|, ps[i + 1]))
  {
    hide Walk;
    hide Stored;
    hide Reaches;
    hide BlockEnd;
    var ps, pieces := spots[a..b], PiecesIn(sight, a, b);
    forall i | 0 <= i < b - a ensures Stored(seal, file, ps[i], pieces[i]) {
      WalkAt(seal, file, 0, sight, spots, a + i);
    }
    forall i | 0 <= i < b - a - 1 ensures Reaches(ps[i] + 7 + |pieces[i].payload|, ps[i + 1]) {
      WalkAt(seal, file, 0, sight, spots, a + i);
    }
  }

  lemma PlaceOf(seal: Seal, file: Bytes, sight: seq<Seen>, spots: seq<nat>, span: Span) returns (place: Place)
    requires |spots| == |sight| && Walk(seal, file, 0, sight, spots) && IsRecord(sight, span.from, span.to)
    ensures InFile(seal, file, place, Payloads(sight, span.from, span.to))
    ensures place.spots == spots[span.from..span.to] && EndOf(place) == After(file, spots[span.to - 1], sight[span.to - 1])
  {
    hide Walk;
    hide Stored;
    var a, b := span.from, span.to;
    StoredFrom(seal, file, sight, spots, a, b);
    place := Place(spots[a..b], PiecesIn(sight, a, b));
    PayloadsJoined(sight, a, b);
  }

  /** All that a reader of the file sees, returns and reports. */
  function SightOf(seal: Seal, file: Bytes): seq<Seen> { Sight(seal, file, At(0, 0)) }

  lemma StartsInLoop(all: seq<Seen>)
    ensures InLoop(all, 0, [], false, 0) && EofFrom(all, 0) == BeforeEof(all) && Calls(all, 0) == ReadAll(all)
  {
    CallsReadAll(all, 0);
    assert all[0..] == all;
    SameEof(all, 0);
  }

  lemma {:induction false} SameEof(all: seq<Seen>, k: nat)
    requires k <= |all|
    ensures EofFrom(all, k) == k + BeforeEof(all[k..])
    decreases |all| - k
  {
    if k < |all| {
      SameEof(all, k + 1);
      assert all[k..][0] == all[k] && all[k..][1..] == all[k + 1..];
    }
  }

  ghost predicate PlacedAt(seal: Seal, file: Bytes, sight: seq<Seen>, spots: seq<nat>, span: Span, place: Place, record: Bytes) {
    && span.from < span.to <= |sight| == |spots| && InFile(seal, file, place, record)
    && place.spots == spots[span.from..span.to] && EndOf(place) == After(file, spots[span.to - 1], sight[span.to - 1])
  }

  lemma {:induction false} PlaceAll(seal: Seal, file: Bytes, sight: seq<Seen>, spots: seq<nat>, spans: seq<Span>, records: seq<Bytes>, n: nat)
      returns (places: seq<Place>)
    requires |spots| == |sight| && Walk(seal, file, 0, sight, spots) && Carry(sight, spans, records) && n <= |spans|
    requires forall i {:trigger spans[i]} :: 0 <= i < |spans| ==> IsRecord(sight, spans[i].from, spans[i].to)
    ensures |places| == n && forall i {:trigger places[i]} :: 0 <= i < n ==> PlacedAt(seal, file, sight, spots, spans[i], places[i], records[i])
  {
    hide Walk;
    hide InFile;
    hide Opens;
    places := [];
    if n > 0 {
      places := PlaceAll(seal, file, sight, spots, spans, records, n - 1);
      var place := PlaceOf(seal, file, sight, spots, spans[n - 1]);
      places := places + [place];
    }
  }

  lemma PlacesApart(seal: Seal, file: Bytes, sight: seq<Seen>, spots: seq<nat>, a: Span, p: Place, r: Bytes, b: Span, q: Place, t: Bytes)
    requires |spots| == |sight| && Walk(seal, file, 0, sight, spots) && a.to <= b.from
    requires PlacedAt(seal, file, sight, spots, a, p, r) && PlacedAt(seal, file, sight, spots, b, q, t)
    ensures EndOf(p) <= StartOf(q)
  {
    hide InFile;
    hide SeenAt;
    hide Stored;
    hide Walk;
    WalkRises(seal, file, 0, sight, spots, a.to - 1, b.from);
  }

  lemma SpansOf(sight: seq<Seen>) returns (spans: seq<Span>)
    ensures Carry(sight, spans, ReadAll(sight).0)
    ensures forall i {:trigger spans[i]} :: 0 <= i < |spans| ==> IsRecord(sight, spans[i].from, spans[i].to)
    ensures forall i, j {:trigger spans[i], spans[j]} :: 0 <= i < j < |spans| ==> spans[i].to <= spans[j].from
  {
    StartsInLoop(sight);
    spans := ReturnsRecords(sight, 0);
  }

  /** Whatever the bytes, every record returned is stored in the file under accepted seals, each
      behind the one before. */
  lemma RecordsAreStored(seal: Seal, file: Bytes) returns (places: seq<Place>)
    ensures var records := ReadAll(SightOf(seal, file)).0;
      && |places| == |records|
      && (forall i {:trigger places[i]} :: 0 <= i < |places| ==> InFile(seal, file, places[i], records[i]))
      && forall i, j {:trigger places[i], places[j]} :: 0 <= i < j < |places| ==> EndOf(places[i]) <= StartOf(places[j])
  {
    hide InFile;
    hide Walk;
    hide Sight;
    hide ReadAll;
    var sight, records := SightOf(seal, file), ReadAll(SightOf(seal, file)).0;
    var spots := Walks(seal, file, At(0, 0));
    var spans := SpansOf(sight);
    places := PlaceAll(seal, file, sight, spots, spans, records, |spans|);
    forall i, j | 0 <= i < j < |places| ensures EndOf(places[i]) <= StartOf(places[j]) {
      PlacesApart(seal, file, sight, spots, spans[i], places[i], records[i], spans[j], places[j], records[j]);
    }
  }

  /** A header whose seal is refused: the reader gives up on the rest of the block, and reports as
      many bytes. */
  lemma RejectedIsReported(seal: Seal, file: Bytes, c: Cursor)
    requires c.In(file) && c.start % BLOCK == 0 && c.off < BLOCK && RejectedAt(seal, file, c.Pos())
    ensures var n := BlockEnd(file, c.Pos()) - c.Pos();
      && ReadPhys(seal, file, c).Bad? && ReadPhys(seal, file, c).dropped == Some(n)
      && ReadPhys(seal, file, c).next.Pos() == BlockEnd(file, c.Pos())
      && Sight(seal, file, c) == [Garbage(Some(n))] + Sight(seal, file, ReadPhys(seal, file, c).next)
  {
    assert BlockOf(c.Pos()) == c.start;
    ParsesAt(seal, file, c);
    hide ReadHere;
    hide RejectedAt;
  }

  // ---------- damage is local ----------

  lemma HoldsInPrefix(file: Bytes, q: nat, p: nat, a: Bytes, b: Bytes)
    requires q <= |file| && Holds(file[..q], p, a + b) && p + |a| <= q
    ensures Holds(file, p, a + []) && Holds(file[..q], p + |a|, b)
  {
    HoldsSplit(file[..q], p, a, b);
    forall i | 0 <= i < |a| ensures file[p + i] == a[i] {
      assert file[..q][p + i] == a[i];
    }
  }

  lemma PrefixStep(seal: Seal, file: Bytes, q: nat, c: Cursor, records: seq<Bytes>) returns (d: Cursor)
    requires seal.Lawful() && c.off <= BLOCK && c.Pos() <= q <= |file| && Holds(file[..q], c.Pos(), Written(seal, c.off, records))
    requires records != [] && |Layout(seal, c.off, Pieces(c.off, records[0], true))| <= q - c.Pos()
    ensures d.In(file) && d.off <= BLOCK && d.Pos() <= q && Holds(file[..q], d.Pos(), Written(seal, d.off, records[1..]))
    ensures Complete(seal, c.off, records, q - c.Pos()) == 1 + Complete(seal, d.off, records[1..], q - d.Pos())
    ensures ReadAll(Sight(seal, file, c)).0 == [records[0]] + ReadAll(Sight(seal, file, d)).0
  {
    hide Sight;
    hide ReadAll;
    hide Layout;
    var pieces := Pieces(c.off, records[0], true);
    HoldsInPrefix(file, q, c.Pos(), Layout(seal, c.off, pieces), Written(seal, EndOff(c.off, pieces), records[1..]));
    d := ReadsOne(seal, file, c, records[0], []);
  }

  lemma PrefixLonger(all: seq<Bytes>, rest: seq<Bytes>, records: seq<Bytes>, n: nat)
    requires records != [] && all == [records[0]] + rest && n <= |rest| && n < |records| && rest[..n] == records[1..][..n]
    ensures n + 1 <= |all| && all[..n + 1] == records[..n + 1]
  {
    PrefixCons(records, n);
  }

  /** Records written whole before position `q` are returned first, whatever stands behind `q`. */
  lemma {:induction false} PrefixReads(seal: Seal, file: Bytes, q: nat, c: Cursor, records: seq<Bytes>)
    requires seal.Lawful() && c.In(file) && c.Pos() <= q <= |file| && Holds(file[..q], c.Pos(), Written(seal, c.off, records))
    ensures var n := Complete(seal, c.off, records, q - c.Pos());
      n <= |ReadAll(Sight(seal, file, c)).0| && ReadAll(Sight(seal, file, c)).0[..n] == records[..n]
    decreases |records|
  {
    hide Sight;
    hide ReadAll;
    hide Layout;
    hide Pieces;
    if records != [] && |Layout(seal, c.off, Pieces(c.off, records[0], true))| <= q - c.Pos() {
      var d := PrefixStep(seal, file, q, c, records);
      PrefixReads(seal, file, q, d, records[1..]);
      PrefixLonger(ReadAll(Sight(seal, file, c)).0, ReadAll(Sight(seal, file, d)).0, records,
                   Complete(seal, d.off, records[1..], q - d.Pos()));
    }
  }

  lemma SliceHolds(file: Bytes, q: nat, bytes: Bytes)
    requires q <= |file| && q <= |bytes| && file[..q] == bytes[..q]
    ensures Holds(file[..q], 0, bytes)
  {
    assert forall i :: 0 <= i < q ==> file[..q][i] == bytes[..q][i];
  }

  /** A log whose first `q` bytes are as they were written: the records wholly among them come back. */
  lemma IntactPrefix(seal: Seal, records: seq<Bytes>, file: Bytes, q: nat)
    requires seal.Lawful() && q <= |file| && q <= |Written(seal, 0, records)| && file[..q] == Written(seal, 0, records)[..q]
    ensures var n := Complete(seal, 0, records, q);
      n <= |ReadAll(SightOf(seal, file)).0| && ReadAll(SightOf(seal, file)).0[..n] == records[..n]
  {
    hide Sight;
    hide ReadAll;
    hide Complete;
    hide Written;
    hide Holds;
    hide FitAll;
    hide Pieces;
    SliceHolds(file, q, Written(seal, 0, records));
    var c := At(0, 0);
    PrefixReads(seal, file, q, c, records);
  }

  /** No accepted record of type 5 stands before position `p`. */
  ghost predicate NoFalseEnd(seal: Seal, file: Bytes, p: nat) {
    forall q: nat, piece: Piece {:trigger Stored(seal, file, q, piece)} :: q < p && Stored(seal, file, q, piece) ==> piece.t != EOF
  }

  lemma SuffixCons(all: seq<Seen>, seen: Seen, rest: seq<Seen>, k: nat)
    requires all == [seen] + rest && k <= |rest|
    ensures all[k + 1..] == rest[k..]
  {
  }

  lemma NextInBlock(seal: Seal, file: Bytes, c: Cursor, p: nat) returns (seen: Seen, next: Cursor)
    requires c.In(file) && c.start % BLOCK == 0 && p % BLOCK == 0 && c.Pos() < p <= |file| && c.off + HEADER <= BLOCK
    ensures next.In(file) && next.start % BLOCK == 0 && next.Pos() <= p && c.start <= next.start && c.Pos() < next.Pos()
    ensures Sight(seal, file, c) == [seen] + Sight(seal, file, next)
    ensures NoFalseEnd(seal, file, p) ==> !LooksLikeEof(seen)
  {
    assert c.start + BLOCK <= p;
    ParsesAt(seal, file, c);
    var r := ReadHere(seal, file, c);
    next := r.next;
    seen := if r.Rec? then Good(r.piece) else Garbage(r.dropped);
    if r.Rec? { assert Stored(seal, file, c.Pos(), r.piece); }
  }

  /** The reader gets to every block boundary: a bad stretch never reaches into the next block. */
  lemma {:induction false} SightReaches(seal: Seal, file: Bytes, c: Cursor, p: nat) returns (k: nat)
    requires c.In(file) && c.start % BLOCK == 0 && p % BLOCK == 0 && c.Pos() <= p <= |file|
    ensures k <= |Sight(seal, file, c)| && Sight(seal, file, c)[k..] == Sight(seal, file, At(p, 0))
    ensures NoFalseEnd(seal, file, p) ==> forall i :: 0 <= i < k ==> !LooksLikeEof(Sight(seal, file, c)[i])
    decreases p - c.start, |file| - c.Pos()
  {
    hide Sight;
    hide NoFalseEnd;
    if c.off + HEADER > BLOCK && c.Pos() < p {
      assert c.start + BLOCK <= p;
      SkipsTrailer(seal, file, c);
      k := SightReaches(seal, file, At(c.start + BLOCK, 0), p);
    } else if c.Pos() == p {
      k := 0;
      SameSight(seal, file, c, p);
    } else {
      var seen, next := NextInBlock(seal, file, c, p);
      k := SightReaches(seal, file, next, p);
      SuffixCons(Sight(seal, file, c), seen, Sight(seal, file, next), k);
      k := k + 1;
    }
  }

  lemma SkipsTrailer(seal: Seal, file: Bytes, c: Cursor)
    requires c.In(file) && FullBlock(file, c.start) && c.off + HEADER > BLOCK
    ensures Sight(seal, file, c) == Sight(seal, file, At(c.start + BLOCK, 0))
  {
  }

  lemma SameSight(seal: Seal, file: Bytes, c: Cursor, p: nat)
    requires c.In(file) && c.start % BLOCK == 0 && p % BLOCK == 0 && c.Pos() == p
    ensures Sight(seal, file, c)[0..] == Sight(seal, file, At(p, 0))
  {
    if c.off == BLOCK { SkipsTrailer(seal, file, c); } else { assert c == At(p, 0); }
  }

  /** What comes here starts a record, whatever the reader was in. */
  predicate StartsAfresh(all: seq<Seen>, m: nat) {
    m == |all| || (m < |all| && (OfType(all[m], FULL) || OfType(all[m], FIRST)))
  }

  lemma {:induction false} CallThrough(all: seq<Seen>, k: nat, scratch: Bytes, inFragment: bool, m: nat)
    requires k <= m && StartsAfresh(all, m) && forall i :: k <= i < m ==> !LooksLikeEof(all[i])
    ensures var r, s := Call(all, k, scratch, inFragment), Call(all, m, [], false);
      || (r.record.Some? && k + r.used <= m)
      || (r.record == s.record && k + r.used == m + s.used)
    decreases m - k
  {
    if k < m {
      var d := Digest(all[k], scratch, inFragment);
      if d.Continue? { CallThrough(all, k + 1, d.scratch, d.inFragment, m); }
    }
  }

  lemma {:induction false} CallsThrough(all: seq<Seen>, k: nat, m: nat) returns (front: seq<Bytes>)
    requires k <= m && StartsAfresh(all, m) && forall i :: k <= i < m ==> !LooksLikeEof(all[i])
    ensures Calls(all, k).0 == front + Calls(all, m).0
    decreases m - k
  {
    CallThrough(all, k, [], false, m);
    var r := Call(all, k, [], false);
    if r.record.Some? && k + r.used <= m {
      front := CallsThrough(all, k + r.used, m);
      assert [r.record.value] + (front + Calls(all, m).0) == [r.record.value] + front + Calls(all, m).0;
      front := [r.record.value] + front;
    } else {
      front := [];
    }
  }

  /** Records written from a block boundary on come back last, cut off or not, whatever stands before
      it, unless an accepted record there has the type of the end of the file. */
  lemma IntactRest(seal: Seal, file: Bytes, p: nat, records: seq<Bytes>) returns (front: seq<Bytes>)
    requires seal.Lawful() && p % BLOCK == 0 && p <= |file| && NoFalseEnd(seal, file, p)
    requires file[p..] <= Written(seal, 0, records)
    ensures ReadAll(SightOf(seal, file)).0 == front + records[..Complete(seal, 0, records, |file| - p)]
  {
    hide Sight;
    hide ReadAll;
    hide Complete;
    hide Written;
    hide Calls;
    hide EofFrom;
    var sight := SightOf(seal, file);
    var k := SightReaches(seal, file, At(0, 0), p);
    assert forall i :: 0 <= i < |file| - p ==> file[p + i] == file[p..][i];
    var n, all := ReadsRecords(seal, file, At(p, 0), records);
    SightStartsAfresh(seal, file, At(p, 0), records);
    CallsReadAll(sight, 0);
    CallsReadAll(sight, k);
    assert sight[0..] == sight;
    front := CallsThrough(sight, 0, k);
  }

  /** Where a record was written, a fragment FULL or FIRST is the first in sight, if any. */
  lemma SightStartsAfresh(seal: Seal, file: Bytes, c: Cursor, records: seq<Bytes>)
    requires seal.Lawful() && Ahead(seal, file, c, records) && c.In(file)
    ensures StartsAfresh(Sight(seal, file, c), 0)
  {
    if records == [] {
      NothingLeft(seal, file, c);
    } else {
      var pieces := Pieces(c.off, records[0], true);
      PieceTypes(c.off, records[0], true);
      var k, d := SeesPieces(seal, file, c, pieces, Written(seal, EndOff(c.off, pieces), records[1..]));
      assert pieces[0].t == FULL || pieces[0].t == FIRST;
    }
  }

  // ---------- reading a whole log ----------

  /** The reader has returned `records` so far; the rest is in sight. */
  ghost predicate Midway(all: (seq<Bytes>, seq<nat>), records: seq<Bytes>, reports: seq<nat>, rest: (seq<Bytes>, seq<nat>)) {
    all.0 == records + rest.0 && all.1 == reports + rest.1
  }

  lemma MidwayStep(all: (seq<Bytes>, seq<nat>), records: seq<Bytes>, reports: seq<nat>, sight: seq<Seen>)
    requires Midway(all, records, reports, ReadAll(sight))
    ensures var a := Assemble(sight, [], false);
      if a.record.None? then all == (records, reports + a.reports)
      else Midway(all, records + [a.record.value], reports + a.reports, ReadAll(sight[a.used..]))
  {
    var a := Assemble(sight, [], false);
    if a.record.Some? {
      var rest := ReadAll(sight[a.used..]);
      assert records + ([a.record.value] + rest.0) == records + [a.record.value] + rest.0;
      assert reports + (a.reports + rest.1) == reports + a.reports + rest.1;
    } else {
      assert records + [] == records;
    }
  }

  /** Every byte that passed its checks is in a record or in the sizes reported, but for the tail of an
      unfinished record. */
  ghost predicate Accounted(sight: seq<Seen>, records: seq<Bytes>, reports: seq<nat>) {
    exists tail: Bytes ::
      && WorthOf(sight, 0, BeforeEof(sight)) == Volume(records) + Sum(reports) + |tail|
      && (tail != [] ==> exists f: nat :: Opens(sight, f, BeforeEof(sight)) && tail == Payloads(sight, f, BeforeEof(sight)))
  }

  lemma AllAccounted(sight: seq<Seen>)
    ensures Accounted(sight, ReadAll(sight).0, ReadAll(sight).1)
  {
    StartsInLoop(sight);
    var tail, f := NothingIsLost(sight, 0);
  }

  /** Any file read to its end: what is returned is stored in it, record behind record, and nothing
      is lost without a report. */
  method ReadLog(seal: Seal, file: Bytes) returns (records: seq<Bytes>, reports: seq<nat>, ghost places: seq<Place>)
    ensures (records, reports) == ReadAll(SightOf(seal, file))
    ensures |places| == |records|
    ensures forall i {:trigger places[i]} :: 0 <= i < |places| ==> InFile(seal, file, places[i], records[i])
    ensures forall i, j {:trigger places[i], places[j]} :: 0 <= i < j < |places| ==> EndOf(places[i]) <= StartOf(places[j])
    ensures Accounted(SightOf(seal, file), records, reports)
  {
    hide ReadAll;
    hide Sight;
    hide Assemble;
    hide Accounted;
    hide InFile;
    var reader := new Reader(seal, file);
    ghost var all := ReadAll(SightOf(seal, file));
    records := [];
    while true
      invariant reader.Valid() && fresh(reader) && reader.seal == seal && reader.file == file
      invariant Midway(all, records, reader.reports, ReadAll(Sight(seal, file, reader.at)))
      decreases |Sight(seal, file, reader.at)|
    {
      ghost var sight := Sight(seal, file, reader.at);
      MidwayStep(all, records, reader.reports, sight);
      var record := reader.ReadRecord();
      if record.None? {
        break;
      }
      records := records + [record.value];
    }
    reports := reader.reports;
    places := RecordsAreStored(seal, file);
    AllAccounted(SightOf(seal, file));
  }
}
