/** Blocks of a table (table/block_builder.cc, table/block.cc): keys share prefixes with their
    predecessors, except at restart points, which a binary search uses. */
module Block {
  import opened Coding

  datatype Pair = Pair(key: Bytes, value: Bytes)

  /** A comparator's order: asymmetric, and what is below a key is below everything not below it. */
  datatype Order = Order(less: (Bytes, Bytes) -> bool) {
    ghost predicate Lawful() {
      && (forall a, b :: !(less(a, b) && less(b, a)))
      && (forall a, b, c :: less(a, b) && !less(c, b) ==> less(a, c))
    }
  }

  // ---------- what a block holds ----------

  /** Lengths of the shared prefix, of the rest of the key and of the value, then the rest of the
      key and the value. */
  function Encoded(shared: nat, e: Pair): Bytes
    requires shared <= |e.key|
  {
    Varint(shared) + Varint(|e.key| - shared) + Varint(|e.value|) + e.key[shared..] + e.value
  }

  /** The pairs, how much of its key each takes from the one before, and which pairs are restart
      points. */
  datatype Plan = Plan(pairs: seq<Pair>, shared: seq<nat>, restarts: seq<nat>)

  /** Pair `i` shares what it says with its predecessor. */
  ghost predicate Shares(p: Plan, i: nat)
    requires i < |p.pairs| == |p.shared|
  {
    && p.shared[i] <= |p.pairs[i].key|
    && (p.shared[i] > 0 ==> i > 0 && p.shared[i] <= |p.pairs[i - 1].key| && Agree(p.pairs[i].key, p.pairs[i - 1].key, p.shared[i]))
  }

  /** Restart points start at the first pair, increase, and share nothing. */
  ghost predicate RestartsOk(p: Plan) {
    && p.restarts != [] && p.restarts[0] == 0
    && (forall r, t :: 0 <= r < t < |p.restarts| ==> p.restarts[r] < p.restarts[t])
    && (forall r :: 0 < r < |p.restarts| ==> p.restarts[r] < |p.pairs|)
    && (forall r :: 0 <= r < |p.restarts| && p.restarts[r] < |p.pairs| ==> p.restarts[r] < |p.shared| && p.shared[p.restarts[r]] == 0)
  }

  ghost predicate PlanOk(p: Plan) {
    && |p.shared| == |p.pairs| && RestartsOk(p)
    && forall i {:trigger Shares(p, i)} :: 0 <= i < |p.pairs| ==> Shares(p, i)
  }

  ghost function Cells(p: Plan): (cells: seq<Bytes>)
    requires PlanOk(p)
    ensures |cells| == |p.pairs|
  {
    seq(|p.pairs|, i requires 0 <= i < |p.pairs| => assert Shares(p, i); Encoded(p.shared[i], p.pairs[i]))
  }

  /** Where pair `i` starts; for the number of pairs, where the restart array starts. */
  ghost function Off(p: Plan, i: nat): nat
    requires PlanOk(p) && i <= |p.pairs|
  {
    |Concat(Cells(p)[..i])|
  }

  ghost function Points(p: Plan): (r: seq<nat>)
    requires PlanOk(p)
    ensures |r| == |p.restarts|
  {
    seq(|p.restarts|, r requires 0 <= r < |p.restarts| => Off(p, p.restarts[r]))
  }

  ghost function Contents(p: Plan): Bytes
    requires PlanOk(p)
  {
    Concat(Cells(p)) + Words(Points(p)) + Fixed32(|p.restarts|)
  }

  // ---------- decoding ----------

  datatype Header = Bad | Header(shared: nat, nonShared: nat, valueLength: nat, at: nat)

  /** DecodeEntry; its first branch is the path for three one-byte lengths. */
  function DecodeEntry(data: Bytes, p: nat, limit: nat): (h: Header)
    requires p <= limit <= |data|
    ensures h.Header? ==> p < h.at <= limit
  {
    if limit - p < 3 then Bad
    else if AllShort(data, p) then
      Checked(data[p], data[p + 1], data[p + 2], p + 3, limit)
    else
      var r := Lengths(data, p, limit);
      if r.at > limit then Bad else Checked(r.a, r.b, r.c, r.at, limit)
  }

  /** Three varints and the position behind them, which is past the limit if one is missing. */
  datatype Three = Three(a: nat, b: nat, c: nat, at: nat)

  function Lengths(data: Bytes, p: nat, limit: nat): (r: Three)
    requires p <= limit <= |data|
    ensures p < r.at
  {
    var a := GetVarint32(data, p, limit);
    if a.Nothing? then Three(0, 0, 0, limit + 1) else
    var b := GetVarint32(data, a.next, limit);
    if b.Nothing? then Three(0, 0, 0, limit + 1) else
    var c := GetVarint32(data, b.next, limit);
    if c.Nothing? then Three(0, 0, 0, limit + 1) else Three(a.value, b.value, c.value, c.next)
  }

  function Checked(shared: nat, nonShared: nat, valueLength: nat, at: nat, limit: nat): Header
    requires at <= limit
  {
    if (limit - at) % WORD < (nonShared + valueLength) % WORD then Bad else Header(shared, nonShared, valueLength, at)
  }

  lemma LiesSplit(b: Bytes, p: nat, s: Bytes, t: Bytes)
    requires Lies(b, p, s + t)
    ensures Lies(b, p, s) && Lies(b, p + |s|, t)
  {
    forall i | 0 <= i < |s| ensures b[p + i] == s[i] { assert (s + t)[i] == s[i]; }
    forall i | 0 <= i < |t| ensures b[p + |s| + i] == t[i] { assert b[p + (|s| + i)] == (s + t)[|s| + i]; }
  }

  /** Three varints lie one after the other, from `p` to `at`. */
  ghost predicate ThreeLie(data: Bytes, p: nat, q: nat, r: nat, at: nat, a: nat, b: nat, c: nat) {
    && Lies(data, p, Varint(a)) && q == p + |Varint(a)|
    && Lies(data, q, Varint(b)) && r == q + |Varint(b)|
    && Lies(data, r, Varint(c)) && at == r + |Varint(c)|
  }

  /** The parts of an encoded pair, one after the other. */
  lemma EncodedLies(data: Bytes, p: nat, shared: nat, e: Pair) returns (q: nat, r: nat, at: nat)
    requires shared <= |e.key| && Lies(data, p, Encoded(shared, e))
    ensures ThreeLie(data, p, q, r, at, shared, |e.key| - shared, |e.value|)
    ensures Lies(data, at, e.key[shared..]) && Lies(data, at + |e.key| - shared, e.value)
    ensures at + |e.key| - shared + |e.value| == p + |Encoded(shared, e)|
  {
    var x, y, z := Varint(shared), Varint(|e.key| - shared), Varint(|e.value|);
    LiesSplit(data, p, x + y + z + e.key[shared..], e.value);
    LiesSplit(data, p, x + y + z, e.key[shared..]);
    LiesSplit(data, p, x + y, z);
    LiesSplit(data, p, x, y);
    q, r, at := p + |x|, p + |x| + |y|, p + |x| + |y| + |z|;
  }

  lemma SmallVarint(data: Bytes, p: nat, n: nat)
    requires Lies(data, p, Varint(n)) && data[p] < 128
    ensures n == data[p] && |Varint(n)| == 1
  {
    assert data[p + 0] == Varint(n)[0];
  }

  lemma CheckedIs(shared: nat, nonShared: nat, valueLength: nat, at: nat, limit: nat)
    requires at + nonShared + valueLength <= limit < WORD
    ensures Checked(shared, nonShared, valueLength, at, limit) == Header(shared, nonShared, valueLength, at)
  {
  }

  predicate AllShort(data: Bytes, p: nat)
    requires p + 3 <= |data|
  {
    data[p] < 128 && data[p + 1] < 128 && data[p + 2] < 128
  }

  /** The path for three one-byte lengths, and the one for longer lengths. */
  lemma DecodesShort(data: Bytes, p: nat, q: nat, r: nat, at: nat, limit: nat, a: nat, b: nat, c: nat)
    requires ThreeLie(data, p, q, r, at, a, b, c) && at + b + c <= limit <= |data| < WORD && AllShort(data, p)
    ensures DecodeEntry(data, p, limit) == Header(a, b, c, at)
  {
    SmallVarint(data, p, a);
    SmallVarint(data, q, b);
    SmallVarint(data, r, c);
    CheckedIs(a, b, c, at, limit);
  }

  lemma ReadsLengths(data: Bytes, p: nat, q: nat, r: nat, at: nat, limit: nat, a: nat, b: nat, c: nat)
    requires ThreeLie(data, p, q, r, at, a, b, c) && at <= limit <= |data| && a < WORD && b < WORD && c < WORD
    ensures Lengths(data, p, limit) == Three(a, b, c, at)
  {
    VarintRoundTrip(data, p, limit, a);
    VarintRoundTrip(data, q, limit, b);
    VarintRoundTrip(data, r, limit, c);
  }

  lemma DecodesLong(data: Bytes, p: nat, limit: nat, a: nat, b: nat, c: nat, at: nat)
    requires p + 3 <= limit <= |data| < WORD && !AllShort(data, p)
    requires Lengths(data, p, limit) == Three(a, b, c, at) && at + b + c <= limit
    ensures DecodeEntry(data, p, limit) == Header(a, b, c, at)
  {
    CheckedIs(a, b, c, at, limit);
  }

  lemma EncodedLength(shared: nat, e: Pair)
    requires shared <= |e.key|
    ensures |Encoded(shared, e)| == |Varint(shared)| + |Varint(|e.key| - shared)| + |Varint(|e.value|)| + |e.key| - shared + |e.value|
    ensures |Encoded(shared, e)| >= 3
  {
  }

  /** DecodeEntry undoes the encoding of a pair. */
  lemma DecodesEncoded(data: Bytes, p: nat, q: nat, r: nat, at: nat, limit: nat, a: nat, b: nat, c: nat)
    requires ThreeLie(data, p, q, r, at, a, b, c) && at + b + c <= limit <= |data| < WORD && a < WORD
    ensures DecodeEntry(data, p, limit) == Header(a, b, c, at)
  {
    if AllShort(data, p) {
      DecodesShort(data, p, q, r, at, limit, a, b, c);
    } else {
      ReadsLengths(data, p, q, r, at, limit, a, b, c);
      DecodesLong(data, p, limit, a, b, c, at);
    }
  }

  lemma LiesSlice(b: Bytes, p: nat, s: Bytes)
    requires Lies(b, p, s)
    ensures b[p..p + |s|] == s
  {
  }

  /** What parsing an encoded pair yields. */
  ghost predicate ParsedAs(data: Bytes, h: Header, shared: nat, e: Pair, end: nat) {
    && h.Header? && h.shared == shared <= |e.key| && h.nonShared == |e.key| - shared && h.valueLength == |e.value|
    && h.at + h.nonShared + |e.value| == end <= |data|
    && data[h.at..h.at + h.nonShared] == e.key[shared..] && data[h.at + h.nonShared..end] == e.value
  }

  lemma ParsesCell(data: Bytes, p: nat, limit: nat, shared: nat, e: Pair)
    requires shared <= |e.key| < WORD && Lies(data, p, Encoded(shared, e))
    requires p + |Encoded(shared, e)| <= limit <= |data| < WORD
    ensures ParsedAs(data, DecodeEntry(data, p, limit), shared, e, p + |Encoded(shared, e)|)
  {
    var q, r, at := EncodedLies(data, p, shared, e);
    DecodesEncoded(data, p, q, r, at, limit, shared, |e.key| - shared, |e.value|);
    LiesSlice(data, at, e.key[shared..]);
    LiesSlice(data, at + |e.key| - shared, e.value);
  }

  // ---------- offsets ----------

  lemma PrefixLies(a: Bytes, b: Bytes, start: nat, limit: nat, s: Bytes)
    requires start <= limit <= |a| && a[start..limit] == s
    ensures Lies(a + b, start, s) && limit == start + |s|
  {
    forall i | 0 <= i < |s| ensures (a + b)[start + i] == s[i] { assert a[start..limit][i] == s[i]; }
  }

  /** Cell `i` lies at its offset, and the next one behind it. */
  lemma CellLies(p: Plan, i: nat)
    requires PlanOk(p) && i < |p.pairs|
    ensures Lies(Contents(p), Off(p, i), Cells(p)[i])
    ensures Off(p, i + 1) == Off(p, i) + |Cells(p)[i]| <= Off(p, |p.pairs|)
  {
    var cells := Cells(p);
    PartAt(cells, i);
    AllCells(p);
    PrefixLies(Concat(cells), Words(Points(p)) + Fixed32(|p.restarts|), Off(p, i), Off(p, i + 1), cells[i]);
    assert Contents(p) == Concat(cells) + (Words(Points(p)) + Fixed32(|p.restarts|));
  }

  lemma AllCells(p: Plan)
    requires PlanOk(p)
    ensures Off(p, |p.pairs|) == |Concat(Cells(p))|
  {
    assert Cells(p)[..|p.pairs|] == Cells(p);
  }

  lemma CellIs(p: Plan, i: nat)
    requires PlanOk(p) && i < |p.pairs|
    ensures p.shared[i] <= |p.pairs[i].key| && Cells(p)[i] == Encoded(p.shared[i], p.pairs[i]) && |Cells(p)[i]| >= 3
  {
    assert Shares(p, i);
    EncodedLength(p.shared[i], p.pairs[i]);
  }

  lemma {:induction false} OffRises(p: Plan, i: nat, j: nat)
    requires PlanOk(p) && i < j <= |p.pairs|
    ensures Off(p, i) < Off(p, j)
    decreases j
  {
    CellLies(p, j - 1);
    CellIs(p, j - 1);
    if i < j - 1 { OffRises(p, i, j - 1); }
  }

  /** No key is longer than what was written up to its end. */
  lemma {:induction false} KeyFits(p: Plan, i: nat)
    requires PlanOk(p) && i < |p.pairs|
    ensures |p.pairs[i].key| <= Off(p, i + 1) <= Off(p, |p.pairs|)
  {
    CellLies(p, i);
    CellIs(p, i);
    EncodedLength(p.shared[i], p.pairs[i]);
    assert Shares(p, i);
    if i > 0 { KeyFits(p, i - 1); }
  }

  /** What parsing at the offset of pair `i` yields. */
  lemma ParsesPair(p: Plan, i: nat)
    requires PlanOk(p) && i < |p.pairs| && |Contents(p)| < WORD
    ensures Off(p, i) < Off(p, i + 1) <= Off(p, |p.pairs|) <= |Contents(p)|
    ensures ParsedAs(Contents(p), DecodeEntry(Contents(p), Off(p, i), Off(p, |p.pairs|)), p.shared[i], p.pairs[i], Off(p, i + 1))
  {
    CellLies(p, i);
    CellIs(p, i);
    KeyFits(p, i);
    AllCells(p);
    ParsesCell(Contents(p), Off(p, i), Off(p, |p.pairs|), p.shared[i], p.pairs[i]);
  }

  // ---------- the restart array ----------

  lemma MiddleSlice(a: Bytes, b: Bytes, c: Bytes, i: nat, j: nat)
    requires i <= j <= |b|
    ensures (a + b + c)[|a| + i..|a| + j] == b[i..j]
  {
  }

  lemma PointBytes(p: Plan, r: nat)
    requires PlanOk(p) && r < |p.restarts|
    ensures var at := Off(p, |p.pairs|) + 4 * r;
      at + 4 <= |Contents(p)| && Contents(p)[at..at + 4] == Fixed32(Points(p)[r])
  {
    AllCells(p);
    WordAt(Points(p), r);
    MiddleSlice(Concat(Cells(p)), Words(Points(p)), Fixed32(|p.restarts|), 4 * r, 4 * r + 4);
  }

  lemma PointFits(p: Plan, r: nat)
    requires PlanOk(p) && r < |p.restarts|
    ensures Points(p)[r] == Off(p, p.restarts[r]) <= Off(p, |p.pairs|) <= |Contents(p)|
  {
    AllCells(p);
    if p.restarts[r] < |p.pairs| { OffRises(p, p.restarts[r], |p.pairs|); }
  }

  /** GetRestartPoint: the offset of the pair that restarts. */
  lemma PointRead(p: Plan, r: nat)
    requires PlanOk(p) && r < |p.restarts| && |Contents(p)| < WORD
    ensures var at := Off(p, |p.pairs|) + 4 * r;
      at + 4 <= |Contents(p)| && Decode32(Contents(p)[at..at + 4]) == Off(p, p.restarts[r])
  {
    PointBytes(p, r);
    PointFits(p, r);
    Fixed32RoundTrip(Points(p)[r]);
  }

  lemma CountRead(p: Plan)
    requires PlanOk(p) && |Contents(p)| < WORD
    ensures |Contents(p)| == Off(p, |p.pairs|) + 4 * |p.restarts| + 4
    ensures Decode32(Contents(p)[|Contents(p)| - 4..]) == |p.restarts|
  {
    AllCells(p);
    assert Contents(p)[|Contents(p)| - 4..] == Fixed32(|p.restarts|);
    Fixed32RoundTrip(|p.restarts|);
  }

  // ---------- the builder ----------

  /** The plan with one more pair. */
  ghost function Extended(p: Plan, e: Pair, shared: nat, restart: bool): Plan {
    Plan(p.pairs + [e], p.shared + [shared], if restart then p.restarts + [|p.pairs|] else p.restarts)
  }

  ghost predicate CanExtend(p: Plan, e: Pair, shared: nat, restart: bool) {
    && PlanOk(p) && shared <= |e.key| && (restart ==> shared == 0 && p.pairs != [])
    && (shared > 0 ==> p.pairs != [] && Agree(e.key, p.pairs[|p.pairs| - 1].key, shared))
  }

  lemma ExtendedOk(p: Plan, e: Pair, shared: nat, restart: bool)
    requires CanExtend(p, e, shared, restart)
    ensures PlanOk(Extended(p, e, shared, restart))
  {
    var q := Extended(p, e, shared, restart);
    forall i | 0 <= i < |q.pairs| ensures Shares(q, i) {
      if i < |p.pairs| { assert Shares(p, i); }
    }
    forall r | 0 < r < |q.restarts| ensures q.restarts[r] < |q.pairs| {
      assert r < |p.restarts| ==> p.restarts[r] < |p.pairs|;
    }
    forall r, t | 0 <= r < t < |q.restarts| ensures q.restarts[r] < q.restarts[t] {
      if t == |p.restarts| { assert r > 0 ==> p.restarts[r] < |p.pairs|; }
    }
  }

  lemma ExtendedCells(p: Plan, e: Pair, shared: nat, restart: bool)
    requires CanExtend(p, e, shared, restart) && PlanOk(Extended(p, e, shared, restart))
    ensures Cells(Extended(p, e, shared, restart)) == Cells(p) + [Encoded(shared, e)]
    ensures Concat(Cells(Extended(p, e, shared, restart))) == Concat(Cells(p)) + Encoded(shared, e)
  {
    var q := Extended(p, e, shared, restart);
    forall i | 0 <= i < |q.pairs| ensures Cells(q)[i] == (Cells(p) + [Encoded(shared, e)])[i] {
      CellIs(q, i);
      if i < |p.pairs| { CellIs(p, i); }
    }
    ConcatSnoc(Cells(p), Encoded(shared, e));
  }

  lemma ExtendedPoints(p: Plan, e: Pair, shared: nat, restart: bool)
    requires CanExtend(p, e, shared, restart) && PlanOk(Extended(p, e, shared, restart))
    ensures Points(Extended(p, e, shared, restart)) == if restart then Points(p) + [|Concat(Cells(p))|] else Points(p)
  {
    var q := Extended(p, e, shared, restart);
    ExtendedCells(p, e, shared, restart);
    AllCells(p);
    forall i | 0 <= i <= |p.pairs| ensures Off(q, i) == Off(p, i) {
      assert Cells(q)[..i] == Cells(p)[..i];
    }
    forall r | 0 <= r < |p.restarts| ensures p.restarts[r] <= |p.pairs| && Points(q)[r] == Points(p)[r] { }
  }

  lemma ExtendedAll(p: Plan, e: Pair, shared: nat, restart: bool)
    requires CanExtend(p, e, shared, restart)
    ensures var q := Extended(p, e, shared, restart);
      && PlanOk(q) && Concat(Cells(q)) == Concat(Cells(p)) + Encoded(shared, e)
      && Points(q) == if restart then Points(p) + [|Concat(Cells(p))|] else Points(p)
  {
    ExtendedOk(p, e, shared, restart);
    ExtendedCells(p, e, shared, restart);
    ExtendedPoints(p, e, shared, restart);
  }

  /** The shared prefix and the rest make the key again. */
  lemma KeyRestored(last: Bytes, key: Bytes, shared: nat)
    requires Agree(key, last, shared)
    ensures last[..shared] + key[shared..] == key
  {
  }

  lemma {:induction false} Times(a: nat, b: nat, k: nat)
    requires a <= b
    ensures a * k <= b * k
  {
    if a < b {
      Times(a, b - 1, k);
      assert b * k == (b - 1) * k + k;
    }
  }

  lemma Remainder(n: nat, k: nat, q: nat, r: nat)
    requires k > 0 && r < k && n == q * k + r
    ensures n % k == r
  {
    var d := n / k;
    assert n == d * k + n % k;
    assert (q + 1) * k == q * k + k && (d + 1) * k == d * k + k;
    if d > q {
      Times(q + 1, d, k);
    } else if d < q {
      Times(d + 1, q, k);
    }
  }

  /** How many pairs stand since the last restart point, the pair there included, when every
      `interval`-th pair is one. */
  function Since(n: nat, interval: nat): (c: nat)
    requires interval > 0
  {
    if n == 0 then 0 else (n - 1) % interval + 1
  }

  lemma SinceNext(n: nat, k: nat)
    requires k > 0
    ensures Since(n, k) <= k && (Since(n, k) == k <==> n > 0 && n % k == 0)
    ensures Since(n + 1, k) == if Since(n, k) == k then 1 else Since(n, k) + 1
  {
    if n > 0 {
      var q, r := (n - 1) / k, (n - 1) % k;
      assert n - 1 == q * k + r;
      if r + 1 == k {
        assert n == (q + 1) * k;
        Remainder(n, k, q + 1, 0);
      } else {
        Remainder(n, k, q, r + 1);
      }
    }
  }

  class BlockBuilder {
    const interval: nat
    var buffer: Bytes
    var restarts: seq<nat>
    var counter: nat        // pairs since the last restart point
    var lastKey: Bytes
    ghost var plan: Plan

    ghost predicate Valid()
      reads this
    {
      && PlanOk(plan) && buffer == Concat(Cells(plan)) && restarts == Points(plan)
      && lastKey == (if plan.pairs == [] then [] else plan.pairs[|plan.pairs| - 1].key)
      && interval >= 1 && counter == Since(|plan.pairs|, interval)
    }

    constructor (interval: nat)
      requires interval >= 1
      ensures Valid() && plan == Plan([], [], [0])
    {
      this.interval := interval;
      buffer, restarts, counter, lastKey := [], [0], 0, [];
      plan := Plan([], [], [0]);
    }

    /** The length of the prefix the key shares with the last one. */
    method SharedPrefix(key: Bytes) returns (shared: nat)
      ensures shared <= |key| && shared <= |lastKey| && Agree(key, lastKey, shared)
      ensures shared < |key| && shared < |lastKey| ==> key[shared] != lastKey[shared]
    {
      var minLength := if |lastKey| < |key| then |lastKey| else |key|;
      shared := 0;
      while shared < minLength && lastKey[shared] == key[shared]
        invariant shared <= minLength && Agree(key, lastKey, shared)
      {
        shared := shared + 1;
      }
    }

    /** How much of its key the next pair shares, and whether it is a restart point. */
    method Choose(key: Bytes) returns (shared: nat, restart: bool)
      requires Valid()
      ensures restart == (counter >= interval) == (|plan.pairs| > 0 && |plan.pairs| % interval == 0)
      ensures Since(|plan.pairs| + 1, interval) == if restart then 1 else counter + 1
      ensures shared <= |key| && Agree(key, lastKey, shared) && (restart ==> shared == 0 && plan.pairs != [])
      ensures shared == if |plan.pairs| == 0 || restart then 0 else Mismatch(key, plan.pairs[|plan.pairs| - 1].key)
    {
      hide PlanOk;
      SinceNext(|plan.pairs|, interval);
      shared := 0;
      restart := counter >= interval;
      if !restart {
        shared := SharedPrefix(key);
        MismatchIs(key, lastKey, shared);
      }
    }

    /** Every `interval`-th pair is a restart point and shares nothing; all others share as much as they
        can with the pair before. */
    method Add(key: Bytes, value: Bytes)
      requires Valid()
      modifies this
      ensures Valid() && plan.pairs == old(plan.pairs) + [Pair(key, value)]
      ensures var n := |old(plan.pairs)|;
        && plan.restarts == old(plan.restarts) + (if n > 0 && n % interval == 0 then [n] else [])
        && plan.shared == old(plan.shared)
                          + [if n == 0 || n % interval == 0 then 0 else Mismatch(key, old(plan.pairs)[n - 1].key)]
    {
      hide Since;
      hide PlanOk;
      hide Mismatch;
      var shared, restart := Choose(key);
      ExtendedAll(plan, Pair(key, value), shared, restart);
      Write(key, value, shared, restart);
    }

    method Write(key: Bytes, value: Bytes, shared: nat, restart: bool)
      requires Valid() && CanExtend(plan, Pair(key, value), shared, restart) && restart == (counter >= interval)
      requires var q := Extended(plan, Pair(key, value), shared, restart);
        && PlanOk(q) && Concat(Cells(q)) == buffer + Encoded(shared, Pair(key, value))
        && Points(q) == if restart then restarts + [|buffer|] else restarts
      requires Agree(key, lastKey, shared) && Since(|plan.pairs| + 1, interval) == if restart then 1 else counter + 1
      modifies this
      ensures Valid() && plan == Extended(old(plan), Pair(key, value), shared, restart)
    {
      hide Since;
      hide PlanOk;
      hide Cells;
      hide Points;
      hide Concat;
      if restart {
        restarts := restarts + [|buffer|];
        counter := 0;
      }
      buffer := buffer + Encoded(shared, Pair(key, value));
      KeyRestored(lastKey, key, shared);
      lastKey := lastKey[..shared] + key[shared..];
      counter := counter + 1;
      plan := Extended(plan, Pair(key, value), shared, restart);
    }

    method Finish() returns (contents: Bytes)
      requires Valid()
      ensures contents == Contents(plan)
    {
      var words: Bytes := [];
      for i := 0 to |restarts|
        invariant words == Words(restarts[..i])
      {
        assert restarts[..i + 1][..i] == restarts[..i];
        words := words + Fixed32(restarts[i]);
      }
      assert restarts[..|restarts|] == restarts;
      contents := buffer + words + Fixed32(|restarts|);
    }
  }

  // ---------- the iterator ----------

  /** Offsets compare like the pairs they belong to. */
  lemma OffOrder(p: Plan, i: nat, j: nat)
    requires PlanOk(p) && i <= |p.pairs| && j <= |p.pairs|
    ensures Off(p, i) < Off(p, j) <==> i < j
  {
    if i < j { OffRises(p, i, j); } else if j < i { OffRises(p, j, i); }
  }

  /** The bytes are those of a finished block, read with the right bounds. */
  ghost predicate Reads(p: Plan, data: Bytes, restarts: nat, numRestarts: nat) {
    && PlanOk(p) && data == Contents(p) && |data| < WORD
    && restarts == Off(p, |p.pairs|) && numRestarts == |p.restarts|
  }

  /** Restart point `r` is the one whose stretch pair `i` is in, or ends. */
  ghost predicate Near(p: Plan, r: nat, i: nat) {
    r < |p.restarts| && p.restarts[r] <= i && (r + 1 < |p.restarts| ==> i <= p.restarts[r + 1])
  }

  ghost predicate SortedBy(order: Order, pairs: seq<Pair>) {
    forall i, j :: 0 <= i < j < |pairs| ==> order.less(pairs[i].key, pairs[j].key)
  }

  class BlockIter {
    const data: Bytes
    const restarts: nat        // where the restart array starts
    const numRestarts: nat
    const order: Order
    var current: nat
    var restartIndex: nat
    var key: Bytes
    var valueStart: nat
    var valueEnd: nat
    ghost const plan: Plan
    ghost var pos: nat

    /** At pair `pos`, or past the end. */
    ghost predicate Valid()
      reads this
    {
      && Reads(plan, data, restarts, numRestarts) && pos <= |plan.pairs|
      && if pos < |plan.pairs| then AtPair(pos) else current == restarts && restartIndex == numRestarts
    }

    ghost predicate AtPair(i: nat)
      requires Reads(plan, data, restarts, numRestarts) && i < |plan.pairs|
      reads this
    {
      && current == Off(plan, i) && key == plan.pairs[i].key && Near(plan, restartIndex, i)
      && valueStart <= valueEnd == Off(plan, i + 1) <= |data| && data[valueStart..valueEnd] == plan.pairs[i].value
    }

    /** The next parse will be that of pair `i`, and the key holds what that pair shares. */
    ghost predicate Primed(i: nat)
      reads this
    {
      && Reads(plan, data, restarts, numRestarts) && i <= |plan.pairs| && valueEnd == Off(plan, i)
      && restartIndex < numRestarts && plan.restarts[restartIndex] <= i
      && (i < |plan.pairs| ==> Agree(plan.pairs[i].key, key, plan.shared[i]))
    }

    constructor (data: Bytes, order: Order, ghost plan: Plan)
      requires PlanOk(plan) && data == Contents(plan) && |data| < WORD
      ensures Valid() && this.plan == plan && this.order == order && pos == |plan.pairs|
    {
      CountRead(plan);
      var n := Decode32(data[|data| - 4..]);
      this.data, this.order := data, order;
      this.restarts, this.numRestarts := |data| - (1 + n) * 4, n;
      current, restartIndex, key, valueStart, valueEnd := |data| - (1 + n) * 4, n, [], 0, 0;
      this.plan, pos := plan, |plan.pairs|;
    }

    method GetRestartPoint(r: nat) returns (offset: nat)
      requires Reads(plan, data, restarts, numRestarts) && r < numRestarts
      ensures offset == Off(plan, plan.restarts[r])
    {
      PointRead(plan, r);
      offset := Decode32(data[restarts + 4 * r..restarts + 4 * r + 4]);
    }

    method SeekToRestartPoint(r: nat)
      requires Reads(plan, data, restarts, numRestarts) && r < numRestarts
      modifies this
      ensures Primed(plan.restarts[r])
    {
      key := [];
      restartIndex := r;
      valueStart := GetRestartPoint(r);
      valueEnd := valueStart;
      PointFits(plan, r);
    }

    method ParseNextKey(ghost i: nat) returns (ok: bool)
      requires Primed(i)
      modifies this
      ensures Valid() && pos == i && ok == (i < |plan.pairs|)
    {
      current := valueEnd;
      pos := i;
      OffOrder(plan, i, |plan.pairs|);
      if current >= restarts {
        current, restartIndex := restarts, numRestarts;
        return false;
      }
      ok := ParsePair(i);
    }

    /** Decodes the pair at `current`. The bytes being those of a finished block, the entry is not
        corrupt. */
    method ParsePair(ghost i: nat) returns (ok: bool)
      requires Primed(i) && i < |plan.pairs| && current == Off(plan, i) && pos == i
      modifies this
      ensures Valid() && pos == i && ok
    {
      ParsesPair(plan, i);
      var h := DecodeEntry(data, current, restarts);
      Take(i, h);
      CatchUp(i);
      return true;
    }

    /** Puts the key together and finds the value. */
    method Take(ghost i: nat, h: Header)
      requires Primed(i) && i < |plan.pairs| && h.Header? && h.shared <= |key|
      requires ParsedAs(data, h, plan.shared[i], plan.pairs[i], Off(plan, i + 1))
      modifies this`key, this`valueStart, this`valueEnd
      ensures key == plan.pairs[i].key && valueStart <= valueEnd == Off(plan, i + 1) <= |data|
      ensures data[valueStart..valueEnd] == plan.pairs[i].value
    {
      KeyRestored(key, plan.pairs[i].key, h.shared);
      key := key[..h.shared] + data[h.at..h.at + h.nonShared];
      valueStart, valueEnd := h.at + h.nonShared, h.at + h.nonShared + h.valueLength;
    }

    /** Moves the restart index on to the stretch of pair `i`. */
    method CatchUp(ghost i: nat)
      requires Reads(plan, data, restarts, numRestarts) && i < |plan.pairs| && current == Off(plan, i)
      requires restartIndex < numRestarts && plan.restarts[restartIndex] <= i
      modifies this`restartIndex
      ensures Near(plan, restartIndex, i)
    {
      while restartIndex + 1 < numRestarts
        invariant restartIndex < numRestarts && plan.restarts[restartIndex] <= i
        decreases numRestarts - restartIndex
      {
        var before := PointBefore(restartIndex + 1, current, i);
        if !before {
          return;
        }
        restartIndex := restartIndex + 1;
      }
    }

    /** Compares a restart point with the offset of pair `i`. */
    method PointBefore(r: nat, offset: nat, ghost i: nat) returns (before: bool)
      requires Reads(plan, data, restarts, numRestarts) && r < numRestarts && i <= |plan.pairs| && offset == Off(plan, i)
      ensures before == (plan.restarts[r] < i)
    {
      PointFits(plan, r);
      OffOrder(plan, plan.restarts[r], i);
      var point := GetRestartPoint(r);
      before := point < offset;
    }

    /** From a pair, the next one is primed. */
    lemma PrimesNext()
      requires Valid() && pos < |plan.pairs|
      ensures Primed(pos + 1)
    {
      if pos + 1 < |plan.pairs| { assert Shares(plan, pos + 1); }
    }

    method Next()
      requires Valid() && pos < |plan.pairs|
      modifies this
      ensures Valid() && pos == old(pos) + 1
    {
      PrimesNext();
      var ok := ParseNextKey(pos + 1);
    }

    method SeekToFirst()
      requires Valid()
      modifies this
      ensures Valid() && pos == 0
    {
      SeekToRestartPoint(0);
      var ok := ParseNextKey(0);
    }

    /** Parses one pair, if there is one, and tells whether it ends before `end`. */
    method ParseToward(ghost i: nat, ghost stop: nat, end: nat) returns (before: bool)
      requires Primed(i) && (i < stop <= |plan.pairs| || i == stop == |plan.pairs|) && end == Off(plan, stop)
      modifies this
      ensures Valid() && pos == i && before == (i + 1 < stop)
    {
      if i < stop { OffOrder(plan, i + 1, stop); }
      var ok := ParseNextKey(i);
      before := ok && valueEnd < end;
    }

    /** Parses on from pair `i` to the pair that ends at `end`. */
    method ScanTo(ghost i: nat, ghost stop: nat, end: nat)
      requires Primed(i) && (i < stop <= |plan.pairs| || i == stop == |plan.pairs|) && end == Off(plan, stop)
      modifies this
      ensures Valid() && pos == if i == stop then stop else stop - 1
    {
      var before := ParseToward(i, stop, end);
      while before
        invariant Valid() && before == (pos + 1 < stop) && (if i == stop then pos == stop else pos < stop)
        decreases stop - pos
      {
        PrimesNext();
        before := ParseToward(pos + 1, stop, end);
      }
    }

    method SeekToLast()
      requires Valid()
      modifies this
      ensures Valid() && pos == if plan.pairs == [] then 0 else |plan.pairs| - 1
    {
      SeekToRestartPoint(numRestarts - 1);
      ScanTo(plan.restarts[numRestarts - 1], |plan.pairs|, restarts);
    }

    /** Prev goes back to a restart point before the current pair and parses forward from there. */
    method Prev()
      requires Valid() && pos < |plan.pairs|
      modifies this
      ensures Valid() && pos == if old(pos) == 0 then |plan.pairs| else old(pos) - 1
    {
      var original := current;
      ghost var was := pos;
      var before := PointBefore(restartIndex, original, was);
      while !before
        invariant Reads(plan, data, restarts, numRestarts) && restartIndex < numRestarts && before == (plan.restarts[restartIndex] < was)
        decreases restartIndex, before
      {
        if restartIndex == 0 {
          current, restartIndex := restarts, numRestarts;
          pos := |plan.pairs|;
          return;
        }
        restartIndex := restartIndex - 1;
        before := PointBefore(restartIndex, original, was);
      }
      ghost var i := plan.restarts[restartIndex];
      SeekToRestartPoint(restartIndex);
      ScanTo(i, was, original);
    }

    /** The key at a restart point, which shares nothing. */
    method RestartKey(r: nat) returns (k: Bytes)
      requires Reads(plan, data, restarts, numRestarts) && 0 < r < numRestarts
      ensures k == plan.pairs[plan.restarts[r]].key
    {
      ghost var i := plan.restarts[r];
      PointFits(plan, r);
      ParsesPair(plan, i);
      var offset := GetRestartPoint(r);
      var h := DecodeEntry(data, offset, restarts);
      k := data[h.at..h.at + h.nonShared];
    }

    /** Binary search for the last restart point whose key is below the target. */
    method FindRestart(target: Bytes) returns (left: nat)
      requires Reads(plan, data, restarts, numRestarts)
      ensures left < numRestarts && (left > 0 ==> order.less(plan.pairs[plan.restarts[left]].key, target))
      ensures left + 1 < numRestarts ==> !order.less(plan.pairs[plan.restarts[left + 1]].key, target)
    {
      left := 0;
      var right := numRestarts - 1;
      while left < right
        invariant left <= right < numRestarts
        invariant left > 0 ==> order.less(plan.pairs[plan.restarts[left]].key, target)
        invariant right + 1 < numRestarts ==> !order.less(plan.pairs[plan.restarts[right + 1]].key, target)
      {
        var mid := (left + right + 1) / 2;
        var midKey := RestartKey(mid);
        if order.less(midKey, target) {
          left := mid;
        } else {
          right := mid - 1;
        }
      }
    }

    /** Seek: the first pair whose key is not below the target. */
    method Seek(target: Bytes)
      requires Valid() && order.Lawful() && SortedBy(order, plan.pairs)
      modifies this
      ensures Valid() && AllBelow(order, plan.pairs, pos, target)
      ensures pos < |plan.pairs| ==> !order.less(plan.pairs[pos].key, target)
    {
      var left := FindRestart(target);
      ghost var i := plan.restarts[left];
      BelowRestart(order, plan, left, target);
      SeekToRestartPoint(left);
      var below := ParseBelow(i, target);
      while below
        invariant Valid() && AllBelow(order, plan.pairs, pos, target)
        invariant below == (pos < |plan.pairs| && order.less(plan.pairs[pos].key, target))
        decreases |plan.pairs| - pos
      {
        PrimesNext();
        below := ParseBelow(pos + 1, target);
      }
    }

    /** Parses one pair, if there is one, and tells whether its key is below the target. */
    method ParseBelow(ghost i: nat, target: Bytes) returns (below: bool)
      requires Primed(i)
      modifies this
      ensures Valid() && pos == i && below == (i < |plan.pairs| && order.less(plan.pairs[i].key, target))
    {
      var ok := ParseNextKey(i);
      below := ok && order.less(key, target);
    }
  }

  ghost predicate AllBelow(order: Order, pairs: seq<Pair>, n: nat, target: Bytes) {
    n <= |pairs| && forall j :: 0 <= j < n ==> order.less(pairs[j].key, target)
  }

  lemma BelowRestart(order: Order, p: Plan, left: nat, target: Bytes)
    requires order.Lawful() && RestartsOk(p) && SortedBy(order, p.pairs) && left < |p.restarts|
    requires left > 0 ==> order.less(p.pairs[p.restarts[left]].key, target)
    ensures AllBelow(order, p.pairs, p.restarts[left], target)
  {
    var i := p.restarts[left];
    forall j | 0 <= j < i ensures order.less(p.pairs[j].key, target) {
      assert order.less(p.pairs[j].key, p.pairs[i].key);
    }
  }
}
