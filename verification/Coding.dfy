/** Byte strings, fixed-width integers and the byte order (util/coding.h, util/comparator.cc). */
module Coding {

  type Byte = b: int | 0 <= b < 256
  type Bytes = seq<Byte>

  const WORD: nat := 0x1_0000_0000

  /** EncodeFixed32: the low 32 bits, least significant byte first. */
  function Fixed32(n: nat): (r: Bytes)
    ensures |r| == 4
  {
    [n % 256, n / 256 % 256, n / 256 / 256 % 256, n / 256 / 256 / 256 % 256]
  }

  /** DecodeFixed32. */
  function Decode32(b: Bytes): (n: nat)
    requires |b| == 4
    ensures n < WORD
  {
    b[0] as int + 256 * (b[1] as int + 256 * (b[2] as int + 256 * (b[3] as int)))
  }

  lemma DigitOut(n: nat)
    ensures n == n % 256 + 256 * (n / 256)
  {
  }

  lemma Fixed32RoundTrip(n: nat)
    requires n < WORD
    ensures Decode32(Fixed32(n)) == n
  {
    var a := n / 256;
    var b := a / 256;
    var c := b / 256;
    DigitOut(n);
    DigitOut(a);
    DigitOut(b);
    assert c < 256;
  }

  /** The least significant byte comes first. */
  lemma Fixed32Value(n: nat)
    requires n < WORD
    ensures var b := Fixed32(n); n == b[0] as int + b[1] as int * 256 + b[2] as int * 65536 + b[3] as int * 16777216
  {
    Fixed32RoundTrip(n);
  }

  function Fixed64(n: nat): (r: Bytes)
    ensures |r| == 8
  {
    Fixed32(n % WORD) + Fixed32(n / WORD)
  }

  function Decode64(b: Bytes): nat
    requires |b| == 8
  {
    Decode32(b[..4]) + WORD * Decode32(b[4..])
  }

  lemma Fixed64RoundTrip(n: nat)
    requires n < LONG
    ensures Decode64(Fixed64(n)) == n
  {
    assert n / WORD < WORD;
    Fixed32RoundTrip(n % WORD);
    Fixed32RoundTrip(n / WORD);
    assert Fixed64(n)[..4] == Fixed32(n % WORD) && Fixed64(n)[4..] == Fixed32(n / WORD);
  }

  // ---------- variable-length integers ----------

  /** EncodeVarint32: seven bits a byte, the top bit set on all but the last. */
  function Varint(n: nat): (r: Bytes)
    ensures |r| >= 1
  {
    if n < 128 then [n] else [128 + n % 128] + Varint(n / 128)
  }

  /** All bytes but the last have the top bit set; the others count seven bits each, lowest first; and
      there are no more bytes than it takes. */
  lemma {:induction false} VarintBytes(n: nat)
    ensures var b := Varint(n);
      && (forall i :: 0 <= i < |b| - 1 ==> b[i] >= 128) && b[|b| - 1] < 128 && (|b| > 1 ==> b[|b| - 1] > 0)
      && SevenBits(b) == n
  {
    if n >= 128 {
      VarintBytes(n / 128);
      var b := Varint(n);
      assert b[1..] == Varint(n / 128);
      assert forall i :: 1 <= i < |b| ==> b[i] == Varint(n / 128)[i - 1];
    }
  }

  function SevenBits(b: Bytes): nat {
    if b == [] then 0 else b[0] as int % 128 + 128 * SevenBits(b[1..])
  }

  datatype Got = Nothing | Got(value: nat, next: nat)

  /** GetVarint32Ptr, reading at most `k` bytes from position `p`, before its result is cut to 32
      bits. */
  function ReadVarint(b: Bytes, p: nat, limit: nat, k: nat): (r: Got)
    requires limit <= |b|
    ensures r.Got? ==> p < r.next <= limit
    decreases k
  {
    if k == 0 || p >= limit then Nothing
    else if b[p] < 128 then Got(b[p], p + 1)
    else
      var rest := ReadVarint(b, p + 1, limit, k - 1);
      if rest.Nothing? then Nothing else Got(b[p] - 128 + 128 * rest.value, rest.next)
  }

  function GetVarint32(b: Bytes, p: nat, limit: nat): (r: Got)
    requires limit <= |b|
    ensures r.Got? ==> p < r.next <= limit
  {
    var r := ReadVarint(b, p, limit, 5);
    if r.Nothing? then Nothing else Got(r.value % WORD, r.next)
  }

  /** 128 to the k. */
  function Capacity(k: nat): nat { if k == 0 then 1 else 128 * Capacity(k - 1) }

  /** The bytes of the file from `p` on start with `s`. */
  ghost predicate Lies(b: Bytes, p: nat, s: Bytes) {
    p + |s| <= |b| && forall i :: 0 <= i < |s| ==> b[p + i] == s[i]
  }

  lemma {:induction false} ReadsVarint(b: Bytes, p: nat, limit: nat, n: nat, k: nat)
    requires Lies(b, p, Varint(n)) && p + |Varint(n)| <= limit <= |b| && n < Capacity(k) && k > 0
    ensures ReadVarint(b, p, limit, k) == Got(n, p + |Varint(n)|)
    decreases k
  {
    if n >= 128 {
      var rest := Varint(n / 128);
      assert Varint(n)[0] == 128 + n % 128 && Varint(n)[1..] == rest;
      assert Lies(b, p + 1, rest) by {
        forall i | 0 <= i < |rest| ensures b[p + 1 + i] == rest[i] { assert b[p + (1 + i)] == Varint(n)[1 + i]; }
      }
      assert b[p] == Varint(n)[0];
      ReadsVarint(b, p + 1, limit, n / 128, k - 1);
    } else {
      assert b[p] == Varint(n)[0];
    }
  }

  /** From `p` to `next` lie bytes of which only the last has the top bit clear. */
  predicate IsVarint(b: Bytes, p: nat, next: nat) {
    p < next <= |b| && b[next - 1] < 128 && forall j :: p <= j < next - 1 ==> b[j] >= 128
  }

  /** What is read, on any bytes, is the first varint that ends within `k` bytes and before the limit. */
  lemma {:induction false} ReadsExactly(b: Bytes, p: nat, limit: nat, k: nat)
    requires limit <= |b|
    ensures var r := ReadVarint(b, p, limit, k);
      if r.Got? then r.next <= p + k && r.next <= limit && IsVarint(b, p, r.next) && r.value == SevenBits(b[p..r.next])
      else forall next :: p < next <= p + k && next <= limit ==> !IsVarint(b, p, next)
    decreases k
  {
    if k > 0 && p < limit {
      if b[p] >= 128 {
        ReadsExactly(b, p + 1, limit, k - 1);
        var r := ReadVarint(b, p, limit, k);
        if r.Got? {
          assert b[p..r.next][1..] == b[p + 1..r.next];
        } else {
          forall next | p < next <= p + k && next <= limit ensures !IsVarint(b, p, next) {
            if next > p + 1 { assert !IsVarint(b, p + 1, next); }
          }
        }
      } else {
        assert b[p..p + 1][1..] == [];
      }
    }
  }

  /** Decoding undoes encoding. */
  lemma VarintRoundTrip(b: Bytes, p: nat, limit: nat, n: nat)
    requires Lies(b, p, Varint(n)) && p + |Varint(n)| <= limit <= |b| && n < WORD
    ensures GetVarint32(b, p, limit) == Got(n, p + |Varint(n)|)
  {
    assert Capacity(2) == 16384 && Capacity(4) == 268435456;
    ReadsVarint(b, p, limit, n, 5);
  }

  // ---------- 64-bit integers and strings with their length ----------

  const LONG: nat := 0x1_0000_0000_0000_0000

  /** GetVarint64, its result cut to 64 bits. */
  function GetVarint64(b: Bytes, p: nat): (r: Got)
    ensures r.Got? ==> p < r.next <= |b| && r.value < LONG
  {
    var r := ReadVarint(b, p, |b|, 10);
    if r.Nothing? then Nothing else Got(r.value % LONG, r.next)
  }

  datatype Parsed<+T> = Failed | Parsed(value: T, next: nat)

  predicate Short(s: Bytes) { |s| < WORD }

  /** PutLengthPrefixedSlice. */
  function Prefixed(s: Bytes): Bytes { Varint(|s|) + s }

  /** GetLengthPrefixedSlice. */
  function GetSlice(b: Bytes, p: nat): (r: Parsed<Bytes>)
    ensures r.Parsed? ==> p < r.next <= |b| && Short(r.value)
  {
    var n := GetVarint32(b, p, |b|);
    if n.Nothing? || |b| - n.next < n.value then Failed
    else Parsed(b[n.next..n.next + n.value], n.next + n.value)
  }

  /** A 32-bit number, a 64-bit number, and a string with its length, from `p` to `next`. */
  predicate IntAt(b: Bytes, p: nat, n: nat, next: nat) {
    IsVarint(b, p, next) && next <= p + 5 && n == SevenBits(b[p..next]) % 0x1_0000_0000
  }

  predicate LongAt(b: Bytes, p: nat, n: nat, next: nat) {
    IsVarint(b, p, next) && next <= p + 10 && n == SevenBits(b[p..next]) % 0x1_0000_0000_0000_0000
  }

  ghost predicate SliceAt(b: Bytes, p: nat, s: Bytes, next: nat) {
    exists m: nat :: IntAt(b, p, |s|, m) && next == m + |s| <= |b| && b[m..next] == s
  }

  lemma OneVarint(b: Bytes, p: nat, next: nat, other: nat)
    requires IsVarint(b, p, next) && IsVarint(b, p, other)
    ensures next == other
  {
  }

  /** On any bytes, the three readers find what is there and nothing else. */
  lemma IntExactly(b: Bytes, p: nat, n: nat, next: nat)
    ensures GetVarint32(b, p, |b|) == Got(n, next) <==> IntAt(b, p, n, next)
  {
    ReadsExactly(b, p, |b|, 5);
    var r := ReadVarint(b, p, |b|, 5);
    if IntAt(b, p, n, next) && r.Got? { OneVarint(b, p, next, r.next); }
  }

  lemma LongExactly(b: Bytes, p: nat, n: nat, next: nat)
    ensures GetVarint64(b, p) == Got(n, next) <==> LongAt(b, p, n, next)
  {
    ReadsExactly(b, p, |b|, 10);
    var r := ReadVarint(b, p, |b|, 10);
    if LongAt(b, p, n, next) && r.Got? { OneVarint(b, p, next, r.next); }
  }

  lemma SliceExactly(b: Bytes, p: nat, s: Bytes, next: nat)
    ensures GetSlice(b, p) == Parsed(s, next) <==> SliceAt(b, p, s, next)
  {
    var n := GetVarint32(b, p, |b|);
    if n.Got? { IntExactly(b, p, n.value, n.next); }
    if SliceAt(b, p, s, next) {
      var m: nat :| IntAt(b, p, |s|, m) && next == m + |s| <= |b| && b[m..next] == s;
      IntExactly(b, p, |s|, m);
    }
  }

  /** The string continues with `s` from `p` on. */
  predicate Has(b: Bytes, p: nat, s: Bytes) { p + |s| <= |b| && b[p..p + |s|] == s }

  lemma HasSplit(b: Bytes, p: nat, s: Bytes, t: Bytes)
    requires Has(b, p, s + t)
    ensures Has(b, p, s) && Has(b, p + |s|, t)
  {
    var all := b[p..p + |s + t|];
    assert all[..|s|] == s && all[|s|..] == t;
    assert b[p..p + |s|] == all[..|s|] && b[p + |s|..p + |s| + |t|] == all[|s|..];
  }

  lemma HasLies(b: Bytes, p: nat, s: Bytes)
    requires Has(b, p, s)
    ensures Lies(b, p, s)
  {
    forall i | 0 <= i < |s| ensures b[p + i] == s[i] { assert b[p..p + |s|][i] == s[i]; }
  }

  lemma ReadsWord(b: Bytes, p: nat, n: nat)
    requires Has(b, p, Varint(n)) && n < WORD
    ensures GetVarint32(b, p, |b|) == Got(n, p + |Varint(n)|)
  {
    HasLies(b, p, Varint(n));
    VarintRoundTrip(b, p, |b|, n);
  }

  /** Decoding a 64-bit number undoes encoding it. */
  lemma ReadsLong(b: Bytes, p: nat, n: nat)
    requires Has(b, p, Varint(n)) && n < LONG
    ensures GetVarint64(b, p) == Got(n, p + |Varint(n)|)
  {
    assert Capacity(3) == 2097152;
    assert Capacity(6) == 4398046511104;
    assert Capacity(9) == 9223372036854775808;
    HasLies(b, p, Varint(n));
    ReadsVarint(b, p, |b|, n, 10);
  }

  lemma ReadsSlice(b: Bytes, p: nat, s: Bytes)
    requires Has(b, p, Prefixed(s)) && Short(s)
    ensures GetSlice(b, p) == Parsed(s, p + |Prefixed(s)|)
  {
    HasSplit(b, p, Varint(|s|), s);
    ReadsWord(b, p, |s|);
  }

  lemma ReadsLongThen(b: Bytes, p: nat, n: nat, rest: Bytes)
    requires Has(b, p, Varint(n) + rest) && n < LONG
    ensures GetVarint64(b, p) == Got(n, p + |Varint(n)|) && Has(b, p + |Varint(n)|, rest)
  {
    HasSplit(b, p, Varint(n), rest);
    ReadsLong(b, p, n);
  }

  // ---------- strings one after the other ----------

  function Concat(parts: seq<Bytes>): Bytes {
    if parts == [] then [] else Concat(parts[..|parts| - 1]) + parts[|parts| - 1]
  }

  lemma ConcatSnoc(parts: seq<Bytes>, p: Bytes)
    ensures Concat(parts + [p]) == Concat(parts) + p
  {
    assert (parts + [p])[..|parts|] == parts;
  }

  /** Part `i` lies between the lengths of the first `i` and the first `i + 1` parts. */
  lemma {:induction false} PartAt(parts: seq<Bytes>, i: nat)
    requires i < |parts|
    ensures var start, limit := |Concat(parts[..i])|, |Concat(parts[..i + 1])|;
            start <= limit <= |Concat(parts)| && Concat(parts)[start..limit] == parts[i]
    decreases |parts|
  {
    var front := parts[..|parts| - 1];
    if i < |parts| - 1 {
      PartAt(front, i);
      assert front[..i] == parts[..i] && front[..i + 1] == parts[..i + 1];
    } else {
      assert parts[..i + 1] == parts;
    }
  }

  /** The parts start at these positions. */
  ghost predicate Starts(parts: seq<Bytes>, starts: seq<nat>) {
    |starts| == |parts| && forall i :: 0 <= i < |parts| ==> starts[i] == |Concat(parts[..i])|
  }

  lemma StartsSnoc(parts: seq<Bytes>, starts: seq<nat>, p: Bytes)
    requires Starts(parts, starts)
    ensures Starts(parts + [p], starts + [|Concat(parts)|])
  {
    forall i | 0 <= i < |parts| + 1 ensures (starts + [|Concat(parts)|])[i] == |Concat((parts + [p])[..i])| {
      assert (parts + [p])[..i] == parts[..i];
      assert i == |parts| ==> parts[..i] == parts;
    }
  }

  function Words(ns: seq<nat>): (r: Bytes)
    ensures |r| == 4 * |ns|
  {
    if ns == [] then [] else Words(ns[..|ns| - 1]) + Fixed32(ns[|ns| - 1])
  }

  lemma {:induction false} WordAt(ns: seq<nat>, i: nat)
    requires i < |ns|
    ensures Words(ns)[4 * i..4 * i + 4] == Fixed32(ns[i])
    decreases |ns|
  {
    var front := ns[..|ns| - 1];
    if i < |ns| - 1 {
      WordAt(front, i);
      assert Words(ns)[4 * i..4 * i + 4] == Words(front)[4 * i..4 * i + 4];
    }
  }

  // ---------- the byte order ----------

  /** The strings agree on their first `m` bytes. */
  predicate Agree(a: Bytes, b: Bytes, m: nat) {
    m <= |a| && m <= |b| && forall i :: 0 <= i < m ==> a[i] == b[i]
  }

  /** Length of the common prefix. */
  function Mismatch(a: Bytes, b: Bytes): (m: nat)
    ensures Agree(a, b, m) && (m < |a| && m < |b| ==> a[m] != b[m])
  {
    if a == [] || b == [] || a[0] != b[0] then 0
    else
      var m := Mismatch(a[1..], b[1..]);
      assert forall i :: 1 <= i < m + 1 ==> a[i] == a[1..][i - 1] && b[i] == b[1..][i - 1];
      m + 1
  }

  /** Slice::compare: bytes first, then length. */
  predicate Below(a: Bytes, b: Bytes) {
    var m := Mismatch(a, b);
    m < |b| && (m == |a| || a[m] < b[m])
  }

  lemma MismatchIs(a: Bytes, b: Bytes, m: nat)
    requires Agree(a, b, m) && (m < |a| && m < |b| ==> a[m] != b[m])
    ensures Mismatch(a, b) == m
  {
  }

  lemma BelowTrans(a: Bytes, b: Bytes, c: Bytes)
    requires Below(a, b) && Below(b, c)
    ensures Below(a, c)
  {
    var k, l := Mismatch(a, b), Mismatch(b, c);
    MismatchIs(a, c, if k < l then k else l);
  }

  lemma BelowTotal(a: Bytes, b: Bytes)
    ensures Below(a, b) || a == b || Below(b, a)
    ensures !(Below(a, b) && Below(b, a)) && !Below(a, a)
  {
    MismatchIs(b, a, Mismatch(a, b));
    MismatchIs(a, a, |a|);
  }

  // ---------- short keys between two keys ----------

  /** The first byte that differs leaves room for a larger one below the limit's. */
  predicate HasRoom(start: Bytes, limit: Bytes) {
    var m := Mismatch(start, limit);
    m < |start| && m < |limit| && start[m] as int + 1 < limit[m] as int
  }

  /** BytewiseComparator::FindShortestSeparator: a key strictly between start and limit that ends
      where they first differ, if there is room, and the start itself otherwise. */
  method FindShortestSeparator(start: Bytes, limit: Bytes) returns (sep: Bytes)
    ensures if HasRoom(start, limit)
            then Below(start, sep) && Below(sep, limit) && |sep| == Mismatch(start, limit) + 1 <= |start|
            else sep == start
  {
    var minLength := if |start| < |limit| then |start| else |limit|;
    var diff := 0;
    while diff < minLength && start[diff] == limit[diff]
      invariant diff <= minLength && Agree(start, limit, diff)
    {
      diff := diff + 1;
    }
    MismatchIs(start, limit, diff);
    sep := start;
    if diff < minLength {
      var byte := start[diff];
      if byte < 255 && byte + 1 < limit[diff] {
        sep := start[..diff] + [byte + 1];
        MismatchIs(start, sep, diff);
        MismatchIs(sep, limit, diff);
      }
    }
  }

  /** The number of leading 0xff bytes. */
  function LeadingFF(key: Bytes): (n: nat)
    ensures n <= |key| && (forall i :: 0 <= i < n ==> key[i] == 255) && (n < |key| ==> key[n] != 255)
  {
    if key == [] || key[0] != 255 then 0
    else
      var n := LeadingFF(key[1..]);
      assert forall i :: 1 <= i < n + 1 ==> key[i] == key[1..][i - 1];
      n + 1
  }

  /** BytewiseComparator::FindShortSuccessor: a key strictly above that ends at the first byte other
      than 0xff; the key itself if there is none. */
  method FindShortSuccessor(key: Bytes) returns (r: Bytes)
    ensures if LeadingFF(key) < |key| then Below(key, r) && |r| == LeadingFF(key) + 1 else r == key
  {
    for i := 0 to |key|
      invariant forall j :: 0 <= j < i ==> key[j] == 255
    {
      if key[i] != 255 {
        r := key[..i] + [key[i] + 1];
        MismatchIs(key, r, i);
        return;
      }
    }
    r := key;
  }
}
