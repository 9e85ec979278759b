/** The Bloom filter policy (util/bloom.cc), over any hash function with 32-bit values. */
module Bloom {
  import opened Coding
  import opened FilterBlock

  // ---------- bits in bytes ----------

  /** b & (1 << i) != 0 */
  predicate HasBit(b: nat, i: nat) {
    if i == 0 then b % 2 == 1 else HasBit(b / 2, i - 1)
  }

  /** b | (1 << i) */
  function SetBit(b: nat, i: nat): nat {
    if i == 0 then b / 2 * 2 + 1 else SetBit(b / 2, i - 1) * 2 + b % 2
  }

  function Pow2(n: nat): nat { if n == 0 then 1 else 2 * Pow2(n - 1) }

  lemma Doubled(x: nat, bit: nat)
    requires bit < 2
    ensures (x * 2 + bit) / 2 == x && (x * 2 + bit) % 2 == bit
  {
  }

  lemma {:induction false} SetBitFits(b: nat, i: nat, width: nat)
    requires b < Pow2(width) && i < width
    ensures SetBit(b, i) < Pow2(width)
  {
    assert Pow2(width) == 2 * Pow2(width - 1);
    if i > 0 { SetBitFits(b / 2, i - 1, width - 1); }
  }

  lemma {:induction false} SetBitExactly(b: nat, i: nat, j: nat)
    ensures HasBit(SetBit(b, i), j) <==> i == j || HasBit(b, j)
  {
    if i > 0 {
      Doubled(SetBit(b / 2, i - 1), b % 2);
      if j > 0 { SetBitExactly(b / 2, i - 1, j - 1); }
    } else {
      Doubled(b / 2, 1);
    }
  }

  lemma {:induction false} NoBits(i: nat)
    ensures !HasBit(0, i)
  {
    if i > 0 { NoBits(i - 1); }
  }

  predicate Has(a: Bytes, p: nat)
    requires p < 8 * |a|
  {
    HasBit(a[p / 8], p % 8)
  }

  function OrBit(b: Byte, i: nat): Byte
    requires i < 8
  {
    assert Pow2(4) == 16 && Pow2(8) == 256;
    SetBitFits(b, i, 8);
    SetBit(b, i)
  }

  function Set(a: Bytes, p: nat): (r: Bytes)
    requires p < 8 * |a|
    ensures |r| == |a|
  {
    a[p / 8 := OrBit(a[p / 8], p % 8)]
  }

  /** Every bit of `a` is set in `b`. */
  ghost predicate Within(a: Bytes, b: Bytes) {
    |a| == |b| && forall p :: 0 <= p < 8 * |a| && Has(a, p) ==> Has(b, p)
  }

  lemma SetAdds(a: Bytes, p: nat)
    requires p < 8 * |a|
    ensures Has(Set(a, p), p) && Within(a, Set(a, p))
  {
    SetExactly(a, p, p);
    forall q | 0 <= q < 8 * |a| && Has(a, q) ensures Has(Set(a, p), q) { SetExactly(a, p, q); }
  }

  /** One bit is set and no other changes. */
  lemma SetExactly(a: Bytes, p: nat, q: nat)
    requires p < 8 * |a| && q < 8 * |a|
    ensures Has(Set(a, p), q) <==> p == q || Has(a, q)
  {
    SetBitExactly(a[p / 8], p % 8, q % 8);
    assert p / 8 == q / 8 && p % 8 == q % 8 ==> p == q;
  }

  // ---------- probes ----------

  /** Rotation to the right by 17 bits. */
  function Delta(h: nat): nat
    requires h < WORD
  {
    h / 0x2_0000 + h % 0x2_0000 * 0x8000
  }

  /** Sets `k` bits, stepping the hash by `delta` with 32-bit wrap-around. */
  function Mark(a: Bytes, h: nat, delta: nat, k: nat): (r: Bytes)
    requires a != []
    ensures |r| == |a|
    decreases k
  {
    if k == 0 then a else Mark(Set(a, h % (8 * |a|)), (h + delta) % WORD, delta, k - 1)
  }

  /** All `k` bits are set. */
  predicate Marked(a: Bytes, h: nat, delta: nat, k: nat)
    requires a != []
    decreases k
  {
    k == 0 || (Has(a, h % (8 * |a|)) && Marked(a, (h + delta) % WORD, delta, k - 1))
  }

  lemma {:induction false} MarkAdds(a: Bytes, h: nat, delta: nat, k: nat)
    requires a != []
    ensures Within(a, Mark(a, h, delta, k)) && Marked(Mark(a, h, delta, k), h, delta, k)
    decreases k
  {
    if k > 0 {
      SetAdds(a, h % (8 * |a|));
      MarkAdds(Set(a, h % (8 * |a|)), (h + delta) % WORD, delta, k - 1);
    }
  }

  lemma {:induction false} MarkedStays(a: Bytes, b: Bytes, h: nat, delta: nat, k: nat)
    requires a != [] && Within(a, b) && Marked(a, h, delta, k)
    ensures Marked(b, h, delta, k)
    decreases k
  {
    if k > 0 { MarkedStays(a, b, (h + delta) % WORD, delta, k - 1); }
  }

  /** The `j`-th probe of a hash: double hashing with 32-bit wrap-around. */
  function Probe(h: nat, delta: nat, j: nat): nat { (h + j * delta) % 0x1_0000_0000 }

  lemma ProbeNext(h: nat, delta: nat, j: nat)
    ensures Probe((h + delta) % WORD, delta, j) == Probe(h, delta, j + 1)
  {
    var x, m := h + delta, j * delta;
    assert (x % WORD + m) % WORD == (x + m) % WORD by {
      assert x == x / WORD * WORD + x % WORD;
      WrapsAway(x % WORD + m, x / WORD);
    }
    assert x + m == h + (j + 1) * delta;
  }

  lemma {:induction false} WrapsAway(x: nat, n: nat)
    ensures (x + n * WORD) % WORD == x % WORD
  {
    if n > 0 {
      WrapsAway(x, n - 1);
      assert x + n * WORD == x + (n - 1) * WORD + WORD;
    }
  }

  /** The bit that the `j`-th probe looks at, of so many. */
  function Spot(h: nat, delta: nat, j: nat, bits: nat): (p: nat)
    requires bits > 0
    ensures p < bits
  {
    Probe(h, delta, j) % bits
  }

  /** One of the first `k` probes looks at the bit. */
  ghost predicate Hits(h: nat, delta: nat, k: nat, bits: nat, q: nat)
    requires bits > 0
  {
    exists j: nat :: j < k && Spot(h, delta, j, bits) == q
  }

  lemma SpotNext(h: nat, delta: nat, j: nat, bits: nat)
    requires bits > 0
    ensures Spot((h + delta) % WORD, delta, j, bits) == Spot(h, delta, j + 1, bits)
    ensures h < WORD ==> Spot(h, delta, 0, bits) == h % bits
  {
    ProbeNext(h, delta, j);
    assert 0 * delta == 0;
  }

  lemma HitsStep(h: nat, delta: nat, k: nat, bits: nat, q: nat)
    requires bits > 0 && h < WORD && k > 0
    ensures Hits(h, delta, k, bits, q) <==> h % bits == q || Hits((h + delta) % WORD, delta, k - 1, bits, q)
  {
    hide Spot;
    var next := (h + delta) % WORD;
    SpotNext(h, delta, 0, bits);
    if j: nat :| j < k && Spot(h, delta, j, bits) == q {
      if j > 0 { SpotNext(h, delta, j - 1, bits); }
    }
    if j: nat :| j < k - 1 && Spot(next, delta, j, bits) == q {
      SpotNext(h, delta, j, bits);
    }
  }

  /** The bits set are those of the probes, and those that were set before. */
  lemma {:induction false} MarkExactly(a: Bytes, h: nat, delta: nat, k: nat, q: nat)
    requires a != [] && h < WORD && q < 8 * |a|
    ensures Has(Mark(a, h, delta, k), q) <==> Has(a, q) || Hits(h, delta, k, 8 * |a|, q)
    decreases k
  {
    if k > 0 {
      HitsStep(h, delta, k, 8 * |a|, q);
      SetExactly(a, h % (8 * |a|), q);
      hide Has;
      hide Hits;
      MarkExactly(Set(a, h % (8 * |a|)), (h + delta) % WORD, delta, k - 1, q);
    }
  }

  lemma {:induction false} MarkedExactly(a: Bytes, h: nat, delta: nat, k: nat)
    requires a != [] && h < WORD
    ensures Marked(a, h, delta, k) <==> forall q :: 0 <= q < 8 * |a| && Hits(h, delta, k, 8 * |a|, q) ==> Has(a, q)
    decreases k
  {
    hide Has;
    if k > 0 {
      var p, next := h % (8 * |a|), (h + delta) % WORD;
      MarkedExactly(a, next, delta, k - 1);
      forall q | 0 <= q < 8 * |a| ensures Hits(h, delta, k, 8 * |a|, q) <==> p == q || Hits(next, delta, k - 1, 8 * |a|, q) {
        HitsStep(h, delta, k, 8 * |a|, q);
      }
      hide Hits;
    }
  }

  // ---------- the policy ----------

  /** A hash with 32-bit values, bits per key and probes per key. */
  datatype Config = Config(hash: Bytes -> nat, bitsPerKey: nat, k: nat) {
    predicate Ok() { 1 <= k <= 30 }
    function HashOf(key: Bytes): (h: nat)
      ensures h < WORD
    {
      hash(key) % WORD
    }
  }

  /** Bytes of a filter for `n` keys. */
  function Size(c: Config, n: nat): (r: nat)
    ensures r >= 8
  {
    var bits := n * c.bitsPerKey;
    ((if bits < 64 then 64 else bits) + 7) / 8
  }

  function MarkAll(c: Config, a: Bytes, keys: seq<Bytes>): (r: Bytes)
    requires a != []
    ensures |r| == |a|
    decreases |keys|
  {
    if keys == [] then a
    else
      var h := c.HashOf(keys[|keys| - 1]);
      Mark(MarkAll(c, a, keys[..|keys| - 1]), h, Delta(h), c.k)
  }

  function Create(c: Config, keys: seq<Bytes>): Bytes
    requires c.Ok()
  {
    MarkAll(c, seq(Size(c, |keys|), _ => 0), keys) + [c.k]
  }

  function MayMatch(c: Config, key: Bytes, filter: Bytes): bool {
    var n, h := |filter|, c.HashOf(key);
    n >= 2 && (filter[n - 1] > 30 || Marked(filter[..n - 1], h, Delta(h), filter[n - 1]))
  }

  lemma {:induction false} MarkAllMarks(c: Config, a: Bytes, keys: seq<Bytes>, key: Bytes)
    requires a != [] && key in keys
    ensures var h := c.HashOf(key); Marked(MarkAll(c, a, keys), h, Delta(h), c.k)
    decreases |keys|
  {
    var front, last := keys[..|keys| - 1], keys[|keys| - 1];
    var h, g := c.HashOf(last), c.HashOf(key);
    var before := MarkAll(c, a, front);
    MarkAdds(before, h, Delta(h), c.k);
    if key != last {
      MarkAllMarks(c, a, front, key);
      MarkedStays(before, Mark(before, h, Delta(h), c.k), g, Delta(g), c.k);
    }
  }

  /** Every key a filter was built from matches it. */
  lemma NoFalseNegative(c: Config, keys: seq<Bytes>, key: Bytes)
    requires c.Ok() && key in keys
    ensures MayMatch(c, key, Create(c, keys))
  {
    var bits := MarkAll(c, seq(Size(c, |keys|), _ => 0), keys);
    MarkAllMarks(c, seq(Size(c, |keys|), _ => 0), keys, key);
    assert Create(c, keys)[..|bits|] == bits;
  }

  /** The bit is looked at by a probe of one of the keys. */
  ghost predicate HitByOne(c: Config, keys: seq<Bytes>, bits: nat, q: nat)
    requires bits > 0
  {
    exists key :: key in keys && HitBy(c, key, bits, q)
  }

  ghost predicate HitBy(c: Config, key: Bytes, bits: nat, q: nat)
    requires bits > 0
  {
    var h := c.HashOf(key);
    Hits(h, h / 131072 + h % 131072 * 32768, c.k, bits, q)
  }

  lemma {:induction false} MarkAllExactly(c: Config, a: Bytes, keys: seq<Bytes>, q: nat)
    requires a != [] && q < 8 * |a|
    ensures Has(MarkAll(c, a, keys), q) <==> Has(a, q) || HitByOne(c, keys, 8 * |a|, q)
    decreases |keys|
  {
    if keys != [] {
      var front, last := keys[..|keys| - 1], keys[|keys| - 1];
      var h := c.HashOf(last);
      MarkAllExactly(c, a, front, q);
      MarkExactly(MarkAll(c, a, front), h, Delta(h), c.k, q);
      assert keys == front + [last];
      hide Has;
      hide Hits;
      hide Mark;
      assert HitByOne(c, keys, 8 * |a|, q) <==> HitByOne(c, front, 8 * |a|, q) || HitBy(c, last, 8 * |a|, q);
    }
  }

  /** How many bytes a filter takes: ten bits a key, say, but at least 64, in whole bytes, and one
      byte for the number of probes. */
  lemma FilterShape(c: Config, keys: seq<Bytes>)
    requires c.Ok()
    ensures var bits := if |keys| * c.bitsPerKey < 64 then 64 else |keys| * c.bitsPerKey;
      |Create(c, keys)| == (bits + 7) / 8 + 1 && Create(c, keys)[|Create(c, keys)| - 1] == c.k
  {
  }

  /** A key matches a filter exactly if each bit that its probes look at is looked at by a probe of one
      of the filter's keys. */
  lemma MatchesExactly(c: Config, keys: seq<Bytes>, key: Bytes)
    requires c.Ok()
    ensures var bits := 8 * (|Create(c, keys)| - 1);
      MayMatch(c, key, Create(c, keys)) <==> forall q :: 0 <= q < bits && HitBy(c, key, bits, q) ==> HitByOne(c, keys, bits, q)
  {
    var zeros: Bytes, h := seq(Size(c, |keys|), _ => 0), c.HashOf(key);
    var a := MarkAll(c, zeros, keys);
    assert Create(c, keys)[..|a|] == a && Create(c, keys)[|a|] == c.k;
    MarkedExactly(a, h, Delta(h), c.k);
    forall q | 0 <= q < 8 * |a| ensures Has(a, q) <==> HitByOne(c, keys, 8 * |a|, q) {
      MarkAllExactly(c, zeros, keys, q);
      NoBits(q % 8);
    }
    hide Has;
    hide Hits;
    hide HitByOne;
  }

  /** The policy a filter block is built with. */
  function BloomPolicy(c: Config): Policy
    requires c.Ok()
  {
    Policy(keys => Create(c, keys), (key, filter) => MayMatch(c, key, filter))
  }

  lemma BloomIsLawful(c: Config)
    requires c.Ok()
    ensures BloomPolicy(c).Lawful()
  {
    var p := BloomPolicy(c);
    forall keys, key | key in keys ensures p.mayMatch(key, p.create(keys)) {
      NoFalseNegative(c, keys, key);
    }
  }

  /** CreateFilter, setting bits in place. */
  method CreateFilter(c: Config, keys: seq<Bytes>) returns (filter: Bytes)
    requires c.Ok()
    ensures filter == Create(c, keys)
  {
    var bits := new Byte[Size(c, |keys|)](_ => 0);
    ghost var empty := seq(Size(c, |keys|), _ => 0);
    assert bits[..] == empty;
    for i := 0 to |keys|
      invariant bits[..] == MarkAll(c, empty, keys[..i])
    {
      assert keys[..i + 1][..i] == keys[..i];
      var h := c.HashOf(keys[i]);
      AddKey(bits, h, Delta(h), c.k);
    }
    assert keys[..|keys|] == keys;
    filter := bits[..] + [c.k];
  }

  method AddKey(bits: array<Byte>, hash: nat, delta: nat, k: nat)
    requires bits.Length > 0
    modifies bits
    ensures bits[..] == Mark(old(bits[..]), hash, delta, k)
  {
    var h: nat := hash;
    for j := 0 to k
      invariant Mark(bits[..], h, delta, k - j) == Mark(old(bits[..]), hash, delta, k)
    {
      var p := h % (8 * bits.Length);
      ghost var before := bits[..];
      bits[p / 8] := OrBit(bits[p / 8], p % 8);
      assert bits[..] == Set(before, p);
      h := (h + delta) % WORD;
    }
  }

  /** KeyMayMatch, probing until a bit is missing. */
  method KeyMayMatch(c: Config, key: Bytes, filter: Bytes) returns (r: bool)
    ensures r == MayMatch(c, key, filter)
    ensures |filter| < 2 ==> !r
    ensures |filter| >= 2 && filter[|filter| - 1] > 30 ==> r
  {
    var n := |filter|;
    if n < 2 { return false; }
    var k := filter[n - 1];
    if k > 30 { return true; }
    var start := c.HashOf(key);
    var h: nat, bits := start, filter[..n - 1];
    for j := 0 to k
      invariant Marked(bits, start, Delta(start), k) == Marked(bits, h, Delta(start), k - j)
    {
      var p := h % (8 * |bits|);
      if !Has(filter[..n - 1], p) { return false; }
      h := (h + Delta(start)) % WORD;
    }
    return true;
  }
}
