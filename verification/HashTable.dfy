/** The cache's hash table (util/cache.cc, HandleTable): chains per bucket, doubled as it fills. */
module HashTable {
  import opened Coding
  import opened DbFormat

  /** What a chain holds of a cache entry: its key, the key's hash, and its handle. */
  datatype Slot = Slot(key: Bytes, hash: nat, id: nat)

  type Chain = seq<Slot>

  /** hash & (length - 1), the remainder for a length that is a power of two. */
  function Bucket(hash: nat, length: nat): (b: nat)
    requires length > 0
    ensures b < length
  {
    if hash < length then hash else Bucket(hash - length, length)
  }

  lemma {:induction false} BucketIsRemainder(hash: nat, length: nat)
    requires length > 0
    ensures Bucket(hash, length) == hash % length
  {
    if hash >= length {
      BucketIsRemainder(hash - length, length);
      var q, r := (hash - length) / length, (hash - length) % length;
      assert hash == (q + 1) * length + r;
      Remainder(hash, q + 1, length, r);
    }
  }

  lemma Remainder(n: nat, q: nat, length: nat, r: nat)
    requires length > 0 && n == q * length + r && r < length
    ensures n % length == r
  {
    var d := n / length - q;
    assert d * length == r - n % length;
    assert d >= 1 ==> d * length >= length;
    assert d <= -1 ==> d * length + length <= 0;
  }

  predicate PowerOfTwo(n: nat) {
    n == 1 || (n > 0 && n % 2 == 0 && PowerOfTwo(n / 2))
  }

  ghost predicate SlotOk(n: nat, m: map<Bytes, nat>, hash: Bytes -> nat, b: nat, s: Slot) {
    n > 0 && s.hash == hash(s.key) && b == Bucket(s.hash, n) && s.key in m && m[s.key] == s.id
  }

  ghost predicate Home(list: seq<Chain>, m: map<Bytes, nat>, hash: Bytes -> nat, k: Bytes) {
    list != [] && k in m && Slot(k, hash(k), m[k]) in list[Bucket(hash(k), |list|)]
  }

  /** The chains hold exactly the pairs of `m`, each in the bucket of its hash and once. */
  ghost predicate Represents(list: seq<Chain>, m: map<Bytes, nat>, hash: Bytes -> nat) {
    && list != []
    && (forall b, s {:trigger s in list[b]} :: 0 <= b < |list| && s in list[b] ==> SlotOk(|list|, m, hash, b, s))
    && (forall k {:trigger Home(list, m, hash, k)} :: k in m ==> Home(list, m, hash, k))
    && (forall b {:trigger NoRepeat(list[b])} :: 0 <= b < |list| ==> NoRepeat(list[b]))
  }

  ghost predicate NoRepeat(chain: Chain) {
    forall i, j :: 0 <= i < j < |chain| ==> chain[i].key != chain[j].key
  }

  /** FindPointer: the position of the key in its chain, or the chain's end. */
  method FindPointer(chain: Chain, key: Bytes, hash: nat) returns (i: nat)
    ensures i <= |chain|
    ensures i < |chain| ==> chain[i].key == key && chain[i].hash == hash
    ensures forall j :: 0 <= j < i ==> chain[j].key != key || chain[j].hash != hash
  {
    i := 0;
    while i < |chain| && (chain[i].hash != hash || chain[i].key != key)
      invariant i <= |chain| && forall j :: 0 <= j < i ==> chain[j].key != key || chain[j].hash != hash
    {
      i := i + 1;
    }
  }

  /** The key is at position `i` of its chain exactly when it is in the map. */
  lemma PointerIs(list: seq<Chain>, m: map<Bytes, nat>, hash: Bytes -> nat, key: Bytes, i: nat)
    requires Represents(list, m, hash)
    requires var chain := list[Bucket(hash(key), |list|)];
      && i <= |chain| && (i < |chain| ==> chain[i].key == key && chain[i].hash == hash(key))
      && forall j :: 0 <= j < i ==> chain[j].key != key || chain[j].hash != hash(key)
    ensures var chain := list[Bucket(hash(key), |list|)];
      (key in m <==> i < |chain|) && (key in m ==> m[key] == chain[i].id)
  {
    var chain := list[Bucket(hash(key), |list|)];
    if key in m {
      assert Home(list, m, hash, key);
    }
    if i < |chain| { assert chain[i] in chain; }
  }

  /** Changing one chain so that only what concerns `key` changes. */
  lemma ChangeChain(list: seq<Chain>, m: map<Bytes, nat>, hash: Bytes -> nat, key: Bytes, chain: Chain, m': map<Bytes, nat>)
    requires Represents(list, m, hash) && NoRepeat(chain)
    requires forall k :: k != key ==> (k in m <==> k in m') && (k in m ==> m'[k] == m[k])
    requires forall t: Slot :: t.key != key ==> (t in chain <==> t in list[Bucket(hash(key), |list|)])
    requires forall t: Slot :: t in chain && t.key == key ==> key in m' && t == Slot(key, hash(key), m'[key])
    requires key in m' ==> Slot(key, hash(key), m'[key]) in chain
    ensures Represents(list[Bucket(hash(key), |list|) := chain], m', hash)
  {
    var b := Bucket(hash(key), |list|);
    var list' := list[b := chain];
    forall c, t: Slot | 0 <= c < |list'| && t in list'[c] ensures SlotOk(|list'|, m', hash, c, t) {
      assert c != b || t.key != key ==> t in list[c];
    }
    forall k | k in m' ensures Home(list', m', hash, k) {
      if k != key { assert Home(list, m, hash, k); }
    }
    forall c | 0 <= c < |list'| ensures NoRepeat(list'[c]) {
      if c != b { assert NoRepeat(list[c]); }
    }
  }

  /** The chain with the slot put at position `i`, in place of what is there. */
  function PutAt(chain: Chain, i: nat, s: Slot): Chain
    requires i <= |chain|
  {
    chain[..i] + [s] + if i < |chain| then chain[i + 1..] else []
  }

  function CutAt(chain: Chain, i: nat): Chain
    requires i < |chain|
  {
    chain[..i] + chain[i + 1..]
  }

  lemma CutFacts(chain: Chain, i: nat)
    requires NoRepeat(chain) && i < |chain|
    ensures NoRepeat(CutAt(chain, i)) && forall t :: t in CutAt(chain, i) <==> t in chain && t.key != chain[i].key
  {
    var r := CutAt(chain, i);
    forall t | t in chain && t.key != chain[i].key ensures t in r {
      var p :| 0 <= p < |chain| && chain[p] == t;
      assert r[if p < i then p else p - 1] == t;
    }
  }

  lemma PutFacts(chain: Chain, i: nat, s: Slot)
    requires NoRepeat(chain) && i <= |chain|
    requires if i < |chain| then chain[i].key == s.key else forall t :: t in chain ==> t.key != s.key
    ensures NoRepeat(PutAt(chain, i, s)) && forall t :: t in PutAt(chain, i, s) <==> t == s || (t in chain && t.key != s.key)
  {
    var r := PutAt(chain, i, s);
    assert r[i] == s;
    forall p | 0 <= p < |chain| && p != i ensures chain[p].key != s.key && r[p] == chain[p] {
      if i == |chain| { assert chain[p] in chain; }
    }
    forall t | t in r && t != s ensures t in chain && t.key != s.key {
      var p :| 0 <= p < |r| && r[p] == t;
      assert chain[p] == t;
    }
    forall t | t in chain && t.key != s.key ensures t in r {
      var p :| 0 <= p < |chain| && chain[p] == t;
      assert r[p] == t;
    }
  }

  lemma InsertRepresents(list: seq<Chain>, m: map<Bytes, nat>, hash: Bytes -> nat, s: Slot, i: nat)
    requires Represents(list, m, hash) && s.hash == hash(s.key)
    requires var chain := list[Bucket(s.hash, |list|)];
      && i <= |chain| && (i < |chain| ==> chain[i].key == s.key) && (s.key in m <==> i < |chain|)
    ensures Represents(list[Bucket(s.hash, |list|) := PutAt(list[Bucket(s.hash, |list|)], i, s)], m[s.key := s.id], hash)
  {
    var chain := list[Bucket(s.hash, |list|)];
    assert NoRepeat(chain);
    PutFacts(chain, i, s);
    ChangeChain(list, m, hash, s.key, PutAt(chain, i, s), m[s.key := s.id]);
  }

  lemma RemoveRepresents(list: seq<Chain>, m: map<Bytes, nat>, hash: Bytes -> nat, key: Bytes, i: nat)
    requires Represents(list, m, hash) && key in m
    requires var chain := list[Bucket(hash(key), |list|)]; i < |chain| && chain[i].key == key
    ensures Represents(list[Bucket(hash(key), |list|) := CutAt(list[Bucket(hash(key), |list|)], i)], m - {key}, hash)
  {
    var chain := list[Bucket(hash(key), |list|)];
    assert NoRepeat(chain);
    CutFacts(chain, i);
    ChangeChain(list, m, hash, key, CutAt(chain, i), m - {key});
  }

  class HandleTable {
    const hash: Bytes -> nat
    var length: nat
    var elems: nat
    var list: seq<Chain>
    ghost var m: map<Bytes, nat>

    ghost predicate Valid()
      reads this
    {
      length == |list| && PowerOfTwo(length) && elems == |m| && Represents(list, m, hash)
    }

    constructor (hash: Bytes -> nat)
      ensures Valid() && this.hash == hash && m == map[]
    {
      this.hash := hash;
      length, elems, list := 4, 0, seq(4, _ => []);
      m := map[];
      assert PowerOfTwo(2);
    }

    method Lookup(key: Bytes) returns (r: Option<nat>)
      requires Valid()
      ensures r == if key in m then Some(m[key]) else None
    {
      var chain := list[Bucket(hash(key), length)];
      var i := FindPointer(chain, key, hash(key));
      PointerIs(list, m, hash, key, i);
      r := if i < |chain| then Some(chain[i].id) else None;
    }

    method Insert(key: Bytes, id: nat) returns (previous: Option<nat>)
      requires Valid()
      modifies this
      ensures Valid() && m == old(m)[key := id] && (old(elems <= length) ==> elems <= length)
      ensures previous == if key in old(m) then Some(old(m)[key]) else None
    {
      var h := hash(key);
      var chain := list[Bucket(h, length)];
      var i := FindPointer(chain, key, h);
      PointerIs(list, m, hash, key, i);
      InsertRepresents(list, m, hash, Slot(key, h, id), i);
      previous := if i < |chain| then Some(chain[i].id) else None;
      list := list[Bucket(h, length) := PutAt(chain, i, Slot(key, h, id))];
      m := m[key := id];
      if previous.None? {
        elems := elems + 1;
        if elems > length {
          Resize();
        }
      }
    }

    method Remove(key: Bytes) returns (r: Option<nat>)
      requires Valid()
      modifies this
      ensures Valid() && m == old(m) - {key} && length == old(length) && elems <= old(elems)
      ensures r == if key in old(m) then Some(old(m)[key]) else None
    {
      var b := Bucket(hash(key), length);
      var chain := list[b];
      var i := FindPointer(chain, key, hash(key));
      PointerIs(list, m, hash, key, i);
      r := None;
      if i < |chain| {
        RemoveRepresents(list, m, hash, key, i);
        r := Some(chain[i].id);
        list := list[b := CutAt(chain, i)];
        elems := elems - 1;
        m := m - {key};
      }
    }

    /** Resize moves every slot to a new array of buckets; the map stays the same. */
    method Resize()
      requires Valid()
      modifies this
      ensures Valid() && m == old(m) && elems == old(elems) <= length
    {
      var newLength := 4;
      assert PowerOfTwo(2);
      while newLength < elems
        invariant newLength > 0 && PowerOfTwo(newLength)
        decreases elems - newLength
      {
        newLength := newLength * 2;
      }
      var newList: seq<Chain> := seq(newLength, _ => []);
      ghost var moved: map<Bytes, nat> := map[];
      for i := 0 to length
        invariant Valid() && m == old(m) && elems == old(elems) && length == old(length)
        invariant |newList| == newLength && Represents(newList, moved, hash) && Moved(list, m, moved, i)
      {
        newList, moved := Rehash(newList, moved, i);
      }
      MovedAll(list, m, moved, hash);
      list, length := newList, newLength;
    }

    /** Moves one chain. */
    method Rehash(target: seq<Chain>, ghost before: map<Bytes, nat>, i: nat) returns (newList: seq<Chain>, ghost moved: map<Bytes, nat>)
      requires Valid() && i < length && Represents(target, before, hash) && Moved(list, m, before, i)
      ensures |newList| == |target| && Represents(newList, moved, hash) && Moved(list, m, moved, i + 1)
    {
      newList, moved := target, before;
      var chain := list[i];
      assert NoRepeat(chain);
      for j := 0 to |chain|
        invariant |newList| == |target| && Represents(newList, moved, hash)
        invariant forall k :: k in moved <==> k in before || HasKey(chain[..j], k)
        invariant forall k :: k in moved ==> k in m && moved[k] == m[k]
      {
        var s := chain[j];
        assert s in list[i];
        NotMoved(list, m, before, hash, i, j);
        PrependRepresents(newList, moved, hash, s);
        assert chain[..j + 1] == chain[..j] + [s];
        assert forall k :: HasKey(chain[..j + 1], k) <==> HasKey(chain[..j], k) || k == s.key;
        newList := newList[Bucket(s.hash, |newList|) := [s] + newList[Bucket(s.hash, |newList|)]];
        moved := moved[s.key := s.id];
      }
      assert chain[..|chain|] == chain;
    }
  }

  ghost predicate HasKey(chain: Chain, k: Bytes) {
    exists s :: s in chain && s.key == k
  }

  /** The pairs of the first `n` chains have moved. */
  ghost predicate Moved(list: seq<Chain>, m: map<Bytes, nat>, moved: map<Bytes, nat>, n: nat) {
    && n <= |list|
    && (forall k :: k in moved <==> exists b :: 0 <= b < n && HasKey(list[b], k))
    && (forall k :: k in moved ==> k in m && moved[k] == m[k])
  }

  /** A key is in one place only, so the slot met next has not moved yet. */
  lemma NotMoved(list: seq<Chain>, m: map<Bytes, nat>, before: map<Bytes, nat>, hash: Bytes -> nat, i: nat, j: nat)
    requires Represents(list, m, hash) && Moved(list, m, before, i) && i < |list| && j < |list[i]|
    ensures list[i][j].key !in before && !HasKey(list[i][..j], list[i][j].key)
    ensures list[i][j].key in m && m[list[i][j].key] == list[i][j].id && list[i][j].hash == hash(list[i][j].key)
  {
    var s := list[i][j];
    assert s in list[i] && NoRepeat(list[i]);
    forall b | 0 <= b < i ensures !HasKey(list[b], s.key) {
      forall t | t in list[b] ensures t.key != s.key { }
    }
  }

  lemma PrependRepresents(list: seq<Chain>, m: map<Bytes, nat>, hash: Bytes -> nat, s: Slot)
    requires Represents(list, m, hash) && s.hash == hash(s.key) && s.key !in m
    ensures Represents(list[Bucket(s.hash, |list|) := [s] + list[Bucket(s.hash, |list|)]], m[s.key := s.id], hash)
  {
    var chain := list[Bucket(s.hash, |list|)];
    assert NoRepeat(chain);
    assert forall t :: t in chain ==> t.key in m;
    ChangeChain(list, m, hash, s.key, [s] + chain, m[s.key := s.id]);
  }

  lemma MovedAll(list: seq<Chain>, m: map<Bytes, nat>, moved: map<Bytes, nat>, hash: Bytes -> nat)
    requires Represents(list, m, hash) && Moved(list, m, moved, |list|)
    ensures moved == m
  {
    forall k | k in m ensures k in moved {
      assert Home(list, m, hash, k) && HasKey(list[Bucket(hash(k), |list|)], k);
    }
  }
}
