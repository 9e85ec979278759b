/** The filter block of a table (table/filter_block.cc): one filter for every 2 KiB of file offset,
    an array of offsets, and a reader that must never miss a key. */
module FilterBlock {
  import opened Coding

  const BASE_LG: Byte := 11
  const BASE: nat := 2048

  /** A filter policy: builds a filter for a list of keys and tests a key against one. */
  datatype Policy = Policy(create: seq<Bytes> -> Bytes, mayMatch: (Bytes, Bytes) -> bool) {
    /** No false negatives. */
    ghost predicate Lawful() {
      forall keys, key :: key in keys ==> mayMatch(key, create(keys))
    }
  }

  /** n >> lg */
  function Shift(n: nat, lg: nat): nat {
    if lg == 0 then n else Shift(n / 2, lg - 1)
  }

  // ---------- the reader ----------

  /** FilterBlockReader::KeyMayMatch. Anything malformed counts as a match. */
  function KeyMayMatch(policy: Policy, contents: Bytes, blockOffset: nat, key: Bytes): bool {
    var n := |contents|;
    if n < 5 then true
    else
      var words := Decode32(contents[n - 5..n - 1]);
      if words > n - 5 then true
      else
        var num := (n - 5 - words) / 4;
        var index := Shift(blockOffset, contents[n - 1]);
        index < num ==> Judge(policy, contents, words, words + index * 4, key)
  }

  /** Tests the key against the filter whose bounds are stored at `at`. */
  function Judge(policy: Policy, contents: Bytes, words: nat, at: nat, key: Bytes): bool
    requires at + 8 <= |contents| && words <= |contents|
  {
    var start, limit := Decode32(contents[at..at + 4]), Decode32(contents[at + 4..at + 8]);
    if start <= limit <= words then policy.mayMatch(key, contents[start..limit])
    else start != limit
  }

  // ---------- the layout ----------

  /** A filter index without keys takes no space. */
  function FilterOf(policy: Policy, keys: seq<Bytes>): Bytes {
    if keys == [] then [] else policy.create(keys)
  }

  function Filters(policy: Policy, lists: seq<seq<Bytes>>): (r: seq<Bytes>) {
    seq(|lists|, i requires 0 <= i < |lists| => FilterOf(policy, lists[i]))
  }

  function Finished(result: Bytes, offsets: seq<nat>): Bytes {
    result + Words(offsets) + Fixed32(|result|) + [BASE_LG]
  }

  /** The words behind the filters: the offsets, and then the end of the last filter. */
  lemma FinishedWords(result: Bytes, offsets: seq<nat>, i: nat)
    requires i <= |offsets|
    ensures var at := |result| + 4 * i;
            Finished(result, offsets)[at..at + 4] == Fixed32(if i < |offsets| then offsets[i] else |result|)
  {
    var words, at := Words(offsets), |result| + 4 * i;
    if i < |offsets| {
      WordAt(offsets, i);
      assert Finished(result, offsets)[at..at + 4] == words[4 * i..4 * i + 4];
    }
  }

  lemma BoundRead(result: Bytes, offsets: seq<nat>, i: nat, bound: nat)
    requires i <= |offsets| && bound == (if i < |offsets| then offsets[i] else |result|) && bound < WORD
    ensures Decode32(Finished(result, offsets)[|result| + 4 * i..|result| + 4 * i + 4]) == bound
  {
    FinishedWords(result, offsets, i);
    Fixed32RoundTrip(bound);
  }

  lemma ShiftByBase(n: nat)
    ensures Shift(n, BASE_LG) == n / BASE
  {
    var n1 := n / 2;
    var n2 := n1 / 2;
    var n3 := n2 / 2;
    var n4 := n3 / 2;
    var n5 := n4 / 2;
    var n6 := n5 / 2;
    var n7 := n6 / 2;
    var n8 := n7 / 2;
    var n9 := n8 / 2;
    var n10 := n9 / 2;
    var n11 := n10 / 2;
    assert Shift(n, 11) == Shift(n1, 10) == Shift(n2, 9) == Shift(n3, 8);
    assert Shift(n3, 8) == Shift(n4, 7) == Shift(n5, 6) == Shift(n6, 5);
    assert Shift(n6, 5) == Shift(n7, 4) == Shift(n8, 3) == Shift(n9, 2);
    assert Shift(n9, 2) == Shift(n10, 1) == Shift(n11, 0);
  }

  lemma FinishedTail(result: Bytes, offsets: seq<nat>)
    requires |result| < WORD
    ensures var contents := Finished(result, offsets);
            var n := |contents|;
            && n == |result| + 4 * |offsets| + 5 && contents[n - 1] == BASE_LG
            && Decode32(contents[n - 5..n - 1]) == |result|
  {
    BoundRead(result, offsets, |offsets|, |result|);
  }

  /** Reading a finished block comes down to the filter that the offset falls to. */
  lemma Finds(policy: Policy, result: Bytes, offsets: seq<nat>, blockOffset: nat, key: Bytes)
    requires |result| < WORD && blockOffset / BASE < |offsets|
    ensures KeyMayMatch(policy, Finished(result, offsets), blockOffset, key)
         == Judge(policy, Finished(result, offsets), |result|, |result| + blockOffset / BASE * 4, key)
  {
    FinishedTail(result, offsets);
    ShiftByBase(blockOffset);
  }

  /** A finished block matches every key of every list at the offsets that fall to it. */
  lemma NoFalseNegative(policy: Policy, lists: seq<seq<Bytes>>, offsets: seq<nat>, blockOffset: nat, key: Bytes)
    requires policy.Lawful() && Starts(Filters(policy, lists), offsets)
    requires |Concat(Filters(policy, lists))| < WORD
    requires blockOffset / BASE < |lists| && key in lists[blockOffset / BASE]
    ensures KeyMayMatch(policy, Finished(Concat(Filters(policy, lists)), offsets), blockOffset, key)
  {
    AsksOneFilter(policy, lists, offsets, blockOffset, key);
  }

  /** A finished block asks the filter that the offset falls to, and that one only; where there is none,
      every key matches. */
  lemma AsksOneFilter(policy: Policy, lists: seq<seq<Bytes>>, offsets: seq<nat>, blockOffset: nat, key: Bytes)
    requires Starts(Filters(policy, lists), offsets) && |Concat(Filters(policy, lists))| < WORD
    ensures KeyMayMatch(policy, Finished(Concat(Filters(policy, lists)), offsets), blockOffset, key)
      == if blockOffset / 2048 < |lists| then policy.mayMatch(key, FilterOf(policy, lists[blockOffset / 2048])) else true
  {
    var result := Concat(Filters(policy, lists));
    FinishedTail(result, offsets);
    ShiftByBase(blockOffset);
    if blockOffset / BASE < |lists| {
      Finds(policy, result, offsets, blockOffset, key);
      JudgesRight(policy, lists, offsets, blockOffset / BASE, key);
    }
  }

  /** The reader's answers are those of the filters for the lists, 2 KiB of file offset each. */
  ghost predicate Asks(policy: Policy, contents: Bytes, lists: seq<seq<Bytes>>) {
    forall at: nat, key: Bytes {:trigger KeyMayMatch(policy, contents, at, key)} ::
      KeyMayMatch(policy, contents, at, key)
      == if at / 2048 < |lists| then policy.mayMatch(key, FilterOf(policy, lists[at / 2048])) else true
  }

  lemma AsksAll(policy: Policy, lists: seq<seq<Bytes>>, offsets: seq<nat>)
    requires Starts(Filters(policy, lists), offsets) && |Concat(Filters(policy, lists))| < WORD
    ensures Asks(policy, Finished(Concat(Filters(policy, lists)), offsets), lists)
  {
    forall at: nat, key: Bytes
      ensures KeyMayMatch(policy, Finished(Concat(Filters(policy, lists)), offsets), at, key)
           == if at / 2048 < |lists| then policy.mayMatch(key, FilterOf(policy, lists[at / 2048])) else true
    {
      AsksOneFilter(policy, lists, offsets, at, key);
    }
  }

  lemma JudgesRight(policy: Policy, lists: seq<seq<Bytes>>, offsets: seq<nat>, index: nat, key: Bytes)
    requires Starts(Filters(policy, lists), offsets)
    requires |Concat(Filters(policy, lists))| < WORD && index < |lists|
    ensures var result := Concat(Filters(policy, lists));
            Judge(policy, Finished(result, offsets), |result|, |result| + index * 4, key)
            == policy.mayMatch(key, FilterOf(policy, lists[index]))
  {
    var parts := Filters(policy, lists);
    var result := Concat(parts);
    var start, limit := |Concat(parts[..index])|, |Concat(parts[..index + 1])|;
    PartAt(parts, index);
    assert parts[..|parts|] == parts;
    BoundRead(result, offsets, index, start);
    BoundRead(result, offsets, index + 1, limit);
    FilterRead(result, offsets, start, limit);
  }

  lemma FilterRead(result: Bytes, offsets: seq<nat>, start: nat, limit: nat)
    requires start <= limit <= |result|
    ensures Finished(result, offsets)[start..limit] == result[start..limit]
  {
  }

  // ---------- the builder ----------

  /** A key with the offset of the data block it belongs to. */
  datatype Filing = Filing(blockOffset: nat, key: Bytes)

  /** Every key is in the list its offset falls to, or still pending for it, and no other key is. */
  ghost predicate Filed(added: set<Filing>, lists: seq<seq<Bytes>>, pending: seq<Bytes>) {
    && (forall f :: f in added ==> InPlace(f, lists, pending))
    && (forall i, key {:trigger key in lists[i]} :: 0 <= i < |lists| && key in lists[i] ==> FiledUnder(added, i, key))
    && (forall key {:trigger key in pending} :: key in pending ==> FiledUnder(added, |lists|, key))
  }

  ghost predicate FiledUnder(added: set<Filing>, index: nat, key: Bytes) {
    exists f :: f in added && f.key == key && f.blockOffset / BASE == index
  }

  ghost predicate InPlace(f: Filing, lists: seq<seq<Bytes>>, pending: seq<Bytes>) {
    var index := f.blockOffset / BASE;
    index <= |lists| && f.key in if index < |lists| then lists[index] else pending
  }

  lemma FiledAdds(added: set<Filing>, lists: seq<seq<Bytes>>, pending: seq<Bytes>, f: Filing)
    requires Filed(added, lists, pending) && f.blockOffset / BASE == |lists|
    ensures Filed(added + {f}, lists, pending + [f.key])
  {
    var more := added + {f};
    forall i, key | 0 <= i < |lists| && key in lists[i] ensures FiledUnder(more, i, key) {
      assert FiledUnder(added, i, key);
      var g :| g in added && g.key == key && g.blockOffset / BASE == i;
      assert g in more;
    }
    forall key | key in pending + [f.key] ensures FiledUnder(more, |lists|, key) {
      if key in pending {
        assert FiledUnder(added, |lists|, key);
        var g :| g in added && g.key == key && g.blockOffset / BASE == |lists|;
        assert g in more;
      } else {
        assert f in more;
      }
    }
    forall g | g in more ensures InPlace(g, lists, pending + [f.key]) {
      if g != f { assert InPlace(g, lists, pending); }
    }
  }

  class FilterBlockBuilder {
    const policy: Policy
    var keys: Bytes              // the pending keys, one after the other
    var start: seq<nat>          // where each of them begins
    var result: Bytes            // the filters made so far
    var offsets: seq<nat>        // where each of those begins
    ghost var pending: seq<Bytes>
    ghost var lists: seq<seq<Bytes>>
    ghost var block: nat         // offset of the data block whose keys are being added
    ghost var added: set<Filing>

    ghost predicate Shape()
      reads this
    {
      && Starts(Filters(policy, lists), offsets) && result == Concat(Filters(policy, lists))
      && Starts(pending, start) && keys == Concat(pending)
    }

    ghost predicate Valid()
      reads this
    {
      Shape() && block / BASE == |lists| && Filed(added, lists, pending)
    }

    constructor (policy: Policy)
      ensures Valid() && this.policy == policy && block == 0 && added == {}
    {
      this.policy := policy;
      keys, start, result, offsets := [], [], [], [];
      pending, lists, block, added := [], [], 0, {};
    }

    method AddKey(key: Bytes)
      requires Valid()
      modifies this
      ensures Valid() && block == old(block) && added == old(added) + {Filing(block, key)}
    {
      StartsSnoc(pending, start, key);
      ConcatSnoc(pending, key);
      start := start + [|keys|];
      keys := keys + key;
      FiledAdds(added, lists, pending, Filing(block, key));
      pending := pending + [key];
      added := added + {Filing(block, key)};
    }

    /** Announces that the data blocks from here on start at `blockOffset` or later. */
    method StartBlock(blockOffset: nat)
      requires Valid() && block <= blockOffset
      modifies this
      ensures Valid() && block == blockOffset && added == old(added)
    {
      var filterIndex := blockOffset / BASE;
      while filterIndex > |offsets|
        invariant Shape() && |lists| <= filterIndex && Filed(added, lists, pending) && added == old(added)
        decreases filterIndex - |offsets|
      {
        GenerateFilter();
      }
      block := blockOffset;
    }

    /** Turns the pending keys into the next filter. */
    method GenerateFilter()
      requires Shape() && Filed(added, lists, pending)
      modifies this
      ensures Shape() && Filed(added, lists, pending)
      ensures pending == [] && lists == old(lists) + [old(pending)] && added == old(added) && block == old(block)
    {
      ghost var filters := Filters(policy, lists);
      assert Filters(policy, lists + [pending]) == filters + [FilterOf(policy, pending)];
      StartsSnoc(filters, offsets, FilterOf(policy, pending));
      ConcatSnoc(filters, FilterOf(policy, pending));
      offsets := offsets + [|result|];
      if start != [] {
        var list := SplitKeys();
        result := result + policy.create(list);
      }
      keys, start := [], [];
      lists, pending := lists + [pending], [];
    }

    /** Recovers the key list from the flattened keys. */
    method SplitKeys() returns (list: seq<Bytes>)
      requires Starts(pending, start) && keys == Concat(pending)
      ensures list == pending
    {
      var bounds := start + [|keys|];
      assert pending[..|pending|] == pending;
      list := [];
      for i := 0 to |start|
        invariant list == pending[..i]
      {
        PartAt(pending, i);
        list := list + [keys[bounds[i]..bounds[i + 1]]];
      }
    }

    /** The finished block matches every key that was added, at the offset of its data block. */
    method Finish() returns (contents: Bytes)
      requires Valid()
      modifies this
      ensures Shape() && contents == Finished(result, offsets)
      ensures lists == if old(pending) == [] then old(lists) else old(lists) + [old(pending)]
      ensures policy.Lawful() && |contents| < WORD ==>
                forall f :: f in old(added) ==> KeyMayMatch(policy, contents, f.blockOffset, f.key)
      ensures Filed(old(added), lists, [])
      ensures |contents| < WORD ==> Asks(policy, contents, lists)
    {
      if start != [] {
        GenerateFilter();
      }
      var words := EncodeOffsets();
      contents := result + words + Fixed32(|result|) + [BASE_LG];
      if |contents| < WORD {
        AsksAll(policy, lists, offsets);
      }
      if policy.Lawful() && |contents| < WORD {
        forall f | f in old(added) ensures KeyMayMatch(policy, contents, f.blockOffset, f.key) {
          assert InPlace(f, lists, pending);
          NoFalseNegative(policy, lists, offsets, f.blockOffset, f.key);
        }
      }
    }

    method EncodeOffsets() returns (words: Bytes)
      ensures words == Words(offsets)
    {
      words := [];
      for i := 0 to |offsets|
        invariant words == Words(offsets[..i])
      {
        assert offsets[..i + 1][..i] == offsets[..i];
        words := words + Fixed32(offsets[i]);
      }
      assert offsets[..|offsets|] == offsets;
    }
  }
}
