/** The skip list behind a memtable (db/skiplist.h). Nodes live in an arena and are named by their
    index in it; 0 names the head, and as a link it means null. The lanes are the lists that the
    links of each level spell out, which no code stores. */
module Skiplist {
  import opened DbFormat

  const MAX_HEIGHT: nat := 12

  datatype Node = Node(entry: Entry, next: seq<nat>)

  datatype List = List(nodes: seq<Node>, maxHeight: nat)

  type Lane = seq<nat>

  function NextOf(s: List, n: nat, i: nat): nat {
    if n < |s.nodes| && i < |s.nodes[n].next| then s.nodes[n].next[i] else 0
  }

  /** Node::SetNext. */
  function SetNext(s: List, n: nat, i: nat, x: nat): List
    requires n < |s.nodes| && i < |s.nodes[n].next|
  {
    s.(nodes := s.nodes[n := s.nodes[n].(next := s.nodes[n].next[i := x])])
  }

  /** The node before position `p` of a lane, and the node at it. */
  function Stop(lane: Lane, p: nat): nat
    requires p <= |lane|
  {
    if p == 0 then 0 else lane[p - 1]
  }

  function At(lane: Lane, p: nat): nat {
    if p < |lane| then lane[p] else 0
  }

  ghost predicate Member(s: List, n: nat, i: nat) {
    0 < n < |s.nodes| && i < |s.nodes[n].next|
  }

  ghost predicate Linked(s: List, lane: Lane, i: nat, p: nat)
    requires p <= |lane|
  {
    NextOf(s, Stop(lane, p), i) == At(lane, p)
  }

  /** The links of level `i` spell out the lane, from the head to null, in key order. */
  ghost predicate LaneOk(s: List, lane: Lane, i: nat) {
    && (forall p :: 0 <= p < |lane| ==> Member(s, lane[p], i))
    && (forall p {:trigger Linked(s, lane, i, p)} :: 0 <= p <= |lane| ==> Linked(s, lane, i, p))
    && (forall p, q :: 0 <= p < q < |lane| ==> Less(s.nodes[lane[p]].entry.ik, s.nodes[lane[q]].entry.ik))
  }

  /** Every level is a sublist of the one below. */
  ghost predicate Nested(lanes: seq<Lane>) {
    forall i, n {:trigger n in lanes[i]} :: 0 < i < |lanes| && n in lanes[i] ==> n in lanes[i - 1]
  }

  ghost predicate Frame(s: List) {
    s.nodes != [] && |s.nodes[0].next| == MAX_HEIGHT && 1 <= s.maxHeight <= MAX_HEIGHT
  }

  ghost predicate Ok(s: List, lanes: seq<Lane>) {
    && Frame(s) && |lanes| == MAX_HEIGHT && Nested(lanes)
    && (forall i {:trigger LaneOk(s, lanes[i], i)} :: 0 <= i < |lanes| ==> LaneOk(s, lanes[i], i))
    && (forall i :: s.maxHeight <= i < |lanes| ==> lanes[i] == [])
  }

  /** The entries along a lane. */
  ghost function Entries(s: List, lane: Lane): seq<Entry>
    requires forall p :: 0 <= p < |lane| ==> lane[p] < |s.nodes|
  {
    seq(|lane|, p requires 0 <= p < |lane| => s.nodes[lane[p]].entry)
  }

  ghost function Contents(s: List, lanes: seq<Lane>): seq<Entry>
    requires Ok(s, lanes)
  {
    assert LaneOk(s, lanes[0], 0);
    assert forall p :: 0 <= p < |lanes[0]| ==> Member(s, lanes[0][p], 0);
    Entries(s, lanes[0])
  }

  lemma ContentsSorted(s: List, lanes: seq<Lane>)
    requires Ok(s, lanes)
    ensures Sorted(Contents(s, lanes))
  {
    assert LaneOk(s, lanes[0], 0);
  }

  // ---------- readers ----------

  /** A search for `target` has come to node `x` on a level: the head, or a node with a smaller key.
      `p` is how many nodes of the lane lie behind it. */
  ghost predicate Reached(s: List, lanes: seq<Lane>, target: InternalKey, level: nat, x: nat, p: nat) {
    && level < |lanes| && p <= |lanes[level]| && x == Stop(lanes[level], p)
    && forall q :: 0 <= q < p ==> lanes[level][q] < |s.nodes| && Less(s.nodes[lanes[level][q]].entry.ik, target)
  }

  predicate IsAfter(s: List, target: InternalKey, n: nat) {
    0 < n < |s.nodes| && Less(s.nodes[n].entry.ik, target)
  }

  /** What a reader loads is the next node of the lane. */
  lemma LoadsNext(s: List, lanes: seq<Lane>, target: InternalKey, level: nat, x: nat, p: nat)
    requires Ok(s, lanes) && Reached(s, lanes, target, level, x, p)
    ensures NextOf(s, x, level) == At(lanes[level], p)
    ensures p < |lanes[level]| ==> 0 < lanes[level][p] < |s.nodes|
  {
    assert LaneOk(s, lanes[level], level) && Linked(s, lanes[level], level, p);
    assert p < |lanes[level]| ==> Member(s, lanes[level][p], level);
  }

  /** Going on along the lane. */
  lemma StepsAlong(s: List, lanes: seq<Lane>, target: InternalKey, level: nat, x: nat, p: nat)
    requires Ok(s, lanes) && Reached(s, lanes, target, level, x, p) && IsAfter(s, target, NextOf(s, x, level))
    ensures p < |lanes[level]| && Reached(s, lanes, target, level, NextOf(s, x, level), p + 1)
  {
    LoadsNext(s, lanes, target, level, x, p);
  }

  /** Going down a level. */
  lemma StepsDown(s: List, lanes: seq<Lane>, target: InternalKey, level: nat, x: nat, p: nat) returns (below: nat)
    requires Ok(s, lanes) && Reached(s, lanes, target, level, x, p) && level > 0
    ensures Reached(s, lanes, target, level - 1, x, below)
  {
    if p == 0 { return 0; }
    assert x in lanes[level] && x in lanes[level - 1];
    below := Behind(s, lanes, target, level - 1, x);
  }

  /** A node with a smaller key has only smaller keys before it. */
  lemma Behind(s: List, lanes: seq<Lane>, target: InternalKey, level: nat, x: nat) returns (p: nat)
    requires Ok(s, lanes) && level < |lanes| && x in lanes[level] && x < |s.nodes| && Less(s.nodes[x].entry.ik, target)
    ensures p > 0 && Reached(s, lanes, target, level, x, p)
  {
    var lane := lanes[level];
    assert LaneOk(s, lane, level);
    var k :| 0 <= k < |lane| && lane[k] == x;
    p := k + 1;
    forall q | 0 <= q < p ensures lane[q] < |s.nodes| && Less(s.nodes[lane[q]].entry.ik, target) {
      assert Member(s, lane[q], level);
      if q < k { LessTrans(s.nodes[lane[q]].entry.ik, s.nodes[x].entry.ik, target); }
    }
  }

  /** Where a search stops on a level is where the target would go. */
  lemma StopsAtCut(s: List, lanes: seq<Lane>, target: InternalKey, level: nat, x: nat, p: nat)
    requires Ok(s, lanes) && Reached(s, lanes, target, level, x, p) && !IsAfter(s, target, NextOf(s, x, level))
    ensures p == CutOf(s, lanes, level, target)
  {
    LoadsNext(s, lanes, target, level, x, p);
    var es := LaneEntries(s, lanes, level);
    var k := SeekIndex(es, target);
    assert forall q :: 0 <= q < p ==> Less(es[q].ik, target);
    assert p < |es| ==> !Less(es[p].ik, target);
  }

  ghost function LaneEntries(s: List, lanes: seq<Lane>, level: nat): seq<Entry>
    requires Ok(s, lanes) && level < |lanes|
  {
    assert LaneOk(s, lanes[level], level);
    assert forall p :: 0 <= p < |lanes[level]| ==> Member(s, lanes[level][p], level);
    Entries(s, lanes[level])
  }

  ghost function CutOf(s: List, lanes: seq<Lane>, level: nat, target: InternalKey): (n: nat)
    requires Ok(s, lanes) && level < |lanes|
    ensures n <= |lanes[level]|
  {
    SeekIndex(LaneEntries(s, lanes, level), target)
  }

  // ---------- the stores of one insertion ----------

  /** Nodes and lanes only grow. */
  ghost predicate Grown(s: List, lanes: seq<Lane>, s': List, lanes': seq<Lane>) {
    && |s.nodes| <= |s'.nodes| && |lanes| == |lanes'|
    && (forall n :: 0 <= n < |s.nodes| ==> s'.nodes[n].entry == s.nodes[n].entry)
    && (forall i, n {:trigger n in lanes'[i]} {:trigger n in lanes[i]} :: 0 <= i < |lanes| && n in lanes[i] ==> n in lanes'[i])
  }

  /** What a reader has reached stays reached, whatever the writer does meanwhile. */
  lemma ReaderSurvives(s: List, lanes: seq<Lane>, s': List, lanes': seq<Lane>, target: InternalKey, level: nat, x: nat, p: nat)
      returns (p': nat)
    requires Reached(s, lanes, target, level, x, p) && Ok(s', lanes') && Grown(s, lanes, s', lanes')
    ensures Reached(s', lanes', target, level, x, p')
  {
    if p == 0 { return 0; }
    assert x in lanes[level] && x in lanes'[level];
    p' := Behind(s', lanes', target, level, x);
  }

  function NullLinks(n: nat): (r: seq<nat>)
    ensures |r| == n
  {
    seq(n, _ => 0)
  }

  /** NewNode: a node that no lane holds yet. */
  function WithNode(s: List, e: Entry, height: nat): List {
    s.(nodes := s.nodes + [Node(e, NullLinks(height))])
  }

  lemma SameLinks(s: List, s': List, lane: Lane, i: nat)
    requires LaneOk(s, lane, i) && |s.nodes| <= |s'.nodes|
    requires forall n :: 0 <= n < |s.nodes| ==> s'.nodes[n].entry == s.nodes[n].entry && |s'.nodes[n].next| == |s.nodes[n].next|
    requires forall p :: 0 <= p <= |lane| ==> NextOf(s', Stop(lane, p), i) == NextOf(s, Stop(lane, p), i)
    ensures LaneOk(s', lane, i)
  {
    forall p | 0 <= p < |lane| ensures Member(s', lane[p], i) { assert Member(s, lane[p], i); }
    forall p | 0 <= p <= |lane| ensures Linked(s', lane, i, p) { assert Linked(s, lane, i, p); }
    assert forall p :: 0 <= p < |lane| ==> Member(s, lane[p], i);
  }

  lemma NewNodeKeepsOk(s: List, lanes: seq<Lane>, e: Entry, height: nat)
    requires Ok(s, lanes)
    ensures Ok(WithNode(s, e, height), lanes) && Grown(s, lanes, WithNode(s, e, height), lanes)
  {
    var s' := WithNode(s, e, height);
    forall i | 0 <= i < |lanes| ensures LaneOk(s', lanes[i], i) {
      assert LaneOk(s, lanes[i], i);
      assert forall p :: 0 <= p < |lanes[i]| ==> Member(s, lanes[i][p], i);
      SameLinks(s, s', lanes[i], i);
    }
  }

  lemma RaiseKeepsOk(s: List, lanes: seq<Lane>, height: nat)
    requires Ok(s, lanes) && s.maxHeight <= height <= MAX_HEIGHT
    ensures Ok(s.(maxHeight := height), lanes) && Grown(s, lanes, s.(maxHeight := height), lanes)
  {
    var s' := s.(maxHeight := height);
    forall i | 0 <= i < |lanes| ensures LaneOk(s', lanes[i], i) {
      assert LaneOk(s, lanes[i], i);
      SameLinks(s, s', lanes[i], i);
    }
  }

  /** Setting a link of a node that is not in the lane changes nothing for readers. */
  lemma PrepareKeepsOk(s: List, lanes: seq<Lane>, x: nat, i: nat, next: nat)
    requires Ok(s, lanes) && i < |lanes| && Member(s, x, i) && x !in lanes[i]
    ensures Ok(SetNext(s, x, i, next), lanes) && Grown(s, lanes, SetNext(s, x, i, next), lanes)
  {
    var s' := SetNext(s, x, i, next);
    forall j | 0 <= j < |lanes| ensures LaneOk(s', lanes[j], j) {
      assert LaneOk(s, lanes[j], j);
      forall p | 0 <= p <= |lanes[j]| ensures NextOf(s', Stop(lanes[j], p), j) == NextOf(s, Stop(lanes[j], p), j) {
        if p > 0 { assert lanes[j][p - 1] in lanes[j]; }
      }
      SameLinks(s, s', lanes[j], j);
    }
  }

  /** The lane with a node put in at position `c`. */
  function Spliced(lane: Lane, c: nat, x: nat): Lane
    requires c <= |lane|
  {
    lane[..c] + [x] + lane[c..]
  }

  /** The node is ready to be linked at level `i` behind `prev`. */
  ghost predicate Ready(s: List, lanes: seq<Lane>, x: nat, i: nat, c: nat) {
    && i < |lanes| && i < s.maxHeight && Member(s, x, i) && c <= |lanes[i]|
    && (forall n :: n in lanes[i] ==> n < |s.nodes| && s.nodes[n].entry.ik != s.nodes[x].entry.ik)
    && NextOf(s, x, i) == At(lanes[i], c)
    && (i > 0 ==> x in lanes[i - 1])
  }

  lemma {:induction false} StopsDiffer(s: List, lane: Lane, i: nat, p: nat, q: nat)
    requires LaneOk(s, lane, i) && p < q <= |lane|
    ensures Stop(lane, p) != Stop(lane, q)
  {
    assert Member(s, lane[q - 1], i);
    if p > 0 { assert Less(s.nodes[lane[p - 1]].entry.ik, s.nodes[lane[q - 1]].entry.ik); }
  }

  lemma SpliceLinks(s: List, lane: Lane, i: nat, c: nat, x: nat, p: nat)
    requires LaneOk(s, lane, i) && Frame(s) && i < MAX_HEIGHT && c <= |lane| && Member(s, x, i) && x !in lane
    requires NextOf(s, x, i) == At(lane, c) && p <= |lane| + 1
    ensures Stop(lane, c) < |s.nodes| && i < |s.nodes[Stop(lane, c)].next|
    ensures Linked(SetNext(s, Stop(lane, c), i, x), Spliced(lane, c, x), i, p)
  {
    var prev := Stop(lane, c);
    if c > 0 { assert Member(s, lane[c - 1], i); }
    var s', lane' := SetNext(s, prev, i, x), Spliced(lane, c, x);
    if p < c {
      StopsDiffer(s, lane, i, p, c);
      assert Linked(s, lane, i, p);
    } else if p > c + 1 {
      StopsDiffer(s, lane, i, c, p - 1);
      assert Linked(s, lane, i, p - 1);
    } else if p == c + 1 {
      assert c > 0 ==> lane[c - 1] in lane;
    }
  }

  lemma SpliceRises(s: List, lane: Lane, i: nat, c: nat, x: nat, a: nat, b: nat)
    requires LaneOk(s, lane, i) && Member(s, x, i) && c <= |lane| && a < b < |lane| + 1
    requires forall p :: 0 <= p < |lane| ==> lane[p] < |s.nodes|
    requires forall p :: 0 <= p < c ==> Less(s.nodes[lane[p]].entry.ik, s.nodes[x].entry.ik)
    requires forall p :: c <= p < |lane| ==> Less(s.nodes[x].entry.ik, s.nodes[lane[p]].entry.ik)
    ensures var lane' := Spliced(lane, c, x);
            lane'[a] < |s.nodes| && lane'[b] < |s.nodes| && Less(s.nodes[lane'[a]].entry.ik, s.nodes[lane'[b]].entry.ik)
  {
  }

  /** Where the cut is, everything before is smaller and everything after is larger. */
  lemma CutSides(s: List, lanes: seq<Lane>, x: nat, i: nat)
    requires Ok(s, lanes) && i < |lanes| && x < |s.nodes|
    requires forall n :: n in lanes[i] ==> n < |s.nodes| && s.nodes[n].entry.ik != s.nodes[x].entry.ik
    ensures var lane, c := lanes[i], CutOf(s, lanes, i, s.nodes[x].entry.ik);
      && (forall p :: 0 <= p < |lane| ==> lane[p] < |s.nodes|)
      && (forall p :: 0 <= p < c ==> Less(s.nodes[lane[p]].entry.ik, s.nodes[x].entry.ik))
      && (forall p :: c <= p < |lane| ==> Less(s.nodes[x].entry.ik, s.nodes[lane[p]].entry.ik))
  {
    var lane, c, key := lanes[i], CutOf(s, lanes, i, s.nodes[x].entry.ik), s.nodes[x].entry.ik;
    assert LaneOk(s, lane, i);
    var es := LaneEntries(s, lanes, i);
    forall p | 0 <= p < |lane| ensures lane[p] < |s.nodes| && (p < c ==> Less(s.nodes[lane[p]].entry.ik, key)) {
      assert lane[p] in lane && es[p] == s.nodes[lane[p]].entry;
    }
    forall p | c <= p < |lane| ensures Less(key, s.nodes[lane[p]].entry.ik) {
      assert lane[c] in lane && !Less(es[c].ik, key);
      if c < p { LessTrans(key, s.nodes[lane[c]].entry.ik, s.nodes[lane[p]].entry.ik); }
    }
  }

  /** Linking the node in at its level keeps the list well formed: the release store of Insert. */
  lemma PublishKeepsOk(s: List, lanes: seq<Lane>, x: nat, i: nat)
    requires Ok(s, lanes) && i < |lanes| && x < |s.nodes|
    requires Ready(s, lanes, x, i, CutOf(s, lanes, i, s.nodes[x].entry.ik))
    ensures var c := CutOf(s, lanes, i, s.nodes[x].entry.ik);
            var prev := Stop(lanes[i], c);
      && prev < |s.nodes| && i < |s.nodes[prev].next|
      && Ok(SetNext(s, prev, i, x), lanes[i := Spliced(lanes[i], c, x)])
      && Grown(s, lanes, SetNext(s, prev, i, x), lanes[i := Spliced(lanes[i], c, x)])
  {
    var c := CutOf(s, lanes, i, s.nodes[x].entry.ik);
    var lane, prev := lanes[i], Stop(lanes[i], c);
    assert LaneOk(s, lane, i);
    assert x !in lane;
    SpliceLinks(s, lane, i, c, x, 0);
    var s', lane' := SetNext(s, prev, i, x), Spliced(lane, c, x);
    var lanes' := lanes[i := lane'];
    CutSides(s, lanes, x, i);
    SplicedOk(s, lane, i, c, x);
    forall j | 0 <= j < |lanes| ensures LaneOk(s', lanes'[j], j) {
      if j != i {
        assert LaneOk(s, lanes[j], j);
        SameLinks(s, s', lanes[j], j);
      }
    }
    SpliceNested(lanes, i, c, x);
  }

  lemma SpliceNested(lanes: seq<Lane>, i: nat, c: nat, x: nat)
    requires Nested(lanes) && i < |lanes| && c <= |lanes[i]| && (i > 0 ==> x in lanes[i - 1])
    ensures Nested(lanes[i := Spliced(lanes[i], c, x)])
    ensures forall j, n {:trigger n in lanes[j]} :: 0 <= j < |lanes| && n in lanes[j] ==> n in lanes[i := Spliced(lanes[i], c, x)][j]
  {
    SpliceMembers(lanes[i], c, x);
  }

  lemma SpliceMembers(lane: Lane, c: nat, x: nat)
    requires c <= |lane|
    ensures forall n :: n in Spliced(lane, c, x) <==> n in lane || n == x
  {
    assert lane == lane[..c] + lane[c..];
  }

  lemma SplicedOk(s: List, lane: Lane, i: nat, c: nat, x: nat)
    requires LaneOk(s, lane, i) && Frame(s) && i < MAX_HEIGHT && c <= |lane| && Member(s, x, i) && x !in lane
    requires NextOf(s, x, i) == At(lane, c) && Stop(lane, c) < |s.nodes| && i < |s.nodes[Stop(lane, c)].next|
    requires forall p :: 0 <= p < |lane| ==> lane[p] < |s.nodes|
    requires forall p :: 0 <= p < c ==> Less(s.nodes[lane[p]].entry.ik, s.nodes[x].entry.ik)
    requires forall p :: c <= p < |lane| ==> Less(s.nodes[x].entry.ik, s.nodes[lane[p]].entry.ik)
    ensures LaneOk(SetNext(s, Stop(lane, c), i, x), Spliced(lane, c, x), i)
  {
    var s', lane' := SetNext(s, Stop(lane, c), i, x), Spliced(lane, c, x);
    forall p | 0 <= p < |lane'| ensures Member(s', lane'[p], i) {
      if p != c { assert Member(s, lane[if p < c then p else p - 1], i); }
    }
    forall p | 0 <= p <= |lane'| ensures Linked(s', lane', i, p) {
      SpliceLinks(s, lane, i, c, x, p);
    }
    forall a, b | 0 <= a < b < |lane'| ensures Less(s'.nodes[lane'[a]].entry.ik, s'.nodes[lane'[b]].entry.ik) {
      SpliceRises(s, lane, i, c, x, a, b);
    }
  }

  /** Linking at level 0 is what makes the entry appear. */
  lemma PublishContents(s: List, lanes: seq<Lane>, x: nat, i: nat)
    requires Ok(s, lanes) && i < |lanes| && x < |s.nodes|
    requires Ready(s, lanes, x, i, CutOf(s, lanes, i, s.nodes[x].entry.ik))
    ensures var c := CutOf(s, lanes, i, s.nodes[x].entry.ik);
            var prev := Stop(lanes[i], c);
      && prev < |s.nodes| && i < |s.nodes[prev].next|
      && Ok(SetNext(s, prev, i, x), lanes[i := Spliced(lanes[i], c, x)])
      && Contents(SetNext(s, prev, i, x), lanes[i := Spliced(lanes[i], c, x)])
         == if i == 0 then Insert(Contents(s, lanes), s.nodes[x].entry) else Contents(s, lanes)
  {
    PublishKeepsOk(s, lanes, x, i);
    var c := CutOf(s, lanes, i, s.nodes[x].entry.ik);
    var s', lanes' := SetNext(s, Stop(lanes[i], c), i, x), lanes[i := Spliced(lanes[i], c, x)];
    if i > 0 {
      SameEntries(s, lanes, s', lanes');
    } else {
      SplicedEntries(s, lanes, s', lanes', c, x);
    }
  }

  lemma SplicedEntries(s: List, lanes: seq<Lane>, s': List, lanes': seq<Lane>, c: nat, x: nat)
    requires Ok(s, lanes) && Ok(s', lanes') && Grown(s, lanes, s', lanes')
    requires x < |s.nodes| && c <= |lanes[0]| && lanes'[0] == Spliced(lanes[0], c, x)
    ensures var es := Contents(s, lanes);
            Contents(s', lanes') == es[..c] + [s.nodes[x].entry] + es[c..]
  {
    assert LaneOk(s, lanes[0], 0);
    assert forall p :: 0 <= p < |lanes[0]| ==> Member(s, lanes[0][p], 0);
  }

  lemma SameEntries(s: List, lanes: seq<Lane>, s': List, lanes': seq<Lane>)
    requires Ok(s, lanes) && Ok(s', lanes') && Grown(s, lanes, s', lanes') && lanes'[0] == lanes[0]
    ensures Contents(s', lanes') == Contents(s, lanes)
  {
    assert LaneOk(s, lanes[0], 0);
    assert forall p :: 0 <= p < |lanes[0]| ==> Member(s, lanes[0][p], 0);
  }

  // ---------- readers beside a writer ----------

  /** One store of the writer. Only the store that links a node in at level 0 changes what the list
      holds. */
  ghost predicate Stores(s: List, lanes: seq<Lane>, s': List, lanes': seq<Lane>)
    requires Ok(s, lanes)
  {
    || (exists e, height :: lanes' == lanes && s' == WithNode(s, e, height))
    || (exists height :: lanes' == lanes && s.maxHeight <= height <= MAX_HEIGHT && s' == s.(maxHeight := height))
    || (exists x, i, next :: Prepares(s, lanes, s', x, i, next) && lanes' == lanes)
    || (exists x, i :: Publishes(s, lanes, s', lanes', x, i))
  }

  ghost predicate Prepares(s: List, lanes: seq<Lane>, s': List, x: nat, i: nat, next: nat) {
    i < |lanes| && Member(s, x, i) && x !in lanes[i] && s' == SetNext(s, x, i, next)
  }

  ghost predicate Publishes(s: List, lanes: seq<Lane>, s': List, lanes': seq<Lane>, x: nat, i: nat)
    requires Ok(s, lanes)
  {
    && i < |lanes| && x < |s.nodes|
    && var c := CutOf(s, lanes, i, s.nodes[x].entry.ik);
       var prev := Stop(lanes[i], c);
       && Ready(s, lanes, x, i, c) && prev < |s.nodes| && i < |s.nodes[prev].next|
       && s' == SetNext(s, prev, i, x) && lanes' == lanes[i := Spliced(lanes[i], c, x)]
  }

  lemma StoreKeepsOk(s: List, lanes: seq<Lane>, s': List, lanes': seq<Lane>)
    requires Ok(s, lanes) && Stores(s, lanes, s', lanes')
    ensures Ok(s', lanes') && Grown(s, lanes, s', lanes')
  {
    if e, height :| lanes' == lanes && s' == WithNode(s, e, height) {
      NewNodeKeepsOk(s, lanes, e, height);
    } else if height :| lanes' == lanes && s.maxHeight <= height <= MAX_HEIGHT && s' == s.(maxHeight := height) {
      RaiseKeepsOk(s, lanes, height);
    } else if x, i, next :| Prepares(s, lanes, s', x, i, next) && lanes' == lanes {
      PrepareKeepsOk(s, lanes, x, i, next);
    } else {
      var x, i :| Publishes(s, lanes, s', lanes', x, i);
      PublishKeepsOk(s, lanes, x, i);
    }
  }

  /** After a store the list holds what it held, or that and one new entry. */
  lemma OldOrNew(s: List, lanes: seq<Lane>, s': List, lanes': seq<Lane>)
    requires Ok(s, lanes) && Stores(s, lanes, s', lanes') && Ok(s', lanes')
    ensures Contents(s', lanes') == Contents(s, lanes) || exists e :: Contents(s', lanes') == Insert(Contents(s, lanes), e)
  {
    StoreKeepsOk(s, lanes, s', lanes');
    if lanes' == lanes {
      SameEntries(s, lanes, s', lanes');
    } else {
      var x, i :| Publishes(s, lanes, s', lanes', x, i);
      PublishContents(s, lanes, x, i);
    }
  }

  /** A reader inside FindGreaterOrEqual: its level, its node, and whether it has its answer. */
  datatype Reader = Searching(level: nat, x: nat) | Found(node: nat)

  /** One load of the reader. */
  function Load(s: List, target: InternalKey, r: Reader): Reader
    requires r.Searching?
  {
    var next := NextOf(s, r.x, r.level);
    if IsAfter(s, target, next) then Searching(r.level, next)
    else if r.level == 0 then Found(next)
    else Searching(r.level - 1, r.x)
  }

  datatype Moment = Moment(list: List, lanes: seq<Lane>, reader: Reader)

  /** The reader and the writer take turns, in any order. */
  ghost predicate Turn(a: Moment, b: Moment, target: InternalKey)
    requires Ok(a.list, a.lanes)
  {
    || (b.reader == a.reader && Stores(a.list, a.lanes, b.list, b.lanes))
    || (a.reader.Searching? && b == a.(reader := Load(a.list, target, a.reader)))
  }

  ghost predicate InSearch(m: Moment, target: InternalKey) {
    m.reader.Searching? ==> exists p :: Reached(m.list, m.lanes, target, m.reader.level, m.reader.x, p)
  }

  /** Whatever the writer does between its loads, the reader stays on its way, and the answer it
      gets is the first entry at or after its target in the list as it is at its last load. */
  lemma TurnKeeps(a: Moment, b: Moment, target: InternalKey)
    requires Ok(a.list, a.lanes) && InSearch(a, target) && Turn(a, b, target)
    ensures Ok(b.list, b.lanes) && InSearch(b, target)
    ensures a.reader.Searching? && b.reader.Found? ==>
              b.reader.node == At(b.lanes[0], SeekIndex(Contents(b.list, b.lanes), target))
  {
    if b.reader == a.reader && Stores(a.list, a.lanes, b.list, b.lanes) {
      StoreKeepsOk(a.list, a.lanes, b.list, b.lanes);
      if a.reader.Searching? {
        var p :| Reached(a.list, a.lanes, target, a.reader.level, a.reader.x, p);
        var q := ReaderSurvives(a.list, a.lanes, b.list, b.lanes, target, a.reader.level, a.reader.x, p);
      }
    } else {
      var level, x := a.reader.level, a.reader.x;
      var p :| Reached(a.list, a.lanes, target, level, x, p);
      if IsAfter(a.list, target, NextOf(a.list, x, level)) {
        StepsAlong(a.list, a.lanes, target, level, x, p);
      } else if level > 0 {
        var below := StepsDown(a.list, a.lanes, target, level, x, p);
      } else {
        StopsAtCut(a.list, a.lanes, target, level, x, p);
        LoadsNext(a.list, a.lanes, target, level, x, p);
      }
    }
  }

  ghost predicate Mingled(run: seq<Moment>, target: InternalKey) {
    && run != [] && Ok(run[0].list, run[0].lanes) && run[0].reader == Searching(run[0].list.maxHeight - 1, 0)
    && forall k {:trigger TurnAt(run, k, target)} :: 0 <= k < |run| - 1 ==> TurnAt(run, k, target)
  }

  ghost predicate TurnAt(run: seq<Moment>, k: nat, target: InternalKey)
    requires k + 1 < |run|
  {
    Ok(run[k].list, run[k].lanes) ==> Turn(run[k], run[k + 1], target)
  }

  lemma {:induction false} MingledOk(run: seq<Moment>, target: InternalKey, k: nat)
    requires Mingled(run, target) && k < |run|
    ensures Ok(run[k].list, run[k].lanes) && InSearch(run[k], target)
  {
    if k == 0 {
      assert Reached(run[0].list, run[0].lanes, target, run[0].reader.level, 0, 0);
    } else {
      MingledOk(run, target, k - 1);
      assert TurnAt(run, k - 1, target);
      TurnKeeps(run[k - 1], run[k], target);
    }
  }

  /** In every interleaving of a search with the stores of any insertions, the search ends on the
      first entry at or after its target in the list as it stands then. */
  lemma SearchIsExact(run: seq<Moment>, target: InternalKey, k: nat)
    requires Mingled(run, target) && k + 1 < |run| && run[k].reader.Searching? && run[k + 1].reader.Found?
    ensures Ok(run[k + 1].list, run[k + 1].lanes)
    ensures run[k + 1].reader.node == At(run[k + 1].lanes[0], SeekIndex(Contents(run[k + 1].list, run[k + 1].lanes), target))
  {
    MingledOk(run, target, k);
    assert TurnAt(run, k, target);
    TurnKeeps(run[k], run[k + 1], target);
  }

  // ---------- traces of a writer ----------

  /** What a writer's list is between two stores. */
  datatype Stage = Stage(list: List, lanes: seq<Lane>)

  ghost predicate StepsTo(a: Stage, b: Stage) {
    Ok(a.list, a.lanes) && Stores(a.list, a.lanes, b.list, b.lanes)
  }

  /** The writer got from one stage to the other by single stores. */
  ghost predicate Trace(t: seq<Stage>, a: Stage, b: Stage) {
    && t != [] && t[0] == a && t[|t| - 1] == b
    && forall k {:trigger StepsTo(t[k], t[k + 1])} :: 0 <= k < |t| - 1 ==> StepsTo(t[k], t[k + 1])
  }

  lemma TraceStep(t: seq<Stage>, a: Stage, b: Stage, c: Stage)
    requires Trace(t, a, b) && StepsTo(b, c)
    ensures Trace(t + [c], a, c)
  {
    var u := t + [c];
    forall k | 0 <= k < |u| - 1 ensures StepsTo(u[k], u[k + 1]) {
      if k < |t| - 1 { assert StepsTo(t[k], t[k + 1]); }
    }
  }

  // ---------- the list ----------

  class SkipList {
    var list: List
    ghost var lanes: seq<Lane>

    ghost predicate Valid()
      reads this
    {
      Ok(list, lanes)
    }

    /** The entries in order. */
    ghost function Run(): seq<Entry>
      requires Valid()
      reads this
    {
      Contents(list, lanes)
    }

    constructor (any: Entry)
      ensures Valid() && Run() == []
    {
      list := List([Node(any, NullLinks(MAX_HEIGHT))], 1);
      lanes := seq(MAX_HEIGHT, _ => []);
    }

    /** The first node at or after the target, and the last one before it on every level in use. */
    method FindGreaterOrEqual(target: InternalKey) returns (r: nat, prev: seq<nat>)
      requires Valid()
      ensures r == At(lanes[0], SeekIndex(Run(), target))
      ensures |prev| == MAX_HEIGHT
      ensures forall i :: 0 <= i < list.maxHeight ==> prev[i] == Stop(lanes[i], CutOf(list, lanes, i, target))
    {
      prev := NullLinks(MAX_HEIGHT);
      var x: nat, level: nat := 0, list.maxHeight - 1;
      ghost var p: nat := 0;
      while true
        invariant level < list.maxHeight && |prev| == MAX_HEIGHT && Reached(list, lanes, target, level, x, p)
        invariant forall i :: level < i < list.maxHeight ==> prev[i] == Stop(lanes[i], CutOf(list, lanes, i, target))
        decreases level, |lanes[level]| - p
      {
        var next := NextOf(list, x, level);
        LoadsNext(list, lanes, target, level, x, p);
        if IsAfter(list, target, next) {
          StepsAlong(list, lanes, target, level, x, p);
          x := next;
          p := p + 1;
        } else {
          StopsAtCut(list, lanes, target, level, x, p);
          prev := prev[level := x];
          if level == 0 {
            return next, prev;
          }
          p := StepsDown(list, lanes, target, level, x, p);
          level := level - 1;
        }
      }
    }

    /** The last node before the target, or the head. */
    method FindLessThan(target: InternalKey) returns (r: nat)
      requires Valid()
      ensures r == Stop(lanes[0], CutOf(list, lanes, 0, target))
    {
      var x: nat, level: nat := 0, list.maxHeight - 1;
      ghost var p: nat := 0;
      while true
        invariant level < list.maxHeight && Reached(list, lanes, target, level, x, p)
        decreases level, |lanes[level]| - p
      {
        var next := NextOf(list, x, level);
        LoadsNext(list, lanes, target, level, x, p);
        if IsAfter(list, target, next) {
          StepsAlong(list, lanes, target, level, x, p);
          x := next;
          p := p + 1;
        } else {
          StopsAtCut(list, lanes, target, level, x, p);
          if level == 0 {
            return x;
          }
          p := StepsDown(list, lanes, target, level, x, p);
          level := level - 1;
        }
      }
    }

    /** The last node, or the head. */
    method FindLast() returns (r: nat)
      requires Valid()
      ensures r == Stop(lanes[0], |lanes[0]|)
    {
      var x: nat, level: nat := 0, list.maxHeight - 1;
      ghost var p: nat := 0;
      while true
        invariant level < list.maxHeight && p <= |lanes[level]| && x == Stop(lanes[level], p)
        decreases level, |lanes[level]| - p
      {
        assert LaneOk(list, lanes[level], level) && Linked(list, lanes[level], level, p);
        assert p < |lanes[level]| ==> Member(list, lanes[level][p], level);
        var next := NextOf(list, x, level);
        if next != 0 {
          x := next;
          p := p + 1;
        } else if level == 0 {
          return x;
        } else {
          level := level - 1;
          p := PositionBelow(lanes, level, x, p);
        }
      }
    }

    ghost function Now(): Stage
      reads this
    {
      Stage(list, lanes)
    }

    /** Insert: readers see the list without the entry until level 0 is linked, and with it from
        then on. All it does to the list are single stores. */
    method Insert(e: Entry, height: nat) returns (ghost trace: seq<Stage>, ghost node: nat)
      requires Valid() && 1 <= height <= MAX_HEIGHT && forall d :: d in Run() ==> d.ik != e.ik
      modifies this
      ensures Valid() && Run() == DbFormat.Insert(old(Run()), e) && Trace(trace, old(Now()), Now())
      ensures 0 < node < |list.nodes| && list.nodes[node].entry == e && |list.nodes[node].next| == height
      ensures Joined(old(lanes), lanes, node, height)
      ensures list.maxHeight == if height > old(list.maxHeight) then height else old(list.maxHeight)
    {
      trace := [Now()];
      var x, prev;
      x, prev, trace := Prepare(e, height, trace, Now());
      ghost var before, tall := Run(), list.maxHeight;
      node := x;
      for i := 0 to height
        invariant list.maxHeight == tall && Joined(old(lanes), lanes, x, i)
        invariant Valid() && Awaits(list, lanes, prev, x, e, i, height)
        invariant Run() == if i == 0 then before else DbFormat.Insert(before, e)
        invariant Trace(trace, old(Now()), Now())
      {
        trace := Link(prev, x, e, i, height, trace, old(Now()));
      }
    }

    /** Finds where the entry goes, raises the height of the list and makes the node. */
    method Prepare(e: Entry, height: nat, ghost t: seq<Stage>, ghost origin: Stage)
      returns (x: nat, prev: seq<nat>, ghost trace: seq<Stage>)
      requires Valid() && 1 <= height <= MAX_HEIGHT && forall d :: d in Run() ==> d.ik != e.ik
      requires Trace(t, origin, Now())
      modifies this
      ensures lanes == old(lanes) && list.maxHeight == if height > old(list.maxHeight) then height else old(list.maxHeight)
      ensures Valid() && Run() == old(Run()) && Awaits(list, lanes, prev, x, e, 0, height)
      ensures Trace(trace, origin, Now())
    {
      var r;
      r, prev := FindGreaterOrEqual(e.ik);
      trace := t;
      if height > list.maxHeight {
        prev := Heads(prev, e, height);
        trace := Raise(height, t, origin);
      }
      x, trace := AddNode(prev, e, height, trace, origin);
    }

    /** On the levels not in use yet the head comes before everything. */
    method Heads(prev: seq<nat>, e: Entry, height: nat) returns (prev': seq<nat>)
      requires Valid() && list.maxHeight < height <= MAX_HEIGHT && |prev| == MAX_HEIGHT
      requires forall j :: 0 <= j < list.maxHeight ==> prev[j] == Stop(lanes[j], CutOf(list, lanes, j, e.ik))
      ensures |prev'| == MAX_HEIGHT
      ensures forall j :: 0 <= j < height ==> prev'[j] == Stop(lanes[j], CutOf(list, lanes, j, e.ik))
    {
      prev' := prev;
      var i := list.maxHeight;
      while i < height
        invariant list.maxHeight <= i <= height && |prev'| == MAX_HEIGHT
        invariant forall j :: 0 <= j < i ==> prev'[j] == Stop(lanes[j], CutOf(list, lanes, j, e.ik))
      {
        prev' := prev'[i := 0];
        i := i + 1;
      }
    }

    /** The store of the list's height. */
    method Raise(height: nat, ghost t: seq<Stage>, ghost origin: Stage) returns (ghost trace: seq<Stage>)
      requires Valid() && list.maxHeight < height <= MAX_HEIGHT && Trace(t, origin, Now())
      modifies this
      ensures Valid() && Run() == old(Run()) && lanes == old(lanes) && list == old(list).(maxHeight := height)
      ensures forall j: nat, e: Entry :: j < |lanes| ==> CutOf(list, lanes, j, e.ik) == CutOf(old(list), lanes, j, e.ik)
      ensures Trace(trace, origin, Now())
    {
      ghost var s := list;
      RaiseKeepsOk(list, lanes, height);
      list := list.(maxHeight := height);
      SameEntries(s, lanes, list, lanes);
      forall j: nat, e: Entry | j < |lanes| ensures CutOf(list, lanes, j, e.ik) == CutOf(s, lanes, j, e.ik) {
        SameCut(s, lanes, list, lanes, j, e.ik);
      }
      assert StepsTo(Stage(s, lanes), Now());
      TraceStep(t, origin, Stage(s, lanes), Now());
      trace := t + [Now()];
    }

    method AddNode(prev: seq<nat>, e: Entry, height: nat, ghost t: seq<Stage>, ghost origin: Stage)
      returns (x: nat, ghost trace: seq<Stage>)
      requires Valid() && 1 <= height <= list.maxHeight && |prev| == MAX_HEIGHT
      requires forall j :: 0 <= j < height ==> prev[j] == Stop(lanes[j], CutOf(list, lanes, j, e.ik))
      requires forall d :: d in Run() ==> d.ik != e.ik
      requires Trace(t, origin, Now())
      modifies this
      ensures lanes == old(lanes) && list.maxHeight == old(list.maxHeight)
      ensures Valid() && Run() == old(Run()) && Awaits(list, lanes, prev, x, e, 0, height)
      ensures Trace(trace, origin, Now())
    {
      ghost var s := list;
      NewNodeKeepsOk(list, lanes, e, height);
      x := |list.nodes|;
      list := WithNode(list, e, height);
      SameEntries(s, lanes, list, lanes);
      forall j | 0 <= j < height ensures prev[j] == Stop(lanes[j], CutOf(list, lanes, j, e.ik)) {
        SameCut(s, lanes, list, lanes, j, e.ik);
      }
      forall j, n | 0 <= j < |lanes| && n in lanes[j] ensures n < x && list.nodes[n].entry.ik != e.ik {
        InContents(s, lanes, j, n);
      }
      assert StepsTo(Stage(s, lanes), Now());
      TraceStep(t, origin, Stage(s, lanes), Now());
      trace := t + [Now()];
    }

    /** The two stores that link the node in at one level. */
    method Link(prev: seq<nat>, x: nat, e: Entry, i: nat, height: nat, ghost t: seq<Stage>, ghost origin: Stage)
      returns (ghost trace: seq<Stage>)
      requires Valid() && i < height && Awaits(list, lanes, prev, x, e, i, height)
      requires Trace(t, origin, Now())
      modifies this
      ensures list.maxHeight == old(list.maxHeight) && |lanes| == |old(lanes)| && (forall n :: n in lanes[i] <==> n in old(lanes)[i] || n == x)
      ensures forall j :: 0 <= j < |lanes| && j != i ==> lanes[j] == old(lanes)[j]
      ensures Valid() && Awaits(list, lanes, prev, x, e, i + 1, height)
      ensures Run() == if i == 0 then DbFormat.Insert(old(Run()), e) else old(Run())
      ensures Trace(trace, origin, Now())
    {
      ghost var s, ls, c := list, lanes, CutOf(list, lanes, i, e.ik);
      assert LaneOk(list, lanes[i], i) && Linked(list, lanes[i], i, c);
      PrepareKeepsOk(list, lanes, x, i, NextOf(list, prev[i], i));
      list := SetNext(list, x, i, NextOf(list, prev[i], i));
      SameEntries(s, ls, list, ls);
      SameCut(s, ls, list, ls, i, e.ik);
      ghost var mid := list;
      PublishKeepsOk(list, lanes, x, i);
      PublishContents(list, lanes, x, i);
      list := SetNext(list, prev[i], i, x);
      SpliceMembers(lanes[i], c, x);
      lanes := lanes[i := Spliced(lanes[i], c, x)];
      StillAwaits(s, ls, list, lanes, prev, x, e, i, height, c);
      LinkTrace(t, origin, s, ls, mid, list, lanes, x, i, NextOf(s, prev[i], i));
      trace := t + [Stage(mid, ls)] + [Now()];
    }
  }

  lemma LinkTrace(t: seq<Stage>, origin: Stage, s: List, ls: seq<Lane>, mid: List, s': List, ls': seq<Lane>, x: nat, i: nat, next: nat)
    requires Trace(t, origin, Stage(s, ls)) && Ok(s, ls) && Ok(mid, ls) && Prepares(s, ls, mid, x, i, next)
    requires Publishes(mid, ls, s', ls', x, i)
    ensures Trace(t + [Stage(mid, ls)] + [Stage(s', ls')], origin, Stage(s', ls'))
  {
    TraceStep(t, origin, Stage(s, ls), Stage(mid, ls));
    TraceStep(t + [Stage(mid, ls)], origin, Stage(mid, ls), Stage(s', ls'));
  }

  /** SkipList::Iterator: an index into the entries. */
  class Iterator {
    const list: SkipList
    var node: nat
    ghost var pos: nat

    ghost predicate Valid()
      reads this, list
    {
      list.Valid() && pos <= |list.lanes[0]| && node == At(list.lanes[0], pos)
    }

    constructor (list: SkipList)
      requires list.Valid()
      ensures Valid() && this.list == list && node == 0 && pos == |list.Run()|
    {
      this.list, node := list, 0;
      pos := |list.lanes[0]|;
    }

    /** The iterator is on an entry exactly when its index is inside. */
    lemma OnEntry()
      requires Valid()
      ensures pos <= |list.Run()| && (node != 0 <==> pos < |list.Run()|)
      ensures node != 0 ==> node < |list.list.nodes| && list.list.nodes[node].entry == list.Run()[pos]
    {
      assert LaneOk(list.list, list.lanes[0], 0);
      assert pos < |list.lanes[0]| ==> Member(list.list, list.lanes[0][pos], 0);
    }

    method Current() returns (e: Entry)
      requires Valid() && node != 0
      ensures pos < |list.Run()| && e == list.Run()[pos]
    {
      OnEntry();
      e := list.list.nodes[node].entry;
    }

    method Next()
      requires Valid() && node != 0
      modifies this
      ensures Valid() && pos == old(pos) + 1
    {
      OnEntry();
      assert LaneOk(list.list, list.lanes[0], 0) && Linked(list.list, list.lanes[0], 0, pos + 1);
      node := NextOf(list.list, node, 0);
      pos := pos + 1;
    }

    /** There are no back links: Prev searches for the last entry before the current one. */
    method Prev()
      requires Valid() && node != 0
      modifies this
      ensures Valid() && pos == if old(pos) == 0 then |list.Run()| else old(pos) - 1
    {
      OnEntry();
      var key := list.list.nodes[node].entry.ik;
      ContentsSorted(list.list, list.lanes);
      CutAt(list.Run(), pos);
      node := list.FindLessThan(key);
      pos := if pos == 0 then |list.lanes[0]| else pos - 1;
    }

    method Seek(target: InternalKey)
      requires Valid()
      modifies this
      ensures Valid() && pos == SeekIndex(list.Run(), target)
    {
      var prev;
      node, prev := list.FindGreaterOrEqual(target);
      pos := SeekIndex(list.Run(), target);
    }

    method SeekToFirst()
      requires Valid()
      modifies this
      ensures Valid() && pos == 0
    {
      assert LaneOk(list.list, list.lanes[0], 0) && Linked(list.list, list.lanes[0], 0, 0);
      node := NextOf(list.list, 0, 0);
      pos := 0;
    }

    method SeekToLast()
      requires Valid()
      modifies this
      ensures Valid() && pos == if list.Run() == [] then 0 else |list.Run()| - 1
    {
      node := list.FindLast();
      pos := if list.lanes[0] == [] then 0 else |list.lanes[0]| - 1;
    }
  }

  lemma CutAt(es: seq<Entry>, p: nat)
    requires Sorted(es) && p < |es|
    ensures SeekIndex(es, es[p].ik) == p
  {
  }

  /** The node has come into the lanes below `i`, and nothing else has changed. */
  ghost predicate Joined(before: seq<Lane>, after: seq<Lane>, x: nat, i: nat) {
    |after| == |before| && forall j, n {:trigger n in after[j]} :: 0 <= j < |after| ==>
      (n in after[j] <==> n in before[j] || (n == x && j < i))
  }

  /** The node is made and linked in on the levels below `i`; for the others its place is known. */
  ghost predicate Awaits(s: List, lanes: seq<Lane>, prev: seq<nat>, x: nat, e: Entry, i: nat, height: nat)
    requires Ok(s, lanes)
  {
    && i <= height <= s.maxHeight && |prev| == MAX_HEIGHT
    && 0 < x < |s.nodes| && s.nodes[x].entry == e && |s.nodes[x].next| == height
    && (i > 0 ==> x in lanes[i - 1])
    && (forall j :: i <= j < height ==> prev[j] == Stop(lanes[j], CutOf(s, lanes, j, e.ik)))
    && (forall j, n {:trigger n in lanes[j]} :: i <= j < |lanes| && n in lanes[j] ==> n < |s.nodes| && s.nodes[n].entry.ik != e.ik)
  }

  lemma StillAwaits(s: List, lanes: seq<Lane>, s': List, lanes': seq<Lane>, prev: seq<nat>, x: nat, e: Entry, i: nat, height: nat, c: nat)
    requires Ok(s, lanes) && Ok(s', lanes') && Grown(s, lanes, s', lanes') && i < height && Awaits(s, lanes, prev, x, e, i, height)
    requires c <= |lanes[i]| && lanes' == lanes[i := Spliced(lanes[i], c, x)]
    requires s'.maxHeight == s.maxHeight && |s'.nodes[x].next| == height
    ensures Awaits(s', lanes', prev, x, e, i + 1, height)
  {
    SpliceMembers(lanes[i], c, x);
    forall j | i + 1 <= j < height ensures prev[j] == Stop(lanes'[j], CutOf(s', lanes', j, e.ik)) {
      SameCut(s, lanes, s', lanes', j, e.ik);
    }
  }

  lemma SameCut(s: List, lanes: seq<Lane>, s': List, lanes': seq<Lane>, j: nat, key: InternalKey)
    requires Ok(s, lanes) && Ok(s', lanes') && Grown(s, lanes, s', lanes') && j < |lanes| && lanes'[j] == lanes[j]
    ensures CutOf(s', lanes', j, key) == CutOf(s, lanes, j, key)
  {
    assert LaneOk(s, lanes[j], j);
    assert forall p :: 0 <= p < |lanes[j]| ==> Member(s, lanes[j][p], j);
    assert LaneEntries(s', lanes', j) == LaneEntries(s, lanes, j);
  }

  /** A node on any level is on level 0. */
  lemma {:induction false} InContents(s: List, lanes: seq<Lane>, j: nat, n: nat)
    requires Ok(s, lanes) && j < |lanes| && n in lanes[j]
    ensures n < |s.nodes| && s.nodes[n].entry in Contents(s, lanes)
  {
    if j > 0 {
      InContents(s, lanes, j - 1, n);
    } else {
      var p :| 0 <= p < |lanes[0]| && lanes[0][p] == n;
      assert LaneOk(s, lanes[0], 0) && Member(s, n, 0);
      assert Contents(s, lanes)[p] == s.nodes[n].entry;
    }
  }

  lemma PositionBelow(lanes: seq<Lane>, level: nat, x: nat, p: nat) returns (q: nat)
    requires Nested(lanes) && level + 1 < |lanes| && p <= |lanes[level + 1]| && x == Stop(lanes[level + 1], p)
    ensures q <= |lanes[level]| && x == Stop(lanes[level], q)
  {
    if p == 0 { return 0; }
    assert x in lanes[level + 1];
    var k :| 0 <= k < |lanes[level]| && lanes[level][k] == x;
    q := k + 1;
  }
}
