/** Whole runs of trie operations (trie/trie.go:62-95): the trie equals a map after every
    run, and the root of a run without deletions depends only on that map. */
module TrieRuns {
  import opened Basics
  import opened Blocks
  import opened Patricia
  import opened Canonical
  import opened Trie

  type Map = map<seq<byte>, Value>

  datatype Op = PutOp(key: seq<byte>, value: Value) | DeleteOp(key: seq<byte>)

  ghost function Step(d: Digest, op: Op): Digest
    requires WF(d, false)
  {
    match op
    case PutOp(key, value) => Put(d, Hex(key), value, false)
    case DeleteOp(key) => Delete(d, Hex(key), false).rest
  }

  function StepMap(m: Map, op: Op): Map {
    match op
    case PutOp(key, value) => m[key := value]
    case DeleteOp(key) => m - {key}
  }

  function RunMap(m: Map, ops: seq<Op>): Map
    decreases |ops|
  {
    if ops == [] then m else RunMap(StepMap(m, ops[0]), ops[1..])
  }

  /** The tries reached by running `ops`; `None` when a step finds a malformed trie, which
      `RunHolds` excludes. */
  ghost function Run(d: Digest, ops: seq<Op>): Option<Digest>
    decreases |ops|
  {
    if ops == [] then Some(d)
    else if !WF(d, false) then None
    else Run(Step(d, ops[0]), ops[1..])
  }

  lemma StepHolds(d: Digest, m: Map, op: Op)
    requires Holds(d, m)
    ensures Holds(Step(d, op), StepMap(m, op))
  {
    match op
    case PutOp(key, value) => HoldsPut(d, m, key, value);
    case DeleteOp(key) => HoldsDelete(d, m, key);
  }

  /** After every run of insertions and deletions the trie holds the map of that run. */
  lemma {:induction false} RunHolds(d: Digest, m: Map, ops: seq<Op>)
    requires Holds(d, m)
    ensures Run(d, ops).Some? && Holds(Run(d, ops).value, RunMap(m, ops))
    decreases |ops|
  {
    if ops != [] {
      StepHolds(d, m, ops[0]);
      RunHolds(Step(d, ops[0]), StepMap(m, ops[0]), ops[1..]);
    }
  }

  lemma EmptyHolds()
    ensures Holds(EmptyDigest, map[]) && IsCanonical(EmptyDigest)
  {}

  predicate PutOnly(ops: seq<Op>) {
    forall i :: 0 <= i < |ops| ==> ops[i].PutOp?
  }

  lemma {:induction false} RunCanonical(d: Digest, m: Map, ops: seq<Op>)
    requires Holds(d, m) && IsCanonical(d) && PutOnly(ops)
    ensures Run(d, ops).Some? && IsCanonical(Run(d, ops).value)
    decreases |ops|
  {
    if ops != [] {
      StepHolds(d, m, ops[0]);
      PutShape(d, Hex(ops[0].key), ops[0].value, false);
      RunCanonical(Step(d, ops[0]), StepMap(m, ops[0]), ops[1..]);
    }
  }

  /** Canonical tries that hold the same map are the same trie. */
  lemma HoldsUnique(d: Digest, d': Digest, m: Map)
    requires Holds(d, m) && Holds(d', m) && IsCanonical(d) && IsCanonical(d')
    ensures d == d'
  {
    forall k: Key | Rest(k, false) ensures Lookup(d, k) == Lookup(d', k) {
      if |k| % 2 == 1 {
        var s := Unhex(k);
        assert Lookup(d, Hex(s)) == Lookup(d', Hex(s));
      }
    }
    Unique(d, d', false);
  }

  /** Two runs of insertions that end in the same map end in the same trie, whatever the
      order of the insertions: the root hash depends only on the map. */
  lemma HistoryIndependence(ops: seq<Op>, ops': seq<Op>)
    requires PutOnly(ops) && PutOnly(ops') && RunMap(map[], ops) == RunMap(map[], ops')
    ensures Run(EmptyDigest, ops).Some? && Run(EmptyDigest, ops) == Run(EmptyDigest, ops')
  {
    EmptyHolds();
    RunHolds(EmptyDigest, map[], ops);
    RunHolds(EmptyDigest, map[], ops');
    RunCanonical(EmptyDigest, map[], ops);
    RunCanonical(EmptyDigest, map[], ops');
    HoldsUnique(Run(EmptyDigest, ops).value, Run(EmptyDigest, ops').value, RunMap(map[], ops));
  }

  // ----- with deletions the root may depend on the history -----

  /** The branch `cs` has exactly the children `h` and `p`. */
  predicate Pair(cs: seq<Digest>, h: Nibble, p: Nibble) {
    && h < |cs| && p < |cs| && h != p && cs[h] != EmptyDigest && cs[p] != EmptyDigest
    && forall i :: 0 <= i < |cs| && i != h && i != p ==> cs[i] == EmptyDigest
  }

  /** The leaf child `h` of the branch `cs` has one sibling, which would be left alone. */
  predicate Critical(cs: seq<Digest>, h: Nibble) {
    h < |cs| && cs[h].DigestOf? && cs[h].node.LeafEnc? && exists p: Nibble :: Pair(cs, h, p)
  }

  /** Deleting `k` leaves no shape that insertion would not build: where the leaf of `k` has
      a single sibling, that sibling is no branch and the pair is not below an extend node. */
  predicate DeletesCleanly(d: Digest, k: Key)
    decreases d
  {
    match d
    case EmptyDigest => true
    case DigestOf(LeafEnc(_, _)) => true
    case DigestOf(ExtendEnc(key, next)) =>
      |key| < |k| && IsBranch(next) && !Critical(next.node.children, k[|key|]) && DeletesCleanly(next, k[|key|..])
    case DigestOf(BranchEnc(cs)) =>
      k != [] && k[0] < |cs| &&
      if cs[k[0]].DigestOf? && cs[k[0]].node.LeafEnc?
      then forall p: Nibble :: Pair(d.node.children, k[0], p) ==> !IsBranch(d.node.children[p])
      else DeletesCleanly(cs[k[0]], k[1..])
  }

  predicate IsLeaf(d: Digest) { d.DigestOf? && d.node.LeafEnc? }

  /** Exactly when a deletion keeps the canonical shape. */
  lemma {:induction false} DeleteShape(d: Digest, k: Key, end: bool)
    requires WF(d, end) && IsCanonical(d) && Rest(k, end) && Lookup(d, k).Some?
    ensures IsCanonical(Delete(d, k, end).rest) <==> DeletesCleanly(d, k)
    ensures IsBranch(d) ==>
              && (!Critical(d.node.children, k[0]) ==> IsBranch(Delete(d, k, end).rest))
              && (Critical(d.node.children, k[0]) && DeletesCleanly(d, k) ==> !IsBranch(Delete(d, k, end).rest))
    decreases d
  {
    match d.node
    case LeafEnc(key, _) => PrefixIsMatch(key, k, end);
    case ExtendEnc(key, next) =>
      MatchIsPrefix(k, key);
      TermTail(k, |key|);
      DeleteShape(next, k[|key|..], false);
      ExtendRest(d, k);
    case BranchEnc(cs) =>
      TermIsLast(k, 0);
      if IsLeaf(cs[k[0]]) {
        DeleteLeafChild(d, k);
      } else {
        DeleteShape(cs[k[0]], k[1..], k[0] == TERM);
        DeleteInnerChild(d, k);
      }
  }

  lemma ExtendRest(d: Digest, k: Key)
    requires WF(d, false) && IsCanonical(d) && d.DigestOf? && d.node.ExtendEnc? && Terminated(k)
    requires Lookup(d, k).Some?
    ensures d.node.key <= k && Terminated(k[|d.node.key|..])
    ensures Delete(d, k, false).rest ==
            DigestOf(ExtendEnc(d.node.key, Delete(d.node.next, k[|d.node.key|..], false).rest))
  {
    var key, next := d.node.key, d.node.next;
    MatchIsPrefix(k, key);
    TermTail(k, |key|);
    CanonicalIsReduced(next);
    DeleteSpec(next, k[|key|..], false, k[|key|..]);
  }

  /** The leaf of `k` is a child of the branch `d`. */
  lemma DeleteLeafChild(d: Digest, k: Key)
    requires WF(d, false) && IsCanonical(d) && IsBranch(d) && Terminated(k) && Lookup(d, k).Some?
    requires IsLeaf(d.node.children[k[0]])
    ensures IsCanonical(Delete(d, k, false).rest) <==> DeletesCleanly(d, k)
    ensures !Critical(d.node.children, k[0]) ==> IsBranch(Delete(d, k, false).rest)
    ensures Critical(d.node.children, k[0]) && DeletesCleanly(d, k) ==> !IsBranch(Delete(d, k, false).rest)
  {
    var cs, h := d.node.children, k[0];
    TermIsLast(k, 0);
    PrefixIsMatch(cs[h].node.key, k[1..], h == TERM);
    var cs' := cs[h := EmptyDigest];
    assert Delete(d, k, false).rest == Collapse(cs');
    if p: Nibble :| Pair(cs, h, p) {
      assert Sole(cs', p);
      TrieNodes.CollapseOne(cs', p);
      assert forall q: Nibble :: Pair(cs, h, q) ==> q == p;
      OneChildOnly(cs', p);
    } else {
      StillTwo(cs, h);
    }
  }

  lemma OneChildOnly(cs: seq<Digest>, p: Nibble)
    requires Sole(cs, p)
    ensures !IsCanonical(DigestOf(BranchEnc(cs)))
  {}

  /** Removing a child that has two or more siblings leaves a canonical branch. */
  lemma StillTwo(cs: seq<Digest>, h: Nibble)
    requires |cs| == NUM_BRANCH_NODES && IsCanonical(DigestOf(BranchEnc(cs))) && cs[h] != EmptyDigest
    requires forall p: Nibble :: !Pair(cs, h, p)
    ensures var cs' := cs[h := EmptyDigest];
            !Collapses(cs') && IsCanonical(DigestOf(BranchEnc(cs'))) && Collapse(cs') == DigestOf(BranchEnc(cs'))
  {
    var cs' := cs[h := EmptyDigest];
    var i, j :| 0 <= i < j < |cs| && cs[i] != EmptyDigest && cs[j] != EmptyDigest;
    var p: Nibble := if i == h then j else i;
    assert !Pair(cs, h, p);
    var q :| 0 <= q < |cs| && q != h && q != p && cs[q] != EmptyDigest;
    assert cs'[p] != EmptyDigest && cs'[q] != EmptyDigest;
    assert TwoChildren(cs') by {
      if p < q { assert cs'[p] != EmptyDigest; } else { assert cs'[q] != EmptyDigest; }
    }
  }

  lemma DeleteInnerChild(d: Digest, k: Key)
    requires WF(d, false) && IsCanonical(d) && IsBranch(d) && Terminated(k) && Lookup(d, k).Some?
    requires var c := d.node.children[k[0]];
      !IsLeaf(c) && Rest(k[1..], k[0] == TERM) &&
      (IsCanonical(Delete(c, k[1..], k[0] == TERM).rest) <==> DeletesCleanly(c, k[1..]))
    ensures IsCanonical(Delete(d, k, false).rest) <==> DeletesCleanly(d, k)
    ensures IsBranch(Delete(d, k, false).rest)
  {
    var cs, h := d.node.children, k[0];
    var c := cs[h];
    CanonicalIsReduced(d);
    InnerRestNotEmpty(c, k[1..], h == TERM);
    var r := Delete(c, k[1..], h == TERM).rest;
    ReplaceInner(cs, h, r);
    assert Delete(d, k, false).rest == Collapse(cs[h := r]);
  }

  lemma ReplaceInner(cs: seq<Digest>, h: Nibble, r: Digest)
    requires |cs| == NUM_BRANCH_NODES && IsCanonical(DigestOf(BranchEnc(cs))) && r != EmptyDigest
    ensures Collapse(cs[h := r]) == DigestOf(BranchEnc(cs[h := r]))
    ensures IsCanonical(DigestOf(BranchEnc(cs[h := r]))) <==> IsCanonical(r)
  {
    var cs' := cs[h := r];
    var i, j :| 0 <= i < j < |cs| && cs[i] != EmptyDigest && cs[j] != EmptyDigest;
    assert cs'[i] != EmptyDigest && cs'[j] != EmptyDigest;
    assert forall p: Nibble :: !Sole(cs', p);
    assert cs'[h] == r;
    assert forall n :: 0 <= n < |cs| && n != h ==> cs'[n] == cs[n];
  }

  lemma InnerRestNotEmpty(c: Digest, k: Key, end: bool)
    requires WF(c, end) && IsCanonical(c) && Rest(k, end) && Lookup(c, k).Some? && !IsLeaf(c)
    ensures Delete(c, k, end).rest != EmptyDigest
  {
    CanonicalIsReduced(c);
    if IsBranch(c) { DeleteSpec(c, k, end, k); } else { ExtendRest(c, k); }
  }

  /** After a deletion from a canonical trie the root is the one insertions alone would give
      (any canonical `d'` with the remaining map) exactly when the key deletes cleanly. */
  lemma DeleteRoot(d: Digest, m: Map, key: seq<byte>, d': Digest)
    requires Holds(d, m) && IsCanonical(d) && key in m
    requires Holds(d', m - {key}) && IsCanonical(d')
    ensures Delete(d, Hex(key), false).rest == d' <==> DeletesCleanly(d, Hex(key))
  {
    HoldsDelete(d, m, key);
    assert Lookup(d, Hex(key)).Some?;
    DeleteShape(d, Hex(key), false);
    if DeletesCleanly(d, Hex(key)) {
      HoldsUnique(Delete(d, Hex(key), false).rest, d', m - {key});
    }
  }

  lemma PairTrie(v: Value)
    ensures var d2 := Put(Put(EmptyDigest, Hex([0]), v, false), Hex([1]), v, false);
            d2.DigestOf? && d2.node.ExtendEnc? && !DeletesCleanly(d2, Hex([1]))
  {
    var a, b: Key := [0, 0, TERM], [0, 1, TERM];
    assert Hex([0]) == a && Hex([1]) == b;
    TrieNodes.MatchLenUnique(a, b, 1);
    assert a[..1] == b[..1] == [0] && a[2..] == b[2..] == [TERM];
    var pair := NoChildren()[0 := Leaf([TERM], v)][1 := Leaf([TERM], v)];
    assert Put(Leaf(a, v), b, v, false) == DigestOf(ExtendEnc([0], DigestOf(BranchEnc(pair))));
    assert Pair(pair, 1, 0);
  }

  /** A history that matters: inserting 00 and 01 and deleting 01 leaves an extend node above
      a leaf, so the root is not the root of the trie that only ever held 00. */
  lemma HistoryMatters(v: Value) returns (d1: Digest, d2: Digest, d3: Digest)
    ensures d1 == Put(EmptyDigest, Hex([0]), v, false) && WF(d1, false)
    ensures d2 == Put(d1, Hex([1]), v, false) && WF(d2, false)
    ensures d3 == Delete(d2, Hex([1]), false).rest
    ensures Holds(d1, map[[0] := v]) && Holds(d3, map[[0] := v]) && d1 != d3
  {
    var m1: Map, m2: Map := map[[0] := v], map[[0] := v, [1] := v];
    EmptyHolds();
    HoldsPut(EmptyDigest, map[], [0], v);
    d1 := Put(EmptyDigest, Hex([0]), v, false);
    assert map[][[0] := v] == m1 && m1[[1] := v] == m2 && m2 - {[1]} == m1;
    HoldsPut(d1, m1, [1], v);
    d2 := Put(d1, Hex([1]), v, false);
    HoldsDelete(d2, m2, [1]);
    d3 := Delete(d2, Hex([1]), false).rest;
    PutShape(d1, Hex([1]), v, false);
    PairTrie(v);
    DeleteRoot(d2, m2, [1], d1);
  }
}
