/** Shape of tries built by insertions only (trie/trie.go:186-299): it is canonical, and a
    canonical trie is determined by the map it represents. */
module Canonical {
  import opened Basics
  import opened Blocks
  import opened Patricia

  predicate TwoChildren(cs: seq<Digest>) {
    exists i, j :: 0 <= i < j < |cs| && cs[i] != EmptyDigest && cs[j] != EmptyDigest
  }

  /** Extend nodes sit above branches and every branch really branches. */
  predicate IsCanonical(d: Digest) {
    match d
    case EmptyDigest => true
    case DigestOf(LeafEnc(_, _)) => true
    case DigestOf(ExtendEnc(_, next)) => IsBranch(next) && IsCanonical(next)
    case DigestOf(BranchEnc(_)) =>
      && TwoChildren(d.node.children)
      && forall i :: 0 <= i < |d.node.children| ==> IsCanonical(d.node.children[i])
  }

  lemma ForkShape(prefix: Key, i: Nibble, x: Digest, j: Nibble, y: Digest)
    requires i != j && x != EmptyDigest && y != EmptyDigest
    ensures Reduced(x) && Reduced(y) ==> Reduced(Fork(prefix, i, x, j, y))
    ensures IsCanonical(x) && IsCanonical(y) ==> IsCanonical(Fork(prefix, i, x, j, y))
  {
    var cs := NoChildren()[i := x][j := y];
    assert cs[i] == x && cs[j] == y;
    assert TwoChildren(cs);
    assert Inhabited(cs);
    assert forall n :: 0 <= n < |cs| ==> cs[n] in {x, y, EmptyDigest};
    assert forall p: Nibble :: !Sole(cs, p);
  }

  /** Insertion keeps the shape deletion relies on, and keeps a canonical shape canonical. */
  lemma {:induction false} PutShape(d: Digest, k: Key, v: Value, end: bool)
    requires WF(d, end) && Rest(k, end)
    ensures IsBranch(d) ==> IsBranch(Put(d, k, v, end))
    ensures Reduced(d) ==> Reduced(Put(d, k, v, end))
    ensures IsCanonical(d) ==> IsCanonical(Put(d, k, v, end))
    decreases d
  {
    match d
    case EmptyDigest =>
    case DigestOf(LeafEnc(key, val)) =>
      PutShapeLeaf(d, k, v, end);
    case DigestOf(ExtendEnc(key, next)) =>
      var m := MatchLen(key, k);
      if m == |key| {
        TermTail(k, m);
        PutShape(next, k[m..], v, false);
      } else {
        PutShapeSplit(d, k, v, end);
      }
    case DigestOf(BranchEnc(cs)) =>
      TermIsLast(k, 0);
      PutShape(cs[k[0]], k[1..], v, k[0] == TERM);
      PutWF(cs[k[0]], k[1..], v, k[0] == TERM);
      ReplaceShape(cs, k[0], Put(cs[k[0]], k[1..], v, k[0] == TERM));
  }

  lemma PutShapeLeaf(d: Digest, k: Key, v: Value, end: bool)
    requires WF(d, end) && Rest(k, end) && d.DigestOf? && d.node.LeafEnc?
    ensures Reduced(Put(d, k, v, end)) && IsCanonical(Put(d, k, v, end))
  {
    var key, val := d.node.key, d.node.value;
    var m := MatchLen(key, k);
    if m != |key| {
      MatchBelow(key, k, end);
      ForkShape(k[..m], key[m], Leaf(key[m + 1..], val), k[m], Leaf(k[m + 1..], v));
    }
  }

  lemma PutShapeSplit(d: Digest, k: Key, v: Value, end: bool)
    requires WF(d, end) && Rest(k, end) && d.DigestOf? && d.node.ExtendEnc? && MatchLen(d.node.key, k) != |d.node.key|
    ensures Reduced(d) ==> Reduced(Put(d, k, v, end))
    ensures IsCanonical(d) ==> IsCanonical(Put(d, k, v, end))
  {
    var key, next := d.node.key, d.node.next;
    var m := MatchLen(key, k);
    MatchExtend(key, k);
    ForkShape(k[..m], key[m], Shorten(key, m, next), k[m], Leaf(k[m + 1..], v));
  }

  lemma ReplaceShape(cs: seq<Digest>, h: Nibble, c: Digest)
    requires |cs| == NUM_BRANCH_NODES && c != EmptyDigest
    requires IsBranch(cs[h]) ==> IsBranch(c)
    ensures Reduced(DigestOf(BranchEnc(cs))) && Reduced(c) ==> Reduced(DigestOf(BranchEnc(cs[h := c])))
    ensures IsCanonical(DigestOf(BranchEnc(cs))) && IsCanonical(c) ==> IsCanonical(DigestOf(BranchEnc(cs[h := c])))
  {
    var cs' := cs[h := c];
    assert cs'[h] != EmptyDigest;
    if Reduced(DigestOf(BranchEnc(cs))) && Reduced(c) {
      forall p: Nibble | Sole(cs', p) ensures IsBranch(cs'[p]) {
        assert p == h;
        assert forall i :: 0 <= i < |cs| && i != h ==> cs[i] == cs'[i];
        assert Sole(cs, h);
      }
      assert forall i :: 0 <= i < |cs'| ==> Reduced(cs'[i]);
    }
    if IsCanonical(DigestOf(BranchEnc(cs))) {
      var i, j :| 0 <= i < j < |cs| && cs[i] != EmptyDigest && cs[j] != EmptyDigest;
      assert cs'[i] != EmptyDigest && cs'[j] != EmptyDigest;
    }
  }

  lemma {:induction false} CanonicalIsReduced(d: Digest)
    requires IsCanonical(d)
    ensures Reduced(d)
    decreases d
  {
    match d
    case EmptyDigest =>
    case DigestOf(LeafEnc(_, _)) =>
    case DigestOf(ExtendEnc(_, next)) => CanonicalIsReduced(next);
    case DigestOf(BranchEnc(cs)) =>
      var i, j :| 0 <= i < j < |cs| && cs[i] != EmptyDigest && cs[j] != EmptyDigest;
      forall n | 0 <= n < |cs| ensures Reduced(cs[n]) { CanonicalIsReduced(cs[n]); }
  }

  // ----- a canonical trie is determined by its map -----

  ghost predicate SameMap(d: Digest, d': Digest, end: bool) {
    forall k: Key :: Rest(k, end) ==> Lookup(d, k) == Lookup(d', k)
  }

  lemma ConsRest(i: Nibble, k: Key)
    requires Rest(k, i == TERM)
    ensures Terminated([i] + k) && ([i] + k)[1..] == k
  {}

  lemma AppendRest(p: Key, k: Key)
    requires NoTerm(p) && Terminated(k)
    ensures Terminated(p + k) && p <= p + k && (p + k)[|p|..] == k
  {}

  /** A non-empty trie holds a key. */
  lemma {:induction false} SomeKey(d: Digest, end: bool) returns (k: Key)
    requires WF(d, end) && Reduced(d) && d != EmptyDigest
    ensures Rest(k, end) && Lookup(d, k).Some?
    decreases d
  {
    match d.node
    case LeafEnc(key, _) => k := key;
    case ExtendEnc(key, next) =>
      var r := SomeKey(next, false);
      AppendRest(key, r);
      k := key + r;
    case BranchEnc(cs) =>
      var i :| 0 <= i < |cs| && cs[i] != EmptyDigest;
      k := BranchKey(d, i);
  }

  lemma {:induction false} BranchKey(d: Digest, i: Nibble) returns (k: Key)
    requires WF(d, false) && Reduced(d) && IsBranch(d) && d.node.children[i] != EmptyDigest
    ensures Terminated(k) && k[0] == i && Lookup(d, k).Some?
    decreases d, 0
  {
    var r := SomeKey(d.node.children[i], i == TERM);
    ConsRest(i, r);
    k := [i] + r;
  }

  /** A canonical branch holds two keys that differ in their first nibble. */
  lemma TwoHeads(d: Digest) returns (a: Key, b: Key)
    requires WF(d, false) && IsCanonical(d) && IsBranch(d)
    ensures Terminated(a) && Terminated(b) && a[0] != b[0]
    ensures Lookup(d, a).Some? && Lookup(d, b).Some?
  {
    CanonicalIsReduced(d);
    var cs := d.node.children;
    var i, j :| 0 <= i < j < |cs| && cs[i] != EmptyDigest && cs[j] != EmptyDigest;
    a := BranchKey(d, i);
    b := BranchKey(d, j);
  }

  /** Two keys below an extend node that part right after its shared nibbles. */
  lemma ExtendHeads(d: Digest) returns (a: Key, b: Key)
    requires WF(d, false) && IsCanonical(d) && d.DigestOf? && d.node.ExtendEnc?
    ensures Terminated(a) && Terminated(b) && Lookup(d, a).Some? && Lookup(d, b).Some?
    ensures d.node.key <= a && d.node.key <= b && |d.node.key| < |a| && |d.node.key| < |b|
    ensures a[|d.node.key|] != b[|d.node.key|]
  {
    var key := d.node.key;
    var x, y := TwoHeads(d.node.next);
    AppendRest(key, x);
    AppendRest(key, y);
    a, b := key + x, key + y;
  }

  /** The shared nibbles of one canonical extend node are a prefix of those of any other
      canonical trie with the same map. */
  lemma ExtendKeyPrefix(d: Digest, d': Digest)
    requires WF(d, false) && IsCanonical(d) && d.DigestOf? && d.node.ExtendEnc?
    requires d'.DigestOf? && d'.node.ExtendEnc? && SameMap(d, d', false)
    ensures |d'.node.key| <= |d.node.key| && d'.node.key <= d.node.key
  {
    var a, b := ExtendHeads(d);
    assert Lookup(d', a).Some? && Lookup(d', b).Some?;
    var key, key' := d.node.key, d'.node.key;
    assert key' <= a && key' <= b;
    assert |key'| <= |key|;
    assert key' == a[..|key'|] && key == a[..|key|];
  }

  /** Two canonical tries with the same map are equal, hence have the same root hash. */
  lemma {:induction false} Unique(d: Digest, d': Digest, end: bool)
    requires WF(d, end) && WF(d', end) && IsCanonical(d) && IsCanonical(d')
    requires SameMap(d, d', end)
    ensures d == d'
    decreases d
  {
    CanonicalIsReduced(d);
    CanonicalIsReduced(d');
    if d == EmptyDigest || d' == EmptyDigest {
      if d != EmptyDigest { var k := SomeKey(d, end); assert false; }
      if d' != EmptyDigest { var k := SomeKey(d', end); assert false; }
    } else {
      SameKind(d, d', end);
      match d.node
      case LeafEnc(key, _) => assert Lookup(d, key).Some? && Lookup(d', key) == Lookup(d, key);
      case ExtendEnc(key, next) =>
        ExtendKeyPrefix(d, d');
        ExtendKeyPrefix(d', d);
        assert key == d'.node.key;
        forall k | Rest(k, false) ensures Lookup(next, k) == Lookup(d'.node.next, k) {
          AppendRest(key, k);
          assert Lookup(d, key + k) == Lookup(d', key + k);
        }
        Unique(next, d'.node.next, false);
      case BranchEnc(cs) =>
        var cs' := d'.node.children;
        forall i | 0 <= i < |cs| ensures cs[i] == cs'[i] {
          SameChild(d, d', i);
          Unique(cs[i], cs'[i], i == TERM);
        }
        assert cs == cs';
    }
  }

  lemma SameChild(d: Digest, d': Digest, i: Nibble)
    requires WF(d, false) && WF(d', false) && IsBranch(d) && IsBranch(d') && SameMap(d, d', false)
    ensures SameMap(d.node.children[i], d'.node.children[i], i == TERM)
  {
    forall k | Rest(k, i == TERM)
      ensures Lookup(d.node.children[i], k) == Lookup(d'.node.children[i], k)
    {
      ConsRest(i, k);
      assert Lookup(d, [i] + k) == Lookup(d', [i] + k);
    }
  }

  /** Canonical tries with the same map have roots of the same kind. */
  lemma SameKind(d: Digest, d': Digest, end: bool)
    requires WF(d, end) && WF(d', end) && IsCanonical(d) && IsCanonical(d') && SameMap(d, d', end)
    requires d != EmptyDigest && d' != EmptyDigest
    ensures d.node.LeafEnc? == d'.node.LeafEnc?
    ensures d.node.ExtendEnc? == d'.node.ExtendEnc?
  {
    if d'.node.LeafEnc? { LeafOnce(d, d', end); }
    if d.node.LeafEnc? { LeafOnce(d', d, end); }
    BranchIsNoExtend(d, d', end);
    BranchIsNoExtend(d', d, end);
  }

  lemma LeafOnce(d: Digest, d': Digest, end: bool)
    requires WF(d, end) && WF(d', end) && IsCanonical(d) && SameMap(d, d', end)
    requires d != EmptyDigest && d' != EmptyDigest && d'.node.LeafEnc?
    ensures d.node.LeafEnc?
  {
    if d.node.ExtendEnc? {
      var a, b := ExtendHeads(d);
      assert false;
    } else if d.node.BranchEnc? {
      var a, b := TwoHeads(d);
      assert false;
    }
  }

  lemma BranchIsNoExtend(d: Digest, d': Digest, end: bool)
    requires WF(d, end) && WF(d', end) && IsCanonical(d) && SameMap(d, d', end)
    requires d != EmptyDigest && d' != EmptyDigest
    ensures d.node.BranchEnc? ==> !d'.node.ExtendEnc?
  {
    if d.node.BranchEnc? && d'.node.ExtendEnc? {
      var a, b := TwoHeads(d);
      assert false;
    }
  }
}
