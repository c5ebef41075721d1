/** The Merkle Patricia trie of trie/trie.go seen as a value: what the root hash of a
    trie commits to.

    Hashing is symbolic: `DigestOf(e)` is the hash of the encoded node `e`, so two nodes
    have the same digest exactly when their encodings are equal, and no digest equals the
    empty hash. A digest therefore determines the whole trie below it, and the functions
    of this module (lookup, insertion, deletion) are functions of the root digest. The
    mutable nodes of module `TrieNodes` are proved to compute them. */
module Patricia {
  import opened Basics
  import opened Blocks

  const NUM_BRANCH_NODES: int := 17
  const TERM: Nibble := 16

  // ----- keys -----

  predicate Terminated(k: Key) {
    k != [] && k[|k| - 1] == TERM && forall i :: 0 <= i < |k| - 1 ==> k[i] != TERM
  }

  /** What may remain of a key below a node: nothing once the terminator was consumed
      (`end`), otherwise a terminated rest. */
  predicate Rest(k: Key, end: bool) {
    if end then k == [] else Terminated(k)
  }

  predicate NoTerm(k: Key) {
    forall i :: 0 <= i < |k| ==> k[i] != TERM
  }

  function Hex(s: seq<byte>): (k: Key)
    ensures |k| == 2 * |s| + 1
    ensures forall i :: 0 <= i < |s| ==> k[2 * i] == s[i] / 16 && k[2 * i + 1] == s[i] % 16
    ensures Terminated(k)
  {
    if s == [] then [TERM] else [s[0] / 16, s[0] % 16] + Hex(s[1..])
  }

  lemma {:induction false} HexInjective(s: seq<byte>, t: seq<byte>)
    requires Hex(s) == Hex(t)
    ensures s == t
  {
    assert |s| == |t|;
    forall i | 0 <= i < |s| ensures s[i] == t[i] {
      assert Hex(s)[2 * i] == Hex(t)[2 * i] && Hex(s)[2 * i + 1] == Hex(t)[2 * i + 1];
    }
  }

  /** Every terminated key of odd length is the nibble form of a byte string. */
  lemma {:induction false} Unhex(k: Key) returns (s: seq<byte>)
    requires Terminated(k) && |k| % 2 == 1
    ensures Hex(s) == k
    decreases |k|
  {
    if |k| == 1 {
      s := [];
    } else {
      DropTwo(k);
      var t := Unhex(k[2..]);
      var b := Pack(k[0], k[1]);
      HexCons(b, t);
      s := [b] + t;
    }
  }

  lemma DropTwo(k: Key)
    requires Terminated(k) && |k| >= 3
    ensures k == [k[0], k[1]] + k[2..] && Terminated(k[2..]) && k[0] != TERM && k[1] != TERM
  {
    assert k[2..][|k| - 3] == TERM;
  }

  function Pack(hi: Nibble, lo: Nibble): (b: byte)
    requires hi != TERM && lo != TERM
    ensures b / 16 == hi && b % 16 == lo
  {
    var h: int := hi;
    h * 16 + lo
  }

  lemma HexCons(b: byte, t: seq<byte>)
    ensures Hex([b] + t) == [b / 16, b % 16] + Hex(t)
  {
    assert ([b] + t)[1..] == t;
  }

  /** Length of the longest common prefix. */
  function MatchLen(a: Key, b: Key): (m: nat)
    ensures m <= |a| && m <= |b| && a[..m] == b[..m]
    ensures m < |a| && m < |b| ==> a[m] != b[m]
  {
    if a == [] || b == [] || a[0] != b[0] then 0
    else
      var m := MatchLen(a[1..], b[1..]) + 1;
      assert a[..m] == [a[0]] + a[1..][..m - 1] && b[..m] == [b[0]] + b[1..][..m - 1];
      m
  }

  /** Terminated keys are prefix free. */
  lemma PrefixFree(a: Key, b: Key, end: bool)
    requires Rest(a, end) && Rest(b, end)
    requires a <= b
    ensures a == b
  {
    assert a != [] ==> a[|a| - 1] == b[|a| - 1];
  }

  lemma MatchBelow(a: Key, b: Key, end: bool)
    requires Rest(a, end) && Rest(b, end)
    requires MatchLen(a, b) < |a|
    ensures MatchLen(a, b) < |b| && a != b && !end
    ensures NoTerm(a[..MatchLen(a, b)])
    ensures Rest(a[MatchLen(a, b) + 1..], a[MatchLen(a, b)] == TERM)
    ensures Rest(b[MatchLen(a, b) + 1..], b[MatchLen(a, b)] == TERM)
  {
    var m := MatchLen(a, b);
    if m == |b| {
      assert b == a[..m];
      PrefixFree(b, a, end);
    }
    TermIsLast(a, m);
    TermIsLast(b, m);
  }

  lemma TermIsLast(k: Key, i: nat)
    requires Terminated(k) && i < |k|
    ensures k[i] == TERM <==> i == |k| - 1
    ensures Rest(k[i + 1..], k[i] == TERM)
  {
    if i < |k| - 1 {
      var r := k[i + 1..];
      assert r[|r| - 1] == k[|k| - 1];
    }
  }

  lemma TermTail(k: Key, m: nat)
    requires Terminated(k) && m <= |k| && NoTerm(k[..m])
    ensures m < |k| && Terminated(k[m..])
  {
    assert m > 0 ==> k[..m][m - 1] == k[m - 1];
    assert k[m..][|k[m..]| - 1] == k[|k| - 1];
  }

  // ----- well-formed digests -----

  predicate WF(d: Digest, end: bool) {
    match d
    case EmptyDigest => true
    case DigestOf(LeafEnc(key, _)) => Rest(key, end)
    case DigestOf(ExtendEnc(key, next)) =>
      !end && key != [] && NoTerm(key) && next != EmptyDigest && WF(next, false)
    case DigestOf(BranchEnc(_)) =>
      && !end
      && |d.node.children| == NUM_BRANCH_NODES
      && forall i :: 0 <= i < |d.node.children| ==> WF(d.node.children[i], i == TERM)
  }

  function Lookup(d: Digest, k: Key): Option<Value>
    decreases d
  {
    match d
    case EmptyDigest => None
    case DigestOf(LeafEnc(key, v)) => if key == k then Some(v) else None
    case DigestOf(ExtendEnc(key, next)) => if key <= k then Lookup(next, k[|key|..]) else None
    case DigestOf(BranchEnc(cs)) =>
      if k != [] && k[0] < |cs| then Lookup(cs[k[0]], k[1..]) else None
  }

  // ----- insertion -----

  function NoChildren(): (cs: seq<Digest>)
    ensures |cs| == NUM_BRANCH_NODES && forall i :: 0 <= i < |cs| ==> cs[i] == EmptyDigest
  {
    seq(NUM_BRANCH_NODES, _ => EmptyDigest)
  }

  /** A branch with two children, below an extend node when the prefix is not empty. */
  function Fork(prefix: Key, i: Nibble, x: Digest, j: Nibble, y: Digest): Digest {
    var b := DigestOf(BranchEnc(NoChildren()[i := x][j := y]));
    if prefix == [] then b else DigestOf(ExtendEnc(prefix, b))
  }

  function Leaf(key: Key, v: Value): Digest { DigestOf(LeafEnc(key, v)) }

  function Put(d: Digest, k: Key, v: Value, end: bool): Digest
    requires WF(d, end) && Rest(k, end)
    decreases d
  {
    match d
    case EmptyDigest => Leaf(k, v)
    case DigestOf(LeafEnc(key, val)) =>
      var m := MatchLen(key, k);
      if m == |key| then Leaf(key, v)
      else
        MatchBelow(key, k, end);
        Fork(k[..m], key[m], Leaf(key[m + 1..], val), k[m], Leaf(k[m + 1..], v))
    case DigestOf(ExtendEnc(key, next)) =>
      var m := MatchLen(key, k);
      if m == |key| then
        TermTail(k, m);
        DigestOf(ExtendEnc(key, Put(next, k[m..], v, false)))
      else
        MatchExtend(key, k);
        Fork(k[..m], key[m], Shorten(key, m, next), k[m], Leaf(k[m + 1..], v))
    case DigestOf(BranchEnc(cs)) =>
      TermIsLast(k, 0);
      DigestOf(BranchEnc(cs[k[0] := Put(cs[k[0]], k[1..], v, k[0] == TERM)]))
  }

  /** What remains of an extend node after its first `m + 1` nibbles moved up. */
  function Shorten(key: Key, m: nat, next: Digest): Digest
    requires m < |key|
  {
    if m != |key| - 1 then DigestOf(ExtendEnc(key[m + 1..], next)) else next
  }

  lemma MatchExtend(key: Key, k: Key)
    requires NoTerm(key) && Terminated(k) && MatchLen(key, k) < |key|
    ensures MatchLen(key, k) < |k| && NoTerm(k[..MatchLen(key, k)])
    ensures key[MatchLen(key, k)] != k[MatchLen(key, k)]
    ensures Rest(k[MatchLen(key, k) + 1..], k[MatchLen(key, k)] == TERM)
  {
    var m := MatchLen(key, k);
    assert m > 0 ==> k[m - 1] == k[..m][m - 1] == key[..m][m - 1] == key[m - 1];
    assert k[..m] == key[..m];
    TermIsLast(k, m);
  }

  lemma ForkLookup(prefix: Key, i: Nibble, x: Digest, j: Nibble, y: Digest, k: Key)
    requires i != j && NoTerm(prefix) && Terminated(k)
    ensures prefix <= k ==> |prefix| < |k|
    ensures Lookup(Fork(prefix, i, x, j, y), k) ==
            if !(prefix <= k) then None
            else if k[|prefix|] == i then Lookup(x, k[|prefix| + 1..])
            else if k[|prefix|] == j then Lookup(y, k[|prefix| + 1..])
            else None
  {
    var m := |prefix|;
    if prefix <= k {
      assert k[..m] == prefix;
      TermTail(k, m);
      var b := DigestOf(BranchEnc(NoChildren()[i := x][j := y]));
      assert Lookup(b, k[m..]) == Lookup(NoChildren()[i := x][j := y][k[m]], k[m..][1..]);
      assert k[m..][1..] == k[m + 1..];
      assert m == 0 ==> k[m..] == k;
    }
  }

  lemma ForkWF(prefix: Key, i: Nibble, x: Digest, j: Nibble, y: Digest)
    requires NoTerm(prefix) && i != j && WF(x, i == TERM) && WF(y, j == TERM)
    ensures WF(Fork(prefix, i, x, j, y), false)
  {
    var cs := NoChildren()[i := x][j := y];
    assert forall n :: 0 <= n < |cs| ==> WF(cs[n], n == TERM);
  }

  lemma {:induction false} PutWF(d: Digest, k: Key, v: Value, end: bool)
    requires WF(d, end) && Rest(k, end)
    ensures WF(Put(d, k, v, end), end) && Put(d, k, v, end) != EmptyDigest
    decreases d
  {
    match d
    case EmptyDigest =>
    case DigestOf(LeafEnc(key, val)) =>
      var m := MatchLen(key, k);
      if m != |key| {
        MatchBelow(key, k, end);
        ForkWF(k[..m], key[m], Leaf(key[m + 1..], val), k[m], Leaf(k[m + 1..], v));
      }
    case DigestOf(ExtendEnc(key, next)) =>
      PutWFExtend(d, k, v);
    case DigestOf(BranchEnc(cs)) =>
      TermIsLast(k, 0);
      PutWF(cs[k[0]], k[1..], v, k[0] == TERM);
      ReplaceChildWF(cs, k[0], Put(cs[k[0]], k[1..], v, k[0] == TERM));
  }

  lemma {:induction false} PutWFExtend(d: Digest, k: Key, v: Value)
    requires WF(d, false) && d.DigestOf? && d.node.ExtendEnc? && Terminated(k)
    ensures WF(Put(d, k, v, false), false) && Put(d, k, v, false) != EmptyDigest
    decreases d, 0
  {
    var key, next := d.node.key, d.node.next;
    var m := MatchLen(key, k);
    if m == |key| {
      TermTail(k, m);
      PutWF(next, k[m..], v, false);
    } else {
      MatchExtend(key, k);
      ShortenWF(key, m, next);
      ForkWF(k[..m], key[m], Shorten(key, m, next), k[m], Leaf(k[m + 1..], v));
    }
  }

  lemma ShortenWF(key: Key, m: nat, next: Digest)
    requires NoTerm(key) && m < |key| && next != EmptyDigest && WF(next, false)
    ensures WF(Shorten(key, m, next), key[m] == TERM) && Shorten(key, m, next) != EmptyDigest
  {}

  lemma ReplaceChildWF(cs: seq<Digest>, i: Nibble, c: Digest)
    requires WF(DigestOf(BranchEnc(cs)), false) && WF(c, i == TERM)
    ensures WF(DigestOf(BranchEnc(cs[i := c])), false)
  {
    var cs' := cs[i := c];
    assert forall n :: 0 <= n < |cs'| ==> WF(cs'[n], n == TERM);
  }

  /** Insertion changes the value of the inserted key and of no other key. */
  lemma {:induction false} PutLookup(d: Digest, k: Key, v: Value, end: bool, k': Key)
    requires WF(d, end) && Rest(k, end) && Rest(k', end)
    ensures Lookup(Put(d, k, v, end), k') == if k' == k then Some(v) else Lookup(d, k')
    decreases d
  {
    match d
    case EmptyDigest =>
    case DigestOf(LeafEnc(key, val)) =>
      PutLookupLeaf(key, val, k, v, end, k');
    case DigestOf(ExtendEnc(key, next)) =>
      PutLookupExtend(d, k, v, k');
    case DigestOf(BranchEnc(cs)) =>
      TermIsLast(k, 0);
      TermIsLast(k', 0);
      PutLookup(cs[k[0]], k[1..], v, k[0] == TERM, if k'[0] == k[0] then k'[1..] else k[1..]);
      HeadTail(k, k');
  }

  lemma HeadTail(k: Key, k': Key)
    requires k != [] && k' != []
    ensures k == k' <==> k[0] == k'[0] && k[1..] == k'[1..]
  {
    assert k == [k[0]] + k[1..] && k' == [k'[0]] + k'[1..];
  }

  lemma PrefixTail(p: Key, k: Key, k': Key)
    requires p <= k
    ensures k == k' <==> p <= k' && k[|p|..] == k'[|p|..]
  {
    assert k == p + k[|p|..];
    assert p <= k' ==> k' == p + k'[|p|..];
  }

  lemma {:induction false} PutLookupExtend(d: Digest, k: Key, v: Value, k': Key)
    requires WF(d, false) && d.DigestOf? && d.node.ExtendEnc? && Terminated(k) && Terminated(k')
    ensures Lookup(Put(d, k, v, false), k') == if k' == k then Some(v) else Lookup(d, k')
    decreases d, 0
  {
    var key, next := d.node.key, d.node.next;
    var m := MatchLen(key, k);
    if m == |key| {
      TermTail(k, m);
      assert key <= k;
      PrefixTail(key, k, k');
      if key <= k' {
        assert k'[..m] == key;
        TermTail(k', m);
        PutLookup(next, k[m..], v, false, k'[m..]);
      }
    } else {
      MatchExtend(key, k);
      PutForkExtend(key, next, k, v, k');
    }
  }

  lemma PutLookupLeaf(key: Key, val: Value, k: Key, v: Value, end: bool, k': Key)
    requires Rest(key, end) && Rest(k, end) && Rest(k', end)
    ensures Lookup(Put(Leaf(key, val), k, v, end), k') == if k' == k then Some(v) else Lookup(Leaf(key, val), k')
  {
    var m := MatchLen(key, k);
    if m == |key| {
      assert key <= k;
      PrefixFree(key, k, end);
    } else {
      MatchBelow(key, k, end);
      SplitAt(key, m);
      SplitAt(k, m);
      ForkLeaves(k[..m], key[m], key[m + 1..], val, k[m], k[m + 1..], v, k');
    }
  }

  lemma SplitAt(k: Key, m: nat)
    requires m < |k|
    ensures k == k[..m] + [k[m]] + k[m + 1..]
  {}

  lemma Joined(p: Key, i: Nibble, r: Key, k: Key)
    ensures k == p + [i] + r <==> p <= k && |p| < |k| && k[|p|] == i && k[|p| + 1..] == r
  {
    if p <= k && |p| < |k| {
      assert k[..|p|] == p;
      SplitAt(k, |p|);
    }
  }

  lemma ForkLeaves(prefix: Key, i: Nibble, a: Key, val: Value, j: Nibble, b: Key, v: Value, k: Key)
    requires i != j && NoTerm(prefix) && Terminated(k)
    ensures Lookup(Fork(prefix, i, Leaf(a, val), j, Leaf(b, v)), k) ==
            if k == prefix + [j] + b then Some(v) else if k == prefix + [i] + a then Some(val) else None
  {
    ForkLookup(prefix, i, Leaf(a, val), j, Leaf(b, v), k);
    Joined(prefix, i, a, k);
    Joined(prefix, j, b, k);
  }

  lemma PutForkExtend(key: Key, next: Digest, k: Key, v: Value, k': Key)
    requires NoTerm(key) && Terminated(k) && Terminated(k')
    requires var m := MatchLen(key, k); m < |key| && m < |k| && NoTerm(k[..m])
    ensures var m := MatchLen(key, k);
            Lookup(Fork(k[..m], key[m], Shorten(key, m, next), k[m], Leaf(k[m + 1..], v)), k') ==
            if k' == k then Some(v) else Lookup(DigestOf(ExtendEnc(key, next)), k')
  {
    var m := MatchLen(key, k);
    ForkLookup(k[..m], key[m], Shorten(key, m, next), k[m], Leaf(k[m + 1..], v), k');
    SplitAt(k, m);
    Joined(k[..m], k[m], k[m + 1..], k');
    assert key[..m] == k[..m];
    ShortenLookup(key, m, next, k');
    if !(k[..m] <= k') {
    } else if k'[m] == key[m] {
    } else if k'[m] == k[m] {
    } else {
    }
  }

  lemma ShortenLookup(key: Key, m: nat, next: Digest, k: Key)
    requires m < |key|
    ensures Lookup(DigestOf(ExtendEnc(key, next)), k) ==
            if key[..m] <= k && m < |k| && k[m] == key[m] then Lookup(Shorten(key, m, next), k[m + 1..]) else None
  {
    SplitAt(key, m);
    if key[..m] <= k && m < |k| && k[m] == key[m] {
      assert k[..m] == key[..m];
      SplitAt(k, m);
      var r, kr := key[m + 1..], k[m + 1..];
      assert key <= k <==> r <= kr;
      assert key <= k ==> kr[|r|..] == k[|key|..];
      assert r == [] ==> kr[0..] == kr;
    }
  }

  // ----- deletion -----

  predicate Sole(cs: seq<Digest>, p: Nibble) {
    p < |cs| && cs[p] != EmptyDigest && forall i :: 0 <= i < |cs| && i != p ==> cs[i] == EmptyDigest
  }

  predicate Inhabited(cs: seq<Digest>) {
    exists i :: 0 <= i < |cs| && cs[i] != EmptyDigest
  }

  predicate IsBranch(d: Digest) { d.DigestOf? && d.node.BranchEnc? }

  /** What deletion relies on: a branch has a child, and if it has only one, that child is
      a branch again. Deletion does not merge such a pair, so the shape is not canonical. */
  ghost predicate Reduced(d: Digest) {
    match d
    case EmptyDigest => true
    case DigestOf(LeafEnc(_, _)) => true
    case DigestOf(ExtendEnc(_, next)) => Reduced(next)
    case DigestOf(BranchEnc(_)) =>
      && Inhabited(d.node.children)
      && (forall p: Nibble :: Sole(d.node.children, p) ==> IsBranch(d.node.children[p]))
      && forall i :: 0 <= i < |d.node.children| ==> Reduced(d.node.children[i])
  }

  /** Move the nibble of an only child that is a leaf or an extend node into that child. */
  function Absorb(p: Nibble, child: Digest): Digest
    requires child != EmptyDigest && !IsBranch(child)
  {
    match child.node
    case LeafEnc(key, v) => Leaf([p] + key, v)
    case ExtendEnc(key, next) => DigestOf(ExtendEnc([p] + key, next))
  }

  ghost predicate Collapses(cs: seq<Digest>) {
    exists p: Nibble :: Sole(cs, p) && !IsBranch(cs[p])
  }

  ghost function Collapse(cs: seq<Digest>): Digest
    requires |cs| == NUM_BRANCH_NODES
  {
    if Collapses(cs) then
      var p: Nibble :| Sole(cs, p) && !IsBranch(cs[p]);
      Absorb(p, cs[p])
    else DigestOf(BranchEnc(cs))
  }

  datatype Deletion = Deletion(found: bool, rest: Digest)

  ghost function Delete(d: Digest, k: Key, end: bool): Deletion
    requires WF(d, end) && Rest(k, end)
    decreases d
  {
    match d
    case EmptyDigest => Deletion(false, EmptyDigest)
    case DigestOf(LeafEnc(key, _)) =>
      if MatchLen(k, key) == |key| then Deletion(true, EmptyDigest) else Deletion(false, d)
    case DigestOf(ExtendEnc(key, next)) =>
      if MatchLen(k, key) != |key| then Deletion(false, d)
      else
        TermTail(k, |key|);
        var r := Delete(next, k[|key|..], false);
        if !r.found then Deletion(false, d)
        else if r.rest == EmptyDigest then Deletion(true, EmptyDigest)
        else Deletion(true, DigestOf(ExtendEnc(key, r.rest)))
    case DigestOf(BranchEnc(cs)) =>
      TermIsLast(k, 0);
      var r := Delete(cs[k[0]], k[1..], k[0] == TERM);
      var cs' := cs[k[0] := r.rest];
      Deletion(r.found || Collapses(cs'), Collapse(cs'))
  }

  lemma AbsorbLookup(p: Nibble, child: Digest, k: Key)
    requires child != EmptyDigest && !IsBranch(child)
    ensures Lookup(Absorb(p, child), k) == if k != [] && k[0] == p then Lookup(child, k[1..]) else None
  {
    if k != [] {
      assert k == [k[0]] + k[1..];
      assert forall key: Key :: [p] + key <= k <==> k[0] == p && key <= k[1..];
      assert forall key: Key :: [p] + key <= k ==> k[1..][|key|..] == k[|[p] + key|..];
    }
  }

  /** Collapsing a branch keeps its meaning and the invariants. */
  lemma CollapseKeeps(cs: seq<Digest>, k: Key)
    requires WF(DigestOf(BranchEnc(cs)), false) && Inhabited(cs) && Terminated(k)
    requires forall i :: 0 <= i < |cs| ==> Reduced(cs[i])
    ensures Lookup(Collapse(cs), k) == Lookup(DigestOf(BranchEnc(cs)), k)
    ensures WF(Collapse(cs), false) && Reduced(Collapse(cs)) && Collapse(cs) != EmptyDigest
  {
    if Collapses(cs) {
      var p: Nibble :| Sole(cs, p) && !IsBranch(cs[p]) && Collapse(cs) == Absorb(p, cs[p]);
      AbsorbLookup(p, cs[p], k);
      AbsorbWF(p, cs[p]);
      assert cs[k[0]] == EmptyDigest || k[0] == p;
    }
  }

  lemma AbsorbWF(p: Nibble, child: Digest)
    requires child != EmptyDigest && !IsBranch(child) && WF(child, p == TERM) && Reduced(child)
    ensures WF(Absorb(p, child), false) && Reduced(Absorb(p, child))
  {
    match child.node
    case LeafEnc(key, v) => assert ([p] + key)[|key|] == if key == [] then p else key[|key| - 1];
    case ExtendEnc(key, next) =>
  }

  /** Deletion reports a key exactly when it is present, then removes it and no other key;
      otherwise the trie is unchanged. */
  lemma {:induction false} DeleteSpec(d: Digest, k: Key, end: bool, k': Key)
    requires WF(d, end) && Reduced(d) && Rest(k, end) && Rest(k', end)
    ensures var r := Delete(d, k, end);
            && r.found == Lookup(d, k).Some?
            && (!r.found ==> r.rest == d)
            && (IsBranch(d) ==> r.rest != EmptyDigest)
            && WF(r.rest, end) && Reduced(r.rest)
            && Lookup(r.rest, k') == if k' == k then None else Lookup(d, k')
    decreases d
  {
    match d
    case EmptyDigest =>
    case DigestOf(LeafEnc(key, _)) => PrefixIsMatch(key, k, end);
    case DigestOf(ExtendEnc(key, next)) => DeleteExtend(d, k, k');
    case DigestOf(BranchEnc(cs)) => DeleteBranch(d, k, k');
  }

  lemma PrefixIsMatch(key: Key, k: Key, end: bool)
    requires Rest(key, end) && Rest(k, end)
    ensures MatchLen(k, key) == |key| <==> key == k
  {
    if MatchLen(k, key) == |key| {
      assert key <= k;
      PrefixFree(key, k, end);
    }
  }

  lemma MatchIsPrefix(k: Key, key: Key)
    ensures MatchLen(k, key) == |key| <==> key <= k
  {
    assert key <= k ==> k[..|key|] == key;
    assert MatchLen(k, key) == |key| ==> k[..|key|] == key[..|key|] == key;
  }

  lemma {:induction false} DeleteExtend(d: Digest, k: Key, k': Key)
    requires WF(d, false) && Reduced(d) && d.DigestOf? && d.node.ExtendEnc? && Terminated(k) && Terminated(k')
    ensures var r := Delete(d, k, false);
            && r.found == Lookup(d, k).Some?
            && (!r.found ==> r.rest == d)
            && WF(r.rest, false) && Reduced(r.rest)
            && Lookup(r.rest, k') == if k' == k then None else Lookup(d, k')
    decreases d, 0
  {
    var key, next := d.node.key, d.node.next;
    var m := |key|;
    MatchIsPrefix(k, key);
    MatchIsPrefix(k', key);
    if key <= k {
      assert k[..m] == key;
      TermTail(k, m);
      PrefixTail(key, k, k');
      if key <= k' {
        assert k'[..m] == key;
        TermTail(k', m);
        DeleteSpec(next, k[m..], false, k'[m..]);
      } else {
        DeleteSpec(next, k[m..], false, k[m..]);
      }
    }
  }

  lemma {:induction false} DeleteBranch(d: Digest, k: Key, k': Key)
    requires WF(d, false) && Reduced(d) && IsBranch(d) && Terminated(k) && Terminated(k')
    ensures var r := Delete(d, k, false);
            && r.found == Lookup(d, k).Some?
            && (!r.found ==> r.rest == d)
            && r.rest != EmptyDigest
            && WF(r.rest, false) && Reduced(r.rest)
            && Lookup(r.rest, k') == if k' == k then None else Lookup(d, k')
    decreases d, 0
  {
    var cs := d.node.children;
    TermIsLast(k, 0);
    TermIsLast(k', 0);
    var h, t, e := k[0], k[1..], k[0] == TERM;
    DeleteSpec(cs[h], t, e, if k'[0] == h then k'[1..] else t);
    var r := Delete(cs[h], t, e);
    ReplaceCollapse(cs, h, r.rest, k');
    HeadTail(k, k');
    assert !r.found ==> cs[h := r.rest] == cs;
  }

  lemma ReplaceCollapse(cs: seq<Digest>, h: Nibble, c: Digest, k: Key)
    requires WF(DigestOf(BranchEnc(cs)), false) && Reduced(DigestOf(BranchEnc(cs)))
    requires WF(c, h == TERM) && Reduced(c) && (IsBranch(cs[h]) ==> c != EmptyDigest)
    requires Terminated(k)
    ensures !Collapses(cs)
    ensures var d := Collapse(cs[h := c]);
            && WF(d, false) && Reduced(d) && d != EmptyDigest
            && Lookup(d, k) == if k[0] == h then Lookup(c, k[1..]) else Lookup(DigestOf(BranchEnc(cs)), k)
  {
    var cs' := cs[h := c];
    StillInhabited(cs, h, c);
    ReplaceChildWF(cs, h, c);
    assert forall i :: 0 <= i < |cs'| ==> Reduced(cs'[i]);
    CollapseKeeps(cs', k);
  }

  lemma StillInhabited(cs: seq<Digest>, h: Nibble, c: Digest)
    requires |cs| == NUM_BRANCH_NODES && Inhabited(cs)
    requires forall p: Nibble :: Sole(cs, p) ==> IsBranch(cs[p])
    requires IsBranch(cs[h]) ==> c != EmptyDigest
    ensures Inhabited(cs[h := c])
  {
    var cs' := cs[h := c];
    if c != EmptyDigest {
      assert cs'[h] != EmptyDigest;
    } else {
      assert !Sole(cs, h);
      var i :| 0 <= i < |cs| && cs[i] != EmptyDigest && i != h;
      assert cs'[i] != EmptyDigest;
    }
  }
}
