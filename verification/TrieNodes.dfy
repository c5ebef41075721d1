/** The mutable nodes of trie/trie.go and trie/node.go: objects that `Put`,
    `Delete`, `Get` and `Commit` update in place, children may be hash nodes that are
    loaded from the database on demand, and every node has a cached hash and a dirty flag.

    `Rep(n, S, d, db, log)` ties the nodes reachable from `n` to the digest `d` they stand
    for. */
module TrieNodes {
  import opened Basics
  import opened Blocks
  import opened Patricia

  /** Database contents under the prefix of one trie: node hash to encoded node. */
  type Store = map<Digest, Encoding>

  datatype Noder =
    | NilNode
    | HashNode(hash: Digest)
    | LeafRef(leaf: LeafNode)
    | ExtendRef(ext: ExtendNode)
    | BranchRef(branch: BranchNode)

  class LeafNode {
    var hash: Digest
    var dirty: bool
    var key: Key
    var value: Value
    constructor (key: Key, value: Value, hash: Digest, dirty: bool)
      ensures this.key == key && this.value == value && this.hash == hash && this.dirty == dirty
    {
      this.key, this.value, this.hash, this.dirty := key, value, hash, dirty;
    }
  }

  class ExtendNode {
    var hash: Digest
    var dirty: bool
    var key: Key
    var next: Noder
    ghost var part: set<object>  // the objects of the subtree below
    constructor (key: Key, next: Noder, ghost part: set<object>, hash: Digest, dirty: bool)
      ensures this.key == key && this.next == next && this.part == part && this.hash == hash && this.dirty == dirty
    {
      this.key, this.next, this.part, this.hash, this.dirty := key, next, part, hash, dirty;
    }

    /** Put another subtree below this node. */
    method SetNext(n: Noder, modified: bool, ghost T: set<object>, ghost S: set<object>,
                   ghost d: Digest, ghost db: Store, ghost log: Store)
      requires this in S && this !in T && Rep(n, T, d, db, log)
      requires !modified ==> CleanOk(dirty, hash, DigestOf(ExtendEnc(key, d)), log)
      modifies this`next, this`part, this`dirty
      ensures Rep(ExtendRef(this), S + T, DigestOf(ExtendEnc(key, d)), db, log)
      ensures dirty == (old(dirty) || modified)
    {
      next := n;
      part := T;
      if modified { dirty := true; }
    }
  }

  class BranchNode {
    var hash: Digest
    var dirty: bool
    var children: seq<Noder>
    ghost var parts: seq<set<object>>  // the objects of each child's subtree
    constructor (children: seq<Noder>, ghost parts: seq<set<object>>, hash: Digest, dirty: bool)
      ensures this.children == children && this.parts == parts && this.hash == hash && this.dirty == dirty
    {
      this.children, this.parts, this.hash, this.dirty := children, parts, hash, dirty;
    }

    /** Everything `Rep` asks of a branch except that its cached hash is right. */
    ghost predicate Children(S: set<object>, cs: seq<Digest>, db: Store, log: Store)
      reads this, S
    {
      && |cs| == |children| == |parts| == NUM_BRANCH_NODES
      && Disjoint(parts)
      && (forall i :: 0 <= i < NUM_BRANCH_NODES ==> parts[i] <= S && this !in parts[i])
      && (forall i :: 0 <= i < NUM_BRANCH_NODES ==> Rep(children[i], parts[i], cs[i], db, log))
    }

    /** Replace one child by a subtree made of its old objects and new ones. */
    method SetChild(k: Nibble, child: Noder, ghost T: set<object>, ghost S: set<object>,
                    ghost cs: seq<Digest>, ghost c: Digest, ghost db: Store, ghost log: Store)
      requires |cs| == |children| == |parts| == NUM_BRANCH_NODES && Disjoint(parts)
      requires forall i :: 0 <= i < NUM_BRANCH_NODES ==> parts[i] <= S && this !in parts[i]
      requires forall i :: 0 <= i < NUM_BRANCH_NODES && i != k ==> Rep(children[i], parts[i], cs[i], db, log)
      requires Rep(child, T, c, db, log) && this !in T
      requires forall i :: 0 <= i < NUM_BRANCH_NODES && i != k ==> T !! parts[i]
      modifies this`children, this`parts
      ensures children == old(children)[k := child] && parts == old(parts)[k := T]
      ensures Children(S + T, cs[k := c], db, log)
    {
      children := children[k := child];
      parts := parts[k := T];
    }
  }

  /** The node `d` and everything below it is stored under its hash. */
  ghost predicate Stored(db: Store, d: Digest)
  {
    match d
    case EmptyDigest => true
    case DigestOf(LeafEnc(_, _)) => d in db && db[d] == d.node
    case DigestOf(ExtendEnc(_, next)) => d in db && db[d] == d.node && Stored(db, next)
    case DigestOf(BranchEnc(_)) =>
      && d in db && db[d] == d.node
      && forall i :: 0 <= i < |d.node.children| ==> Stored(db, d.node.children[i])
  }

  predicate Disjoint(parts: seq<set<object>>) {
    forall i, j :: 0 <= i < j < |parts| ==> parts[i] !! parts[j]
  }

  /** A clean node carries its hash, and its whole subtree is in `log`, the database
      together with the batches written so far. */
  ghost predicate CleanOk(dirty: bool, hash: Digest, d: Digest, log: Store) {
    dirty || (hash == d && Stored(log, d))
  }

  /** The objects in `S` reachable from `n` represent the trie `d`. */
  ghost predicate Rep(n: Noder, S: set<object>, d: Digest, db: Store, log: Store)
    reads S
    decreases d
  {
    match n
    case NilNode => d == EmptyDigest
    case HashNode(h) => d == h && h != EmptyDigest && Stored(db, h) && Stored(log, h)
    case LeafRef(l) => l in S && d == Leaf(l.key, l.value) && CleanOk(l.dirty, l.hash, d, log)
    case ExtendRef(e) =>
      && e in S && d.DigestOf? && d.node.ExtendEnc? && e.key == d.node.key && e.part <= S - {e}
      && Rep(e.next, e.part, d.node.next, db, log) && CleanOk(e.dirty, e.hash, d, log)
    case BranchRef(b) =>
      && b in S && IsBranch(d) && |d.node.children| == NUM_BRANCH_NODES
      && |b.children| == |b.parts| == NUM_BRANCH_NODES
      && Disjoint(b.parts)
      && (forall i :: 0 <= i < NUM_BRANCH_NODES ==> b.parts[i] <= S - {b})
      && (forall i :: 0 <= i < NUM_BRANCH_NODES ==>
            Rep(b.children[i], b.parts[i], d.node.children[i], db, log))
      && CleanOk(b.dirty, b.hash, d, log)
  }

  lemma RepEmpty(n: Noder, S: set<object>, d: Digest, db: Store, log: Store)
    requires Rep(n, S, d, db, log)
    ensures n == NilNode <==> d == EmptyDigest
  {}

  /** matchkeyLen: length of the common prefix of two keys. */
  method MatchKeyLen(a: Key, b: Key) returns (i: nat)
    ensures i == MatchLen(a, b)
  {
    var length := |a|;
    if |b| < length { length := |b|; }
    i := 0;
    while i < length
      invariant 0 <= i <= length
      invariant a[..i] == b[..i]
    {
      if a[i] != b[i] { break; }
      i := i + 1;
    }
    MatchLenUnique(a, b, i);
  }

  lemma MatchLenUnique(a: Key, b: Key, m: nat)
    requires m <= |a| && m <= |b| && a[..m] == b[..m]
    requires m < |a| && m < |b| ==> a[m] != b[m]
    ensures m == MatchLen(a, b)
  {
    var n := MatchLen(a, b);
    assert forall i :: 0 <= i < n ==> a[i] == a[..n][i] && b[i] == b[..n][i];
    assert forall i :: 0 <= i < m ==> a[i] == a[..m][i] && b[i] == b[..m][i];
  }

  /** decodeNode: children come back as hash nodes, absent children as nil. */
  function Decoded(d: Digest): Noder {
    if d == EmptyDigest then NilNode else HashNode(d)
  }

  /** loadNode: read a node by its hash; fails when the database has no such entry. */
  method LoadNode(db: Store, h: Digest, ghost end: bool, ghost log: Store)
    returns (ok: bool, n: Noder, ghost S: set<object>)
    ensures ok <==> h in db
    ensures ok && Stored(db, h) && Stored(log, h) && WF(h, end) && h != EmptyDigest
            ==> Rep(n, S, h, db, log) && !n.NilNode? && !n.HashNode?
    ensures fresh(S)
  {
    n, S := NilNode, {};
    ok := h in db;
    if ok {
      match db[h]
      case LeafEnc(key, value) =>
        var l := new LeafNode(key, value, h, false);
        n, S := LeafRef(l), {l};
      case ExtendEnc(key, next) =>
        var e := new ExtendNode(key, HashNode(next), {}, h, false);
        n, S := ExtendRef(e), {e};
      case BranchEnc(cs) =>
        var children := seq(|cs|, i requires 0 <= i < |cs| => Decoded(cs[i]));
        var b := new BranchNode(children, seq(|cs|, _ => {}), h, false);
        n, S := BranchRef(b), {b};
    }
  }

  // ----- insertion -----

  /** insert (trie/trie.go:186): the tree below `n` is updated in place and becomes the
      insertion of `key` into the trie it stood for. */
  method Insert(n: Noder, key: Key, value: Value, db: Store,
                ghost end: bool, ghost S: set<object>, ghost d: Digest, ghost log: Store)
    returns (dirty: bool, n': Noder, ghost S': set<object>)
    requires Rep(n, S, d, db, log) && WF(d, end) && Rest(key, end)
    modifies S
    ensures Rep(n', S', Put(d, key, value, end), db, log) && dirty && !n'.HashNode?
    ensures fresh(S' - S)
    decreases |key|, if n.HashNode? then 3 else 2
  {
    match n
    case NilNode =>
      var l := new LeafNode(key, value, EmptyDigest, true);
      dirty, n', S' := true, LeafRef(l), {l};
    case HashNode(h) =>
      var ok, loaded, T := LoadNode(db, h, end, log);
      dirty, n', S' := Insert(loaded, key, value, db, end, T, d, log);
    case LeafRef(l) =>
      dirty, n', S' := InsertLeaf(l, key, value, db, end, S, d, log);
    case ExtendRef(e) =>
      dirty, n', S' := InsertExtend(e, key, value, db, S, d, log);
    case BranchRef(b) =>
      dirty, n', S' := InsertBranch(b, key, value, db, S, d, log);
  }

  method InsertBranch(b: BranchNode, key: Key, value: Value, db: Store,
                      ghost S: set<object>, ghost d: Digest, ghost log: Store)
    returns (dirty: bool, n': Noder, ghost S': set<object>)
    requires Rep(BranchRef(b), S, d, db, log) && WF(d, false) && Terminated(key)
    modifies S
    ensures Rep(n', S', Put(d, key, value, false), db, log) && dirty && !n'.HashNode?
    ensures fresh(S' - S)
    decreases |key|, 0
  {
    TermIsLast(key, 0);
    var k := key[0];
    ghost var cs, part := d.node.children, b.parts[k];
    var _, child, T := Insert(b.children[k], key[1..], value, db, k == TERM, part, cs[k], log);
    b.SetChild(k, child, T, S, cs, Put(cs[k], key[1..], value, k == TERM), db, log);
    b.dirty := true;
    dirty, n', S' := true, BranchRef(b), S + T;
  }

  /** insertLeafNode (trie/trie.go:265) */
  method InsertLeaf(l: LeafNode, key: Key, value: Value, db: Store,
                    ghost end: bool, ghost S: set<object>, ghost d: Digest, ghost log: Store)
    returns (dirty: bool, n': Noder, ghost S': set<object>)
    requires Rep(LeafRef(l), S, d, db, log) && WF(d, end) && Rest(key, end)
    modifies S
    ensures Rep(n', S', Put(d, key, value, end), db, log) && dirty && !n'.HashNode?
    ensures fresh(S' - S)
  {
    var m := MatchKeyLen(l.key, key);
    if m == |l.key| {
      l.value := value;
      l.dirty := true;
      return true, LeafRef(l), S;
    }
    MatchBelow(l.key, key, end);
    var pos := l.key[m];
    l.key := l.key[m + 1..];
    l.dirty := true;
    dirty, n', S' := AddFork(key, m, pos, LeafRef(l), {l}, Leaf(l.key, l.value), value, db, log);
  }

  /** insertExtentNode (trie/trie.go:221) */
  method InsertExtend(e: ExtendNode, key: Key, value: Value, db: Store,
                      ghost S: set<object>, ghost d: Digest, ghost log: Store)
    returns (dirty: bool, n': Noder, ghost S': set<object>)
    requires Rep(ExtendRef(e), S, d, db, log) && WF(d, false) && Terminated(key)
    modifies S
    ensures Rep(n', S', Put(d, key, value, false), db, log) && dirty && !n'.HashNode?
    ensures fresh(S' - S)
    decreases |key|, 0
  {
    var m := MatchKeyLen(e.key, key);
    if m == |e.key| {
      TermTail(key, m);
      var below, next, T := Insert(e.next, key[m..], value, db, false, e.part, d.node.next, log);
      e.SetNext(next, below, T, S, Put(d.node.next, key[m..], value, false), db, log);
      return e.dirty, ExtendRef(e), S + T;
    }
    MatchExtend(e.key, key);
    dirty, n', S' := SplitExtend(e, m, key, value, db, S, d, log);
  }

  method SplitExtend(e: ExtendNode, m: nat, key: Key, value: Value, db: Store,
                     ghost S: set<object>, ghost d: Digest, ghost log: Store)
    returns (dirty: bool, n': Noder, ghost S': set<object>)
    requires Rep(ExtendRef(e), S, d, db, log)
    requires m < |d.node.key| && m < |key| && d.node.key[m] != key[m]
    modifies e
    ensures Rep(n', S', Fork(key[..m], d.node.key[m], Shorten(d.node.key, m, d.node.next),
                             key[m], Leaf(key[m + 1..], value)), db, log)
    ensures dirty && !n'.HashNode? && fresh(S' - S)
  {
    var pos := e.key[m];
    if m != |e.key| - 1 {
      e.key := e.key[m + 1..];
      e.dirty := true;
      dirty, n', S' := AddFork(key, m, pos, ExtendRef(e), S, Shorten(d.node.key, m, d.node.next), value, db, log);
    } else {
      dirty, n', S' := AddFork(key, m, pos, e.next, e.part, d.node.next, value, db, log);
    }
  }

  /** The common tail of both: a new branch holding the old subtree and a new leaf, below a
      new extend node when nibbles are shared. */
  method AddFork(key: Key, m: nat, pos: Nibble, sub: Noder, ghost T: set<object>, ghost x: Digest,
                 value: Value, db: Store, ghost log: Store)
    returns (dirty: bool, n': Noder, ghost S': set<object>)
    requires m < |key| && pos != key[m] && Rep(sub, T, x, db, log)
    ensures Rep(n', S', Fork(key[..m], pos, x, key[m], Leaf(key[m + 1..], value)), db, log)
    ensures dirty && !n'.HashNode? && fresh(S' - T)
  {
    dirty := true;
    n', S' := NewBranch(key[m + 1..], value, pos, key[m], sub, T, x, db, log);
    if m != 0 {
      var e := new ExtendNode(key[..m], n', S', EmptyDigest, true);
      n', S' := ExtendRef(e), S' + {e};
    }
  }

  method NewBranch(rest: Key, value: Value, i: Nibble, j: Nibble, sub: Noder,
                   ghost T: set<object>, ghost x: Digest, ghost db: Store, ghost log: Store)
    returns (n': Noder, ghost S': set<object>)
    requires i != j && Rep(sub, T, x, db, log)
    ensures Rep(n', S', DigestOf(BranchEnc(NoChildren()[i := x][j := Leaf(rest, value)])), db, log)
    ensures n'.BranchRef? && fresh(S' - T)
  {
    var l := new LeafNode(rest, value, EmptyDigest, true);
    assert Rep(LeafRef(l), {l}, Leaf(rest, value), db, log);
    var children: seq<Noder> := seq(NUM_BRANCH_NODES, _ => NilNode)[i := sub][j := LeafRef(l)];
    ghost var parts: seq<set<object>> := seq(NUM_BRANCH_NODES, _ => {})[i := T][j := {l}];
    var b := new BranchNode(children, parts, EmptyDigest, true);
    assert b.Children(T + {l}, NoChildren()[i := x][j := Leaf(rest, value)], db, log);
    n', S' := BranchRef(b), T + {l, b};
  }

  // ----- lookup -----

  function Found(o: Option<Value>): Value { match o case Some(v) => v case None => [] }

  /** get (trie/trie.go:495): the value below `n`, empty when the key is absent. Hash nodes
      on the way are replaced by the nodes they name, which leaves the trie the same. */
  method GetNode(n: Noder, key: Key, pos: nat, db: Store,
                 ghost end: bool, ghost S: set<object>, ghost d: Digest, ghost log: Store)
    returns (value: Value, n': Noder, ghost S': set<object>)
    requires pos <= |key| && Rep(n, S, d, db, log) && WF(d, end) && Rest(key[pos..], end)
    modifies S
    ensures value == Found(Lookup(d, key[pos..]))
    ensures Rep(n', S', d, db, log) && fresh(S' - S)
    ensures !n.HashNode? ==> n' == n
    decreases |key| - pos, if n.HashNode? then 2 else 1
  {
    match n
    case NilNode =>
      return [], n, S;
    case HashNode(h) =>
      var ok, child, T := LoadNode(db, h, end, log);
      value, n', S' := GetNode(child, key, pos, db, end, T, d, log);
    case LeafRef(l) =>
      value, n', S' := [], n, S;
      MatchIsPrefix(key[pos..], l.key);
      PrefixIsMatch(l.key, key[pos..], end);
      if |l.key| <= |key| - pos && l.key == key[pos..pos + |l.key|] {
        assert l.key <= key[pos..];
        value := l.value;
      }
    case ExtendRef(e) =>
      value, S' := GetExtend(e, key, pos, db, S, d, log);
      n' := n;
    case BranchRef(b) =>
      value, S' := GetBranch(b, key, pos, db, S, d, log);
      n' := n;
  }

  method GetExtend(e: ExtendNode, key: Key, pos: nat, db: Store,
                   ghost S: set<object>, ghost d: Digest, ghost log: Store)
    returns (value: Value, ghost S': set<object>)
    requires pos <= |key| && Rep(ExtendRef(e), S, d, db, log) && WF(d, false) && Terminated(key[pos..])
    modifies S
    ensures value == Found(Lookup(d, key[pos..]))
    ensures Rep(ExtendRef(e), S', d, db, log) && fresh(S' - S)
    decreases |key| - pos, 0
  {
    if |key| - pos < |e.key| || e.key != key[pos..pos + |e.key|] {
      assert !(e.key <= key[pos..]);
      return [], S;
    }
    ghost var rest := key[pos..];
    var p := pos + |e.key|;
    assert rest[..|e.key|] == e.key && key[p..] == rest[|e.key|..];
    TermTail(rest, |e.key|);
    var v, next, T := GetNode(e.next, key, p, db, false, e.part, d.node.next, log);
    e.SetNext(next, false, T, S, d.node.next, db, log);
    value, S' := v, S + T;
  }

  method GetBranch(b: BranchNode, key: Key, pos: nat, db: Store,
                   ghost S: set<object>, ghost d: Digest, ghost log: Store)
    returns (value: Value, ghost S': set<object>)
    requires pos <= |key| && Rep(BranchRef(b), S, d, db, log) && WF(d, false) && Terminated(key[pos..])
    modifies S
    ensures value == Found(Lookup(d, key[pos..]))
    ensures Rep(BranchRef(b), S', d, db, log) && fresh(S' - S)
    decreases |key| - pos, 0
  {
    var k := key[pos];
    TermIsLast(key[pos..], 0);
    assert key[pos + 1..] == key[pos..][1..];
    ghost var cs := d.node.children;
    var v, child, T := GetNode(b.children[k], key, pos + 1, db, k == TERM, b.parts[k], cs[k], log);
    b.SetChild(k, child, T, S, cs, cs[k], db, log);
    assert cs[k := cs[k]] == cs;
    value, S' := v, S + T;
  }

  // ----- deletion -----

  predicate SoleNode(children: seq<Noder>, p: int) {
    0 <= p < |children| && !children[p].NilNode? &&
    forall i :: 0 <= i < |children| && i != p ==> children[i].NilNode?
  }

  /** The scan of trie/trie.go:331-338. */
  method CountChildren(children: seq<Noder>) returns (pos: int, count: nat)
    ensures count == 1 ==> SoleNode(children, pos)
    ensures count != 1 ==> forall p :: !SoleNode(children, p)
  {
    pos, count := -1, 0;
    ghost var first := -1;
    for i := 0 to |children|
      invariant -1 <= pos < i && count <= i
      invariant count == 0 ==> forall j :: 0 <= j < i ==> children[j].NilNode?
      invariant count == 1 ==> SoleNode(children[..i], pos)
      invariant count >= 2 ==> 0 <= first < pos && !children[first].NilNode? && !children[pos].NilNode?
    {
      if !children[i].NilNode? {
        first := pos;
        pos := i;
        count := count + 1;
      }
    }
    assert children[..|children|] == children;
  }

  lemma CollapseOne(cs: seq<Digest>, p: Nibble)
    requires |cs| == NUM_BRANCH_NODES && Sole(cs, p)
    ensures Collapses(cs) == !IsBranch(cs[p])
    ensures !IsBranch(cs[p]) ==> Collapse(cs) == Absorb(p, cs[p])
  {
    assert forall q: Nibble :: Sole(cs, q) ==> q == p;
  }

  lemma DeleteKeeps(d: Digest, k: Key, end: bool)
    requires WF(d, end) && Reduced(d) && Rest(k, end)
    ensures WF(Delete(d, k, end).rest, end)
    ensures !Delete(d, k, end).found ==> Delete(d, k, end).rest == d
  {
    DeleteSpec(d, k, end, k);
  }

  /** delete (trie/trie.go:301): the subtree without the key, and whether it was there. */
  method DeleteNode(n: Noder, key: Key, db: Store,
                    ghost end: bool, ghost S: set<object>, ghost d: Digest, ghost log: Store)
    returns (found: bool, n': Noder, ghost S': set<object>)
    requires Rep(n, S, d, db, log) && WF(d, end) && Reduced(d) && Rest(key, end)
    modifies S
    ensures found == Delete(d, key, end).found
    ensures Rep(n', S', Delete(d, key, end).rest, db, log) && fresh(S' - S)
    ensures !n'.HashNode? && (!found && !n.HashNode? ==> n' == n)
    decreases |key|, if n.HashNode? then 3 else 2
  {
    match n
    case NilNode =>
      return false, NilNode, S;
    case HashNode(h) =>
      var ok, loaded, T := LoadNode(db, h, end, log);
      found, n', S' := DeleteNode(loaded, key, db, end, T, d, log);
    case LeafRef(l) =>
      var m := MatchKeyLen(key, l.key);
      if m == |l.key| { return true, NilNode, S; }
      return false, n, S;
    case ExtendRef(e) =>
      found, n', S' := DeleteExtendNode(e, key, db, S, d, log);
    case BranchRef(b) =>
      found, n', S' := DeleteBranchNode(b, key, db, S, d, log);
  }

  method DeleteExtendNode(e: ExtendNode, key: Key, db: Store,
                          ghost S: set<object>, ghost d: Digest, ghost log: Store)
    returns (found: bool, n': Noder, ghost S': set<object>)
    requires Rep(ExtendRef(e), S, d, db, log) && WF(d, false) && Reduced(d) && Terminated(key)
    modifies S
    ensures found == Delete(d, key, false).found
    ensures Rep(n', S', Delete(d, key, false).rest, db, log) && fresh(S' - S)
    ensures !n'.HashNode? && (!found ==> n' == ExtendRef(e))
    decreases |key|, 0
  {
    var m := MatchKeyLen(key, e.key);
    if m != |e.key| { return false, ExtendRef(e), S; }
    TermTail(key, m);
    ghost var r := Delete(d.node.next, key[m..], false);
    DeleteKeeps(d.node.next, key[m..], false);
    var below, next, T := DeleteNode(e.next, key[m..], db, false, e.part, d.node.next, log);
    RepEmpty(next, T, r.rest, db, log);
    if !below {
      e.part := T;
      return false, ExtendRef(e), S + T;
    }
    e.SetNext(next, true, T, S, r.rest, db, log);
    if next.NilNode? { return true, NilNode, S; }
    return true, ExtendRef(e), S + T;
  }

  method DeleteBranchNode(b: BranchNode, key: Key, db: Store,
                          ghost S: set<object>, ghost d: Digest, ghost log: Store)
    returns (found: bool, n': Noder, ghost S': set<object>)
    requires Rep(BranchRef(b), S, d, db, log) && WF(d, false) && Reduced(d) && Terminated(key)
    modifies S
    ensures found == Delete(d, key, false).found
    ensures Rep(n', S', Delete(d, key, false).rest, db, log) && fresh(S' - S)
    ensures !n'.HashNode? && (!found ==> n' == BranchRef(b))
    decreases |key|, 1
  {
    TermIsLast(key, 0);
    ghost var cs, k := d.node.children, key[0];
    DeleteKeeps(cs[k], key[1..], k == TERM);
    ghost var c := Delete(cs[k], key[1..], k == TERM).rest;
    ReplaceChildWF(cs, k, c);
    var below, T := DeleteInChild(b, key, db, S - {b}, cs, log);
    assert !below ==> cs[k := c] == cs;
    found, n', S' := CollapseNode(b, below, db, S - {b} + T, cs[k := c], log);
  }

  method DeleteInChild(b: BranchNode, key: Key, db: Store,
                       ghost S: set<object>, ghost cs: seq<Digest>, ghost log: Store)
    returns (below: bool, ghost T: set<object>)
    requires b !in S && b.Children(S, cs, db, log) && Terminated(key) && Rest(key[1..], key[0] == TERM)
    requires WF(cs[key[0]], key[0] == TERM) && Reduced(cs[key[0]])
    modifies S, b
    ensures b.hash == old(b.hash) && b.dirty == (old(b.dirty) || below)
    ensures below == Delete(cs[key[0]], key[1..], key[0] == TERM).found
    ensures b.Children(S + T, cs[key[0] := Delete(cs[key[0]], key[1..], key[0] == TERM).rest], db, log)
    ensures fresh(T - S) && b !in T
    decreases |key|, 0
  {
    var k := key[0];
    var found, child, U := DeleteNode(b.children[k], key[1..], db, k == TERM, b.parts[k], cs[k], log);
    b.SetChild(k, child, U, S, cs, Delete(cs[k], key[1..], k == TERM).rest, db, log);
    if found { b.dirty := true; }
    below, T := found, U;
  }

  /** trie/trie.go:331-372: a branch left with a single leaf or extend child becomes that
      child, with the nibble of the branch in front of its key. */
  method CollapseNode(b: BranchNode, below: bool, db: Store,
                      ghost S: set<object>, ghost cs: seq<Digest>, ghost log: Store)
    returns (found: bool, n': Noder, ghost S': set<object>)
    requires b !in S && b.Children(S, cs, db, log) && WF(DigestOf(BranchEnc(cs)), false)
    requires CleanOk(b.dirty, b.hash, DigestOf(BranchEnc(cs)), log)
    ensures found == (below || Collapses(cs))
    ensures Rep(n', S', Collapse(cs), db, log) && fresh(S' - S - {b})
    ensures !n'.HashNode? && (!found ==> n' == BranchRef(b))
  {
    found, n', S' := below, BranchRef(b), S + {b};
    var pos, count := CountChildren(b.children);
    forall p: Nibble ensures Sole(cs, p) == SoleNode(b.children, p) { SameSole(b, S, cs, db, log, p); }
    if count == 1 {
      CollapseOne(cs, pos);
      var child := b.children[pos];
      ghost var T := b.parts[pos];
      if child.HashNode? {
        var ok, loaded, U := LoadNode(db, child.hash, pos == TERM, log);
        child, T := loaded, U;
      }
      if child.LeafRef? {
        var l := new LeafNode([pos] + child.leaf.key, child.leaf.value, EmptyDigest, true);
        return true, LeafRef(l), {l};
      } else if child.ExtendRef? {
        var e := new ExtendNode([pos] + child.ext.key, child.ext.next, child.ext.part, EmptyDigest, true);
        return true, ExtendRef(e), T + {e};
      }
    }
  }

  lemma SameSole(b: BranchNode, S: set<object>, cs: seq<Digest>, db: Store, log: Store, p: Nibble)
    requires b.Children(S, cs, db, log)
    ensures Sole(cs, p) == SoleNode(b.children, p)
  {
    forall i | 0 <= i < NUM_BRANCH_NODES ensures b.children[i].NilNode? <==> cs[i] == EmptyDigest {
      RepEmpty(b.children[i], b.parts[i], cs[i], db, log);
    }
  }

  // ----- hashing and commit -----

  class Batch {
    var puts: Store
    constructor ()
      ensures puts == map[]
    {
      puts := map[];
    }
    method Put(h: Digest, e: Encoding)
      modifies this
      ensures puts == old(puts)[h := e]
    {
      puts := puts[h := e];
    }
  }

  /** `log'` still has every node that `log` stores under its own hash. */
  ghost predicate Extends(log: Store, log': Store) {
    forall h :: h in log && h == DigestOf(log[h]) ==> h in log' && log'[h] == log[h]
  }

  lemma {:induction false} StoredMono(log: Store, log': Store, d: Digest)
    requires Extends(log, log') && Stored(log, d)
    ensures Stored(log', d)
    decreases d
  {
    match d
    case EmptyDigest =>
    case DigestOf(LeafEnc(_, _)) =>
    case DigestOf(ExtendEnc(_, next)) => StoredMono(log, log', next);
    case DigestOf(BranchEnc(cs)) =>
      forall i | 0 <= i < |cs| ensures Stored(log', cs[i]) { StoredMono(log, log', cs[i]); }
  }

  /** The representation survives a growing database. */
  lemma {:induction false} RepMono(n: Noder, S: set<object>, d: Digest, db: Store, log: Store, db': Store, log': Store)
    requires Rep(n, S, d, db, log) && Extends(db, db') && Extends(log, log')
    ensures Rep(n, S, d, db', log')
    decreases d
  {
    match n
    case NilNode =>
    case HashNode(h) => StoredMono(db, db', h); StoredMono(log, log', h);
    case LeafRef(l) => if !l.dirty { StoredMono(log, log', d); }
    case ExtendRef(e) =>
      if !e.dirty { StoredMono(log, log', d); }
      RepMono(e.next, e.part, d.node.next, db, log, db', log');
    case BranchRef(b) =>
      if !b.dirty { StoredMono(log, log', d); }
      forall i | 0 <= i < NUM_BRANCH_NODES
        ensures Rep(b.children[i], b.parts[i], d.node.children[i], db', log')
      {
        RepMono(b.children[i], b.parts[i], d.node.children[i], db, log, db', log');
      }
  }

  /** Every entry sits under its own hash. */
  ghost predicate Honest(db: Store) {
    forall h :: h in db ==> h == DigestOf(db[h])
  }

  /** What writing nodes does to a batch: honest entries are added, none is lost. */
  ghost predicate Grown(puts: Store, puts': Store) {
    puts.Keys <= puts'.Keys && (Honest(puts) ==> Honest(puts'))
  }

  ghost function Log(base: Store, batch: Batch?): Store
    reads batch
  {
    if batch == null then base else base + batch.puts
  }

  /** hash (trie/trie.go:119): the hash of the subtree. With a batch, every dirty node is
      written to it and becomes clean; without, only the cached hashes change. */
  method HashNodes(n: Noder, batch: Batch?, ghost S: set<object>, ghost d: Digest, ghost db: Store, ghost base: Store)
    returns (h: Digest)
    requires Rep(n, S, d, db, Log(base, batch)) && batch !in S
    modifies S, batch
    ensures h == d
    ensures Rep(n, S, d, db, Log(base, batch)) && Extends(old(Log(base, batch)), Log(base, batch))
    ensures batch != null ==> Stored(Log(base, batch), d) && Grown(old(batch.puts), batch.puts)
    decreases d, 1
  {
    match n
    case NilNode => return EmptyDigest;
    case HashNode(g) => return g;
    case LeafRef(l) =>
      if !l.dirty { return l.hash; }
      var e := LeafEnc(l.key, l.value);
      h := DigestOf(e);
      if batch != null {
        batch.Put(h, e);
        l.dirty := false;
      }
      l.hash := h;
    case ExtendRef(e) =>
      if !e.dirty { return e.hash; }
      h := HashExtend(e, batch, S, d, db, base);
    case BranchRef(b) =>
      if !b.dirty { return b.hash; }
      h := HashBranch(b, batch, S, d, db, base);
  }

  method HashExtend(e: ExtendNode, batch: Batch?,
                    ghost S: set<object>, ghost d: Digest, ghost db: Store, ghost base: Store)
    returns (h: Digest)
    requires Rep(ExtendRef(e), S, d, db, Log(base, batch)) && batch !in S && e.dirty
    modifies S, batch
    ensures h == d
    ensures Rep(ExtendRef(e), S, d, db, Log(base, batch)) && Extends(old(Log(base, batch)), Log(base, batch))
    ensures batch != null ==> Stored(Log(base, batch), d) && Grown(old(batch.puts), batch.puts)
    decreases d, 0
  {
    var next := HashNodes(e.next, batch, e.part, d.node.next, db, base);
    h := WriteExtend(e, next, batch, S, d, db, base);
  }

  method WriteExtend(e: ExtendNode, next: Digest, batch: Batch?,
                     ghost S: set<object>, ghost d: Digest, ghost db: Store, ghost base: Store)
    returns (h: Digest)
    requires Rep(ExtendRef(e), S, d, db, Log(base, batch)) && batch !in S && e.dirty && next == d.node.next
    requires batch != null ==> Stored(Log(base, batch), next)
    modifies e`dirty, e`hash, batch
    ensures h == d
    ensures Rep(ExtendRef(e), S, d, db, Log(base, batch)) && Extends(old(Log(base, batch)), Log(base, batch))
    ensures batch != null ==> Stored(Log(base, batch), d) && Grown(old(batch.puts), batch.puts)
  {
    var enc := ExtendEnc(e.key, next);
    h := DigestOf(enc);
    ghost var log := Log(base, batch);
    if batch != null {
      batch.Put(h, enc);
      e.dirty := false;
      StoredMono(log, Log(base, batch), next);
    }
    RepMono(e.next, e.part, next, db, log, db, Log(base, batch));
    e.hash := h;
  }

  method HashBranch(b: BranchNode, batch: Batch?,
                    ghost S: set<object>, ghost d: Digest, ghost db: Store, ghost base: Store)
    returns (h: Digest)
    requires Rep(BranchRef(b), S, d, db, Log(base, batch)) && batch !in S && b.dirty
    modifies S, batch
    ensures h == d
    ensures Rep(BranchRef(b), S, d, db, Log(base, batch)) && Extends(old(Log(base, batch)), Log(base, batch))
    ensures batch != null ==> Stored(Log(base, batch), d) && Grown(old(batch.puts), batch.puts)
    decreases d, 0
  {
    var hashes := HashChildren(b, batch, S - {b}, d.node.children, db, base);
    h := WriteBranch(b, hashes, batch, S, d, db, base);
  }

  method WriteBranch(b: BranchNode, hashes: seq<Digest>, batch: Batch?,
                     ghost S: set<object>, ghost d: Digest, ghost db: Store, ghost base: Store)
    returns (h: Digest)
    requires Rep(BranchRef(b), S, d, db, Log(base, batch)) && batch !in S && b.dirty && hashes == d.node.children
    requires batch != null ==> forall i :: 0 <= i < NUM_BRANCH_NODES ==> Stored(Log(base, batch), hashes[i])
    modifies b`dirty, b`hash, batch
    ensures h == d
    ensures Rep(BranchRef(b), S, d, db, Log(base, batch)) && Extends(old(Log(base, batch)), Log(base, batch))
    ensures batch != null ==> Stored(Log(base, batch), d) && Grown(old(batch.puts), batch.puts)
  {
    var enc := BranchEnc(hashes);
    h := DigestOf(enc);
    ghost var log := Log(base, batch);
    if batch != null {
      batch.Put(h, enc);
      b.dirty := false;
    }
    LiftAll(b, S - {b}, hashes, db, log, Log(base, batch));
    b.hash := h;
  }

  method HashChildren(b: BranchNode, batch: Batch?,
                      ghost S: set<object>, ghost cs: seq<Digest>, ghost db: Store, ghost base: Store)
    returns (hashes: seq<Digest>)
    requires b.Children(S, cs, db, Log(base, batch)) && batch !in S && b !in S
    modifies S, batch
    ensures hashes == cs && b.Children(S, cs, db, Log(base, batch))
    ensures Extends(old(Log(base, batch)), Log(base, batch))
    ensures batch != null ==> forall i :: 0 <= i < NUM_BRANCH_NODES ==> Stored(Log(base, batch), cs[i])
    ensures batch != null ==> Grown(old(batch.puts), batch.puts)
    decreases cs
  {
    hashes := [];
    for i := 0 to NUM_BRANCH_NODES
      invariant hashes == cs[..i]
      invariant b.children == old(b.children) && b.parts == old(b.parts)
      invariant b.Children(S, cs, db, Log(base, batch))
      invariant Extends(old(Log(base, batch)), Log(base, batch))
      invariant batch != null ==> forall j :: 0 <= j < i ==> Stored(Log(base, batch), cs[j])
      invariant batch != null ==> Grown(old(batch.puts), batch.puts)
    {
      ghost var log := Log(base, batch);
      var h := HashNodes(b.children[i], batch, b.parts[i], cs[i], db, base);
      LiftChildren(b, i, S, cs, db, log, Log(base, batch));
      if batch != null {
        forall j | 0 <= j < i ensures Stored(Log(base, batch), cs[j]) { StoredMono(log, Log(base, batch), cs[j]); }
      }
      hashes := hashes + [h];
    }
  }

  lemma LiftAll(b: BranchNode, S: set<object>, cs: seq<Digest>, db: Store, log: Store, log': Store)
    requires b.Children(S, cs, db, log) && Extends(log, log')
    ensures b.Children(S, cs, db, log')
    ensures forall i :: 0 <= i < NUM_BRANCH_NODES && Stored(log, cs[i]) ==> Stored(log', cs[i])
  {
    forall i | 0 <= i < NUM_BRANCH_NODES ensures Rep(b.children[i], b.parts[i], cs[i], db, log') {
      RepMono(b.children[i], b.parts[i], cs[i], db, log, db, log');
    }
    forall i | 0 <= i < NUM_BRANCH_NODES && Stored(log, cs[i]) ensures Stored(log', cs[i]) {
      StoredMono(log, log', cs[i]);
    }
  }

  /** Children other than the `k`-th carry over to the grown log. */
  lemma LiftChildren(b: BranchNode, k: Nibble, S: set<object>, cs: seq<Digest>, db: Store, log: Store, log': Store)
    requires |cs| == |b.children| == |b.parts| == NUM_BRANCH_NODES && Disjoint(b.parts)
    requires forall i :: 0 <= i < NUM_BRANCH_NODES ==> b.parts[i] <= S && b !in b.parts[i]
    requires forall i :: 0 <= i < NUM_BRANCH_NODES && i != k ==> Rep(b.children[i], b.parts[i], cs[i], db, log)
    requires Rep(b.children[k], b.parts[k], cs[k], db, log') && Extends(log, log')
    ensures b.Children(S, cs, db, log')
  {
    forall i | 0 <= i < NUM_BRANCH_NODES ensures Rep(b.children[i], b.parts[i], cs[i], db, log') {
      if i != k { RepMono(b.children[i], b.parts[i], cs[i], db, log, db, log'); }
    }
  }
}
