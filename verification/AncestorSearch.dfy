/** The search for the common ancestor of the local chain and a peer's chain
    (seele/download/downloader.go), against a peer that serves its canonical headers. */
module AncestorSearch {
  import opened Basics
  import opened Blocks
  import opened ChainStore

  const MAX_FORK_ANCESTRY: nat := 90000
  const MAX_HEADER_FETCH: nat := 256

  datatype Search = Found(height: nat) | MaxForkAncestor | NoReply | HashNotFound

  /** The two chains have the same block at height `n`. */
  predicate Common(local: Hash, peer: Hash, n: nat) {
    Ancestor(local, n) == Ancestor(peer, n)
  }

  /** How many heights the search may look at, from `top` down. */
  function Window(top: nat): nat {
    if top >= MAX_FORK_ANCESTRY then MAX_FORK_ANCESTRY else top + 1
  }

  /** The server's answer to a reverse header request (seele/seeleprotocol.go): the canonical
      headers from `number` down, or no answer if one is missing. */
  method ServeReverse(store: BlockStore, number: nat, amount: nat) returns (reply: Option<seq<Header>>)
    requires store.Valid()
    ensures reply.Some? <==> amount == 0 || (number <= Height(store.head) && amount <= number + 1)
    ensures reply.Some? ==> |reply.value| == amount
    ensures reply.Some? ==> forall i :: 0 <= i < amount ==>
      HashOf(reply.value[i]) == Ancestor(store.head, number - i) && reply.value[i].height == number - i
  {
    var headers: seq<Header> := [];
    for cnt := 0 to amount
      invariant |headers| == cnt && (cnt > 0 ==> number <= Height(store.head) && cnt <= number + 1)
      invariant forall i :: 0 <= i < cnt ==>
        HashOf(headers[i]) == Ancestor(store.head, number - i) && headers[i].height == number - i
    {
      if cnt > number { return None; }
      var hash := store.GetBlockHash(number - cnt);
      if hash.None? || hash.value !in store.headers {
        CanonicalStored(store, number - cnt);
        return None;
      }
      CanonicalStored(store, number - cnt);
      headers := headers + [store.headers[hash.value]];
    }
    reply := Some(headers);
  }

  /** Exactly the heights up to HEAD are indexed, each by a stored ancestor of HEAD. */
  lemma CanonicalStored(store: BlockStore, n: nat)
    requires store.Valid()
    ensures n in store.index <==> n <= Height(store.head)
    ensures n in store.index ==>
      && store.index[n] == Ancestor(store.head, n) && store.index[n] in store.headers
      && store.index[n] == HashOf(store.headers[store.index[n]]) && store.headers[store.index[n]].height == n
  {
    assert HeaderOk(store.headers, store.genesis, store.head);
    if n <= Height(store.head) {
      AncestorStored(store.headers, store.genesis, store.head, n);
      assert HeaderOk(store.headers, store.genesis, store.index[n]);
    }
  }

  lemma {:induction false} AncestorStored(headers: map<Hash, Header>, genesis: Hash, h: Hash, n: nat)
    requires Closed(headers, genesis) && h in headers && n <= Height(h)
    ensures Ancestor(h, n) in headers && Height(Ancestor(h, n)) == n
    decreases h
  {
    assert HeaderOk(headers, genesis, h);
    if n < Height(h) { AncestorStored(headers, genesis, h.header.prev, n); }
  }

  /** No block in common above `low`, up to `high`. */
  ghost predicate Differ(local: Hash, peer: Hash, low: int, high: nat) {
    forall n: nat :: low < n <= high ==> !Common(local, peer, n)
  }

  /** The answer the search is for: the greatest common height in the window below `top`, or the
      fork limit if there is none. */
  ghost predicate Correct(local: Hash, peer: Hash, top: nat, r: Search) {
    match r
    case Found(h) => top - Window(top) < h <= top && Common(local, peer, h) && Differ(local, peer, h, top)
    case MaxForkAncestor => Differ(local, peer, top - Window(top), top)
    case NoReply => false
    case HashNotFound => false
  }

  function Top(localHeight: nat, height: nat): nat {
    if localHeight <= height then localHeight else height
  }

  /** findCommonAncestorHeight. It only errs if a height is above its chain's HEAD, and only
      a top height of 0 goes uncompared. */
  method FindCommonAncestorHeight(local: BlockStore, peer: BlockStore, localHeight: nat, height: nat)
    returns (r: Search)
    requires local.Valid() && peer.Valid()
    ensures Top(localHeight, height) == 0 ==> r == Found(0)
    ensures Top(localHeight, height) > 0 && (r.Found? || r.MaxForkAncestor?)
            ==> Correct(local.head, peer.head, Top(localHeight, height), r)
    ensures localHeight <= Height(local.head) && height <= Height(peer.head) ==> r.Found? || r.MaxForkAncestor?
  {
    var top := Top(localHeight, height);
    if top == 0 { return Found(0); }
    var cmpCount := 0;
    while true
      invariant cmpCount <= Window(top) && Differ(local.head, peer.head, top - cmpCount, top)
      decreases Window(top) - cmpCount
    {
      var localTop := top - cmpCount;
      var fetchCount := if Window(top) - cmpCount >= MAX_HEADER_FETCH then MAX_HEADER_FETCH else Window(top) - cmpCount;
      if fetchCount == 0 { return MaxForkAncestor; }
      var reply := ServeReverse(peer, localTop, fetchCount);
      if reply.None? { return NoReply; }
      var found := Compare(local, peer.head, reply.value, localTop);
      if found.Some? { return found.value; }
      cmpCount := cmpCount + |reply.value|;
    }
  }

  /** The inner loop: compare the headers received with the local chain. */
  method Compare(local: BlockStore, ghost peer: Hash, headers: seq<Header>, ghost start: nat)
    returns (r: Option<Search>)
    requires local.Valid() && |headers| <= start + 1
    requires forall i :: 0 <= i < |headers| ==>
      HashOf(headers[i]) == Ancestor(peer, start - i) && headers[i].height == start - i
    ensures r.None? ==> Differ(local.head, peer, start - |headers|, start)
    ensures r.Some? ==> r.value.Found? || r.value.HashNotFound?
    ensures r.Some? && r.value.Found? ==>
      && start - |headers| < r.value.height <= start
      && Common(local.head, peer, r.value.height) && Differ(local.head, peer, r.value.height, start)
    ensures r.Some? && r.value.HashNotFound? ==> start > Height(local.head)
  {
    for i := 0 to |headers|
      invariant Differ(local.head, peer, start - i, start)
    {
      var cmpHeight := headers[i].height;
      CanonicalStored(local, cmpHeight);
      var localHash := local.GetBlockHash(cmpHeight);
      if localHash.None? { return Some(HashNotFound); }
      if localHash.value == HashOf(headers[i]) { return Some(Found(cmpHeight)); }
    }
    r := None;
  }

  /** A correct answer names all common heights: they are exactly those up to it. */
  lemma FoundIsFork(local: Hash, peer: Hash, top: nat, h: nat, n: nat)
    requires Correct(local, peer, top, Found(h)) && n <= top
    ensures Common(local, peer, n) <==> n <= h
  {
    if n <= h { AgreeBelow(local, peer, h, n); }
  }

  /** Chains from one genesis block that fork less than 90000 blocks below the top are never
      refused, and a refusal means that they do not. */
  lemma RefusedIffDeepFork(local: Hash, peer: Hash, top: nat, r: Search)
    requires Correct(local, peer, top, r) && Common(local, peer, 0)
    ensures r == MaxForkAncestor <==> top >= MAX_FORK_ANCESTRY && !Common(local, peer, top - MAX_FORK_ANCESTRY + 1)
  {
    if r.MaxForkAncestor? {
    } else if top >= MAX_FORK_ANCESTRY {
      AgreeBelow(local, peer, r.height, top - MAX_FORK_ANCESTRY + 1);
    }
  }

  /** With top height 0 the answer is right exactly when the genesis blocks are the same. */
  lemma UncheckedGenesis(local: Hash, peer: Hash)
    ensures Correct(local, peer, 0, Found(0)) <==> Common(local, peer, 0)
  {
  }

  lemma GenesisMayDiffer() returns (local: Hash, peer: Hash)
    ensures Chained(local, local) && Chained(peer, peer) && Height(local) == Height(peer) == 0
    ensures !Correct(local, peer, 0, Found(0))
  {
    local := HashOf(Header(EmptyHash, 0, 1, EmptyDigest, [], 0));
    peer := HashOf(Header(EmptyHash, 0, 1, EmptyDigest, [], 1));
  }
}
