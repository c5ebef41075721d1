/** The block store (core/store/db_store.go) and the index from heights to block hashes. */
module ChainStore {
  import opened Basics
  import opened Blocks

  // ----- chains of headers -----

  /** `h` is a chain of headers with consecutive heights down to the genesis block. */
  predicate Chained(h: Hash, genesis: Hash) {
    h.HashOf? &&
    if h.header.height == 0 then h == genesis
    else h.header.prev.HashOf? && h.header.prev.header.height + 1 == h.header.height && Chained(h.header.prev, genesis)
  }

  function Height(h: Hash): nat { if h.HashOf? then h.header.height else 0 }

  /** The ancestor of `h` at height `n`; `h` itself is its own ancestor. */
  function Ancestor(h: Hash, n: nat): Hash {
    if h.EmptyHash? || h.header.height <= n then h else Ancestor(h.header.prev, n)
  }

  lemma {:induction false} AncestorChained(h: Hash, genesis: Hash, n: nat)
    requires Chained(h, genesis) && n <= Height(h)
    ensures Chained(Ancestor(h, n), genesis) && Height(Ancestor(h, n)) == n
    ensures Chained(genesis, genesis) && Height(genesis) == 0 && Ancestor(h, 0) == genesis
  {
    if h.header.height == 0 {
    } else if h.header.height == n {
      AncestorChained(h.header.prev, genesis, n - 1);
    } else {
      AncestorChained(h.header.prev, genesis, n);
    }
  }

  lemma {:induction false} AncestorTrans(h: Hash, n: nat, m: nat)
    requires m <= n
    ensures Ancestor(h, m) == Ancestor(Ancestor(h, n), m)
  {
    if h.HashOf? && h.header.height > n { AncestorTrans(h.header.prev, n, m); }
  }

  /** Two chains that agree at a height agree at every lower height. */
  lemma {:induction false} AgreeBelow(a: Hash, b: Hash, n: nat, m: nat)
    requires Ancestor(a, n) == Ancestor(b, n) && m <= n
    ensures Ancestor(a, m) == Ancestor(b, m)
  {
    AncestorTrans(a, n, m);
    AncestorTrans(b, n, m);
  }

  // ----- the store -----

  type Index = map<nat, Hash>

  /** The index is exactly the chain of `head`: one entry per height up to it, none above. */
  ghost predicate Canonical(index: Index, head: Hash) {
    forall n: nat :: (n in index <==> n <= Height(head)) && (n in index ==> index[n] == Ancestor(head, n))
  }

  /** Stored headers sit under their hash and form chains to the genesis block, total
      difficulties add up along them, and the index is the chain of the HEAD block. */
  ghost predicate StoreOk(headers: map<Hash, Header>, tds: map<Hash, int>, index: Index, head: Hash, genesis: Hash) {
    && Closed(headers, genesis) && head in headers
    && headers.Keys == tds.Keys
    && (forall h {:trigger TdStep(tds, h)} :: h in headers && h != genesis ==> TdStep(tds, h))
    && Canonical(index, head)
  }

  /** Exactly the blocks `hs` are stamped, with times before `clock`. */
  ghost predicate Stamped(stamp: map<Hash, nat>, clock: nat, hs: set<Hash>) {
    stamp.Keys == hs && forall h :: h in stamp ==> stamp[h] < clock
  }

  function Stamp(stamp: map<Hash, nat>, clock: nat, h: Hash): map<Hash, nat> {
    if h in stamp then stamp else stamp[h := clock]
  }

  class BlockStore {
    var headers: map<Hash, Header>
    var tds: map<Hash, int>
    var index: Index
    var head: Hash
    ghost const genesis: Hash
    ghost var stamp: map<Hash, nat>   // when each block was first stored
    ghost var clock: nat

    ghost predicate Valid()
      reads this
    {
      StoreOk(headers, tds, index, head, genesis) && Stamped(stamp, clock, headers.Keys)
    }

    /** The store of a new chain: only the genesis block (core/genesis.go:77). */
    constructor (g: Header)
      requires g.height == 0
      ensures Valid() && head == genesis == HashOf(g)
      ensures headers == map[genesis := g] && tds == map[genesis := g.difficulty]
      ensures stamp == map[genesis := 0] && clock == 1
    {
      var h := HashOf(g);
      genesis, head, stamp, clock := h, h, map[h := 0], 1;
      headers, tds, index := map[h := g], map[h := g.difficulty], map[0 := h];
      new;
      assert HeaderOk(headers, genesis, h);
    }

    function GetBlockHash(height: nat): Option<Hash>
      reads this
    {
      if height in index then Some(index[height]) else None
    }

    method DeleteBlockHash(height: nat) returns (deleted: bool)
      modifies this`index
      ensures deleted == (height in old(index)) && index == old(index) - {height}
    {
      deleted := height in index;
      index := index - {height};
    }

    /** putBlockInternal: header, total difficulty and, for a new HEAD, its index entry and
        the HEAD pointer, in one batch. */
    method PutBlock(hash: Hash, header: Header, td: int, isHead: bool)
      modifies this
      ensures headers == old(headers)[hash := header] && tds == old(tds)[hash := td]
      ensures if isHead then index == old(index)[header.height := hash] && head == hash
              else index == old(index) && head == old(head)
      ensures stamp == Stamp(old(stamp), old(clock), hash) && clock == old(clock) + 1
    {
      stamp, clock := Stamp(stamp, clock, hash), clock + 1;
      headers, tds := headers[hash := header], tds[hash := td];
      if isHead { index, head := index[header.height := hash], hash; }
    }

    /** updateHashByHeight (core/blockchain.go:349): make the index agree with the ancestors
        of the new HEAD block. It fails, and changes nothing, exactly when the parent is
        higher than the stored HEAD. */
    method UpdateHashByHeight(block: Hash) returns (ok: bool)
      requires Valid() && Chained(block, genesis) && block != genesis && block.header.prev in headers
      modifies this`index
      ensures ok == (Height(block.header.prev) <= Height(head))
      ensures !ok ==> index == old(index)
      ensures ok ==> forall n: nat :: n < Height(block) ==> n in index && index[n] == Ancestor(block, n)
      ensures ok ==> forall n: nat :: n > Height(block) ==> n !in index
    {
      assert HeaderOk(headers, genesis, head);
      DeleteAbove(Height(block));
      ok := Overwrite(block);
    }

    /** The first loop: delete the entries above `height` up to the first missing one. */
    method DeleteAbove(height: nat)
      requires Canonical(index, head)
      modifies this`index
      ensures forall n: nat :: n in index <==> n in old(index) && n <= height
      ensures forall n: nat :: n in index ==> index[n] == old(index)[n]
    {
      var i, deleted := height + 1, true;
      while deleted
        invariant height < i && (!deleted ==> i !in old(index))
        invariant forall n: nat :: n in index <==> n in old(index) && (n <= height || i <= n)
        invariant forall n: nat :: n in index ==> index[n] == old(index)[n]
        decreases Height(head) + 1 - i, deleted
      {
        deleted := DeleteBlockHash(i);
        if deleted { i := i + 1; }
      }
      assert forall n: nat :: i <= n ==> n !in old(index);
    }

    /** The second loop: overwrite stale entries down to the first matching one. */
    method Overwrite(block: Hash) returns (ok: bool)
      requires Closed(headers, genesis) && head in headers
      requires Chained(block, genesis) && block != genesis && block.header.prev in headers
      requires forall n: nat :: n in index <==> n <= Height(head) && n <= Height(block)
      requires forall n: nat :: n in index ==> index[n] == Ancestor(head, n)
      modifies this`index
      ensures ok == (Height(block.header.prev) <= Height(head))
      ensures !ok ==> index == old(index)
      ensures ok ==> index.Keys == old(index).Keys
      ensures ok ==> forall n: nat :: n < Height(block) ==> n in index && index[n] == Ancestor(block, n)
    {
      var headerHash := block.header.prev;
      assert HeaderOk(headers, genesis, head) && HeaderOk(headers, genesis, headerHash);
      ghost var top: nat, i: nat := Height(block), Height(headerHash);
      AncestorChained(head, genesis, 0);
      while headerHash != EmptyHash
        invariant i < top && headerHash == Ancestor(block, i) && headerHash in headers && Height(headerHash) == i
        invariant headerHash.HashOf?
        invariant index.Keys == old(index).Keys && (i < top - 1 ==> top - 1 in index)
        invariant i == top - 1 ==> index == old(index)
        invariant Spliced(index, block, head, i)
        decreases i
      {
        assert HeaderOk(headers, genesis, headerHash);
        var header := headers[headerHash];
        var canonicalHash := GetBlockHash(header.height);
        if canonicalHash.None? { return false; }
        assert canonicalHash.value == index[i] == Ancestor(head, i);
        if headerHash == canonicalHash.value { break; }
        ParentStep(block, genesis, i);
        SpliceMore(index, block, head, i);
        index := index[header.height := headerHash];
        assert HeaderOk(headers, genesis, header.prev);
        headerHash, i := header.prev, i - 1;
      }
      ok := true;
      SpliceDone(index, block, head, i);
    }
  }

  /** Above `i` the index follows `block`, up to `i` it still follows `head`. */
  ghost predicate Spliced(index: Index, block: Hash, head: Hash, i: int) {
    forall n: nat :: n in index ==> index[n] == if i < n < Height(block) then Ancestor(block, n) else Ancestor(head, n)
  }

  lemma SpliceMore(index: Index, block: Hash, head: Hash, i: nat)
    requires Spliced(index, block, head, i) && i < Height(block)
    ensures Spliced(index[i := Ancestor(block, i)], block, head, i - 1)
  {}

  lemma SpliceDone(index: Index, block: Hash, head: Hash, i: nat)
    requires Spliced(index, block, head, i) && Ancestor(block, i) == Ancestor(head, i)
    ensures forall n: nat :: n in index && n < Height(block) ==> index[n] == Ancestor(block, n)
  {
    forall n: nat | n in index && n < Height(block) ensures index[n] == Ancestor(block, n) {
      if n <= i { AgreeBelow(block, head, i, n); }
    }
  }

  /** Headers stored under their hash, together with all their ancestors. */
  ghost predicate Closed(headers: map<Hash, Header>, genesis: Hash) {
    && genesis in headers && Height(genesis) == 0
    && (forall h {:trigger HeaderOk(headers, genesis, h)} :: h in headers ==> HeaderOk(headers, genesis, h))
  }

  predicate HeaderOk(headers: map<Hash, Header>, genesis: Hash, h: Hash) {
    h in headers && Chained(h, genesis) && headers[h] == h.header && (h != genesis ==> h.header.prev in headers)
  }

  /** The total difficulty of `h` is that of its parent plus its own. */
  predicate TdStep(tds: map<Hash, int>, h: Hash) {
    h.HashOf? && h in tds && h.header.prev in tds && tds[h] == tds[h.header.prev] + h.header.difficulty
  }

  /** A validated block extends the chain of its stored parent. */
  lemma ChildChained(headers: map<Hash, Header>, genesis: Hash, header: Header)
    requires Closed(headers, genesis) && header.prev in headers && header.height == Height(header.prev) + 1
    ensures Chained(HashOf(header), genesis) && HashOf(header) != genesis
  {
    assert HeaderOk(headers, genesis, header.prev);
  }

  /** Adding a child of a stored block, with its index and HEAD pointer brought up to date,
      keeps the store consistent. */
  lemma StoreExtends(headers: map<Hash, Header>, tds: map<Hash, int>, index: Index, head: Hash, genesis: Hash,
                     header: Header, index': Index, head': Hash)
    requires StoreOk(headers, tds, index, head, genesis)
    requires header.prev in headers && header.height == Height(header.prev) + 1
    requires head' in headers || head' == HashOf(header)
    requires Canonical(index', head')
    ensures StoreOk(headers[HashOf(header) := header],
                    tds[HashOf(header) := tds[header.prev] + header.difficulty], index', head', genesis)
  {
    var b := HashOf(header);
    var headers', tds' := headers[b := header], tds[b := tds[header.prev] + header.difficulty];
    ChildChained(headers, genesis, header);
    assert b in headers ==> TdStep(tds, b);
    forall h | h in headers' ensures HeaderOk(headers', genesis, h) && (h != genesis ==> TdStep(tds', h)) {
      if h in headers {
        assert HeaderOk(headers, genesis, h);
        if h != genesis { assert TdStep(tds, h); }
      }
    }
  }

  lemma ParentStep(block: Hash, genesis: Hash, i: nat)
    requires Chained(block, genesis) && i <= Height(block)
    ensures Chained(Ancestor(block, i), genesis) && Height(Ancestor(block, i)) == i
    ensures i == 0 ==> Ancestor(block, i) == genesis
    ensures i > 0 ==> Ancestor(block, i) != genesis && Ancestor(block, i).header.prev == Ancestor(block, i - 1)
  {
    AncestorChained(block, genesis, i);
    if i > 0 { AncestorTrans(block, i, i - 1); }
  }
}
