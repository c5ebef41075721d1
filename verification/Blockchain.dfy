/** Fork choice: the block leaves (core/block_index.go) and WriteBlock (core/blockchain.go). */
module Blockchain {
  import opened Basics
  import opened Blocks
  import opened ChainStore

  datatype BlockIndex = BlockIndex(hash: Hash, td: int)

  /** BlockLeaves: the tips of all known forks and the best of them. */
  class BlockLeaves {
    var indexes: map<Hash, BlockIndex>
    var best: Option<BlockIndex>

    constructor ()
      ensures indexes == map[] && best == None
    {
      indexes, best := map[], None;
    }

    method Add(index: BlockIndex)
      modifies this
      ensures indexes == old(indexes)[index.hash := index]
      ensures best == if old(best).None? || old(best).value.td < index.td then Some(index) else old(best)
    {
      indexes := indexes[index.hash := index];
      if best.None? || best.value.td < index.td { best := Some(index); }
    }

    method RemoveByHash(hash: Hash)
      modifies this
      ensures indexes == old(indexes) - {hash}
      ensures if hash in old(indexes) && old(best).Some? && old(best).value.hash == old(indexes)[hash].hash
              then IsMaximum(indexes, best) else best == old(best)
    {
      var found := hash in indexes;
      var index := if found then indexes[hash] else BlockIndex(hash, 0);
      indexes := indexes - {hash};
      if found && best.Some? && best.value.hash == index.hash { best := FindBestBlockIndex(); }
    }

    /** The leaf with the largest positive total difficulty, in some iteration order. */
    method FindBestBlockIndex() returns (result: Option<BlockIndex>)
      ensures IsMaximum(indexes, result)
    {
      var maxTD, rest := 0, indexes.Keys;
      result := None;
      while rest != {}
        invariant rest <= indexes.Keys && maxTD == if result.Some? then result.value.td else 0
        invariant result.Some? ==> result.value in indexes.Values && result.value.td > 0
        invariant forall h :: h in indexes && h !in rest ==> indexes[h].td <= maxTD
        decreases |rest|
      {
        var h :| h in rest;
        var index := indexes[h];
        if maxTD < index.td { maxTD, result := index.td, Some(index); }
        rest := rest - {h};
      }
    }

    method IsBestBlockIndex(td: int) returns (isBest: bool)
      ensures isBest <==> forall h :: h in indexes ==> indexes[h].td < td
    {
      var rest := indexes.Keys;
      while rest != {}
        invariant rest <= indexes.Keys
        invariant forall h :: h in indexes && h !in rest ==> indexes[h].td < td
        decreases |rest|
      {
        var h :| h in rest;
        if td <= indexes[h].td { return false; }
        rest := rest - {h};
      }
      return true;
    }
  }

  ghost predicate IsMaximum(indexes: map<Hash, BlockIndex>, best: Option<BlockIndex>) {
    if best.None? then forall h :: h in indexes ==> indexes[h].td <= 0
    else
      && best.value in indexes.Values && best.value.td > 0
      && forall h :: h in indexes ==> indexes[h].td <= best.value.td
  }

  /** A block as it is offered to WriteBlock. */
  datatype Outcome =
    | Written
    | AlreadyExists
    | InvalidParent
    | Rejected       // validation, transactions or state root
    | IndexLookup    // updateHashByHeight found no entry at the parent's height

  /** `head` has the largest total difficulty, and was stored before any block that has as
      much. */
  ghost predicate FirstBest(stamp: map<Hash, nat>, tds: map<Hash, int>, head: Hash) {
    && head in tds && stamp.Keys == tds.Keys
    && forall h :: h in tds && h != head ==> tds[h] < tds[head] || (tds[h] == tds[head] && stamp[head] < stamp[h])
  }

  /** One more block, or the same block again, keeps the first best one unless it is heavier. */
  lemma KeepsFirstBest(stamp: map<Hash, nat>, clock: nat, tds: map<Hash, int>, head: Hash, b: Hash, td: int)
    requires FirstBest(stamp, tds, head) && Stamped(stamp, clock, tds.Keys) && (b in tds ==> tds[b] == td)
    ensures FirstBest(Stamp(stamp, clock, b), tds[b := td], if td > tds[head] then b else head)
  {}

  /** The best leaf is the stored HEAD, every leaf is stored with its total difficulty, and
      HEAD was the first block to reach the largest one. */
  ghost predicate InSync(tds: map<Hash, int>, head: Hash, stamp: map<Hash, nat>,
                         indexes: map<Hash, BlockIndex>, best: Option<BlockIndex>) {
    && head in tds && best == Some(BlockIndex(head, tds[head])) && head in indexes
    && (forall h :: h in indexes ==> h in tds && indexes[h] == BlockIndex(h, tds[h]))
    && FirstBest(stamp, tds, head)
  }

  /** What WriteBlock does to the leaves: add the block, remove its parent. */
  ghost predicate LeavesStep(indexes: map<Hash, BlockIndex>, best: Option<BlockIndex>, index: BlockIndex, prev: Hash,
                             indexes': map<Hash, BlockIndex>, best': Option<BlockIndex>) {
    && indexes' == indexes[index.hash := index] - {prev}
    && var added := if best.None? || best.value.td < index.td then Some(index) else best;
       (!(prev in indexes && added.value.hash == indexes[prev].hash) ==> best' == added)
  }

  /** In a synchronised state the new block is best exactly when it is heavier than HEAD, and
      storing it accordingly keeps the state synchronised. */
  lemma StaysInSync(tds: map<Hash, int>, head: Hash, stamp: map<Hash, nat>, clock: nat, indexes: map<Hash, BlockIndex>,
                    best: Option<BlockIndex>, b: Hash, prev: Hash, td: int,
                    indexes': map<Hash, BlockIndex>, best': Option<BlockIndex>)
    requires InSync(tds, head, stamp, indexes, best) && Stamped(stamp, clock, tds.Keys)
    requires prev in tds && tds[prev] < td && b != prev && (b in tds ==> tds[b] == td)
    requires LeavesStep(indexes, best, BlockIndex(b, td), prev, indexes', best')
    ensures (forall h :: h in indexes ==> indexes[h].td < td) <==> td > tds[head]
    ensures InSync(tds[b := td], if td > tds[head] then b else head, Stamp(stamp, clock, b), indexes', best')
    ensures td > tds[head] ==> best' == Some(BlockIndex(b, td))
  {
    KeepsFirstBest(stamp, clock, tds, head, b, td);
    assert indexes[head].td == tds[head];
  }

  class Blockchain {
    const store: BlockStore
    const leaves: BlockLeaves
    ghost predicate Valid()
      reads this, store
    {
      store.Valid()
    }

    /** Memory and store agree. */
    ghost predicate Synced()
      reads this, store, leaves
    {
      Valid() && InSync(store.tds, store.head, store.stamp, leaves.indexes, leaves.best)
    }

    /** A heavier block whose parent is higher than the stored HEAD. */
    ghost predicate Overtakes(header: Header)
      reads store
    {
      header.prev in store.tds && store.head in store.tds &&
      store.tds[header.prev] + header.difficulty > store.tds[store.head] && Height(header.prev) > Height(store.head)
    }

    constructor (genesis: Header)
      requires genesis.height == 0
      ensures Synced() && fresh(store) && fresh(leaves) && store.genesis == store.head == HashOf(genesis)
      ensures store.headers == map[HashOf(genesis) := genesis]
      ensures store.tds == map[HashOf(genesis) := genesis.difficulty]
    {
      store := new BlockStore(genesis);
      leaves := new BlockLeaves();
      new;
      leaves.Add(BlockIndex(store.head, genesis.difficulty));
    }

    /** NewBlockchain on an existing store (core/blockchain.go:82): HEAD is the only leaf, whatever
        other forks are stored. Memory and store agree exactly if HEAD is the first best block. */
    constructor Open(store: BlockStore)
      requires store.Valid()
      ensures this.store == store && Valid() && fresh(leaves)
      ensures leaves.indexes == map[store.head := BlockIndex(store.head, store.tds[store.head])]
      ensures Synced() <==> FirstBest(store.stamp, store.tds, store.head)
    {
      this.store := store;
      leaves := new BlockLeaves();
      new;
      leaves.Add(BlockIndex(store.head, store.tds[store.head]));
    }

    /** WriteBlock (core/blockchain.go:155). The test for an existing block is made before
        the lock is taken, so the locked part may also meet a block that is stored by now. */
    method WriteBlock(block: Block) returns (r: Outcome)
      requires Valid() && block.header.difficulty > 0
      modifies store, leaves
      ensures Valid()
      ensures r != Written ==> Unchanged(old(store.headers), old(store.tds), old(store.index), old(store.head))
      ensures r == AlreadyExists <==> block.hash in old(store.headers)
      ensures r == Written ==> Extended(block, old(store.headers), old(store.tds), old(store.head))
      ensures old(Synced()) ==> (r == IndexLookup ==> old(Overtakes(block.header))) && (r != IndexLookup ==> Synced())
      ensures old(Synced()) && r == IndexLookup ==> !Synced()
      ensures old(Synced()) ==>
                (store.head != old(store.head) <==>
                 r == Written && store.tds[block.hash] > old(store.tds[store.head]))
    {
      if block.hash in store.headers { return AlreadyExists; }
      r := WriteLocked(block);
    }

    ghost predicate Unchanged(headers: map<Hash, Header>, tds: map<Hash, int>, index: Index, head: Hash)
      reads store
    {
      store.headers == headers && store.tds == tds && store.index == index && store.head == head
    }

    /** The block is stored with its total difficulty; HEAD is this block or the old HEAD. */
    ghost predicate Extended(block: Block, headers: map<Hash, Header>, tds: map<Hash, int>, head: Hash)
      reads store
    {
      && block.header.prev in tds && block.hash == HashOf(block.header)
      && store.headers == headers[block.hash := block.header]
      && store.tds == tds[block.hash := tds[block.header.prev] + block.header.difficulty]
      && (store.head == block.hash || store.head == head)
    }

    method WriteLocked(block: Block) returns (r: Outcome)
      requires Valid() && block.header.difficulty > 0
      modifies store, leaves
      ensures r != AlreadyExists
      ensures Valid()
      ensures r != Written ==> Unchanged(old(store.headers), old(store.tds), old(store.index), old(store.head))
      ensures r == Written ==> Extended(block, old(store.headers), old(store.tds), old(store.head))
      ensures old(Synced()) ==> (r == IndexLookup ==> old(Overtakes(block.header))) && (r != IndexLookup ==> Synced())
      ensures old(Synced()) && r == IndexLookup ==> !Synced()
      ensures old(Synced()) ==>
                (store.head != old(store.head) <==>
                 r == Written && store.tds[block.hash] > old(store.tds[store.head]))
    {
      var prev := block.header.prev;
      if prev !in store.headers { return InvalidParent; }
      assert HeaderOk(store.headers, store.genesis, prev);
      var valid := ValidateBlock(block, store.headers[prev]);
      var stateOk: bool := *;
      if !valid || !stateOk { return Rejected; }
      r := AddBlock(block);
    }

    /** The rest of WriteBlock, for a block that passed validation. In a synchronised state
        it fails exactly when the block overtakes a lower HEAD, which is also exactly when
        memory and store part; HEAD changes exactly when the block is heavier. */
    method AddBlock(block: Block) returns (r: Outcome)
      requires Valid() && Extends(block)
      modifies store, leaves
      ensures r == Written || r == IndexLookup
      ensures Valid()
      ensures r != Written ==> Unchanged(old(store.headers), old(store.tds), old(store.index), old(store.head))
      ensures r == Written ==> Extended(block, old(store.headers), old(store.tds), old(store.head))
      ensures old(Synced()) ==> (r == IndexLookup <==> old(Overtakes(block.header))) && (r == Written <==> Synced())
      ensures old(Synced()) ==>
                (store.head != old(store.head) <==>
                 r == Written && store.tds[block.hash] > old(store.tds[store.head]))
    {
      ghost var tds, head, stamp, clock := store.tds, store.head, store.stamp, store.clock;
      ghost var indexes, best := leaves.indexes, leaves.best;
      ghost var td := tds[block.header.prev] + block.header.difficulty;
      assert block.hash in store.headers ==> TdStep(store.tds, block.hash);
      ghost var wasSynced := Synced();
      var isHead;
      r, isHead := Insert(block);
      if wasSynced {
        StaysInSync(tds, head, stamp, clock, indexes, best,
                    block.hash, block.header.prev, td, leaves.indexes, leaves.best);
      }
    }

    /** A validated child of a stored block. */
    ghost predicate Extends(block: Block)
      reads store
    {
      && block.header.difficulty > 0 && block.header.prev in store.headers
      && block.hash == HashOf(block.header) && block.header.height == Height(block.header.prev) + 1
    }

    method Insert(block: Block) returns (r: Outcome, isHead: bool)
      requires Valid() && Extends(block)
      modifies store, leaves
      ensures r == if isHead && Height(block.header.prev) > Height(old(store.head)) then IndexLookup else Written
      ensures Valid()
      ensures r != Written ==> Unchanged(old(store.headers), old(store.tds), old(store.index), old(store.head))
      ensures r == Written ==> Extended(block, old(store.headers), old(store.tds), old(store.head))
      ensures store.head == if r == Written && isHead then block.hash else old(store.head)
      ensures store.stamp ==
              if r == Written then Stamp(old(store.stamp), old(store.clock), block.hash) else old(store.stamp)
      ensures var td := old(store.tds)[block.header.prev] + block.header.difficulty;
              && LeavesStep(old(leaves.indexes), old(leaves.best), BlockIndex(block.hash, td), block.header.prev,
                            leaves.indexes, leaves.best)
              && (isHead <==> forall h :: h in old(leaves.indexes) ==> old(leaves.indexes)[h].td < td)
    {
      var prev := block.header.prev;
      var td := store.tds[prev] + block.header.difficulty;
      isHead := UpdateLeaves(BlockIndex(block.hash, td), prev);
      var ok := StoreBlock(block, td, isHead);
      r := if ok then Written else IndexLookup;
    }

    /** core/blockchain.go:215-217 */
    method UpdateLeaves(index: BlockIndex, prev: Hash) returns (isHead: bool)
      requires index.hash != prev
      modifies leaves
      ensures isHead <==> forall h :: h in old(leaves.indexes) ==> old(leaves.indexes)[h].td < index.td
      ensures LeavesStep(old(leaves.indexes), old(leaves.best), index, prev, leaves.indexes, leaves.best)
    {
      isHead := leaves.IsBestBlockIndex(index.td);
      leaves.Add(index);
      leaves.RemoveByHash(prev);
    }

    /** core/blockchain.go:220-230: bring the index up to date for a new HEAD, then store the
        block. */
    method StoreBlock(block: Block, td: int, isHead: bool) returns (ok: bool)
      requires store.Valid() && block.header.prev in store.headers
      requires block.hash == HashOf(block.header) && block.header.height == Height(block.header.prev) + 1
      requires td == store.tds[block.header.prev] + block.header.difficulty
      modifies store
      ensures store.Valid()
      ensures ok == (isHead ==> Height(block.header.prev) <= Height(old(store.head)))
      ensures !ok ==> Unchanged(old(store.headers), old(store.tds), old(store.index), old(store.head))
      ensures ok ==> Extended(block, old(store.headers), old(store.tds), old(store.head))
      ensures ok ==> store.head == if isHead then block.hash else old(store.head)
      ensures store.stamp == if ok then Stamp(old(store.stamp), old(store.clock), block.hash) else old(store.stamp)
    {
      ChildChained(store.headers, store.genesis, block.header);
      if isHead {
        ok := store.UpdateHashByHeight(block.hash);
        if !ok { return; }
      }
      StoreExtends(old(store.headers), old(store.tds), old(store.index), old(store.head), store.genesis, block.header,
                   if isHead then store.index[block.header.height := block.hash] else store.index,
                   if isHead then block.hash else store.head);
      store.PutBlock(block.hash, block.header, td, isHead);
      ok := true;
    }

    /** validateBlock: the hash of the header, the height and the proof of work; whether the
        transactions match is arbitrary here. */
    static method ValidateBlock(block: Block, preHeader: Header) returns (ok: bool)
      requires block.header.difficulty > 0
      ensures ok ==> block.hash == HashOf(block.header) && block.header.height == preHeader.height + 1
    {
      var txsOk: bool, hashInt: nat := *, *;
      if block.hash != HashOf(block.header) || !txsOk { return false; }
      if block.header.height != preHeader.height + 1 { return false; }
      // ValidateHeader: the hash as a number must not exceed the mining target
      var max := 0x1_0000000000000000_0000000000000000_0000000000000000_0000000000000000;
      return hashInt <= max / block.header.difficulty;
    }
  }

  // ----- one difficulty for all blocks -----

  /** Every stored block except genesis has difficulty `d`. */
  ghost predicate Uniform(headers: map<Hash, Header>, genesis: Hash, d: int) {
    d > 0 && forall h :: h in headers && h != genesis ==> h.HashOf? && h.header.difficulty == d
  }

  lemma {:induction false} TdByHeight(headers: map<Hash, Header>, tds: map<Hash, int>, index: Index, head: Hash,
                                      genesis: Hash, d: int, h: Hash)
    requires StoreOk(headers, tds, index, head, genesis) && Uniform(headers, genesis, d) && h in headers
    ensures genesis in tds && h in tds && tds[h] == tds[genesis] + d * Height(h)
    decreases h
  {
    if h != genesis {
      assert TdStep(tds, h) && HeaderOk(headers, genesis, h);
      TdByHeight(headers, tds, index, head, genesis, d, h.header.prev);
    }
  }

  /** With one difficulty, no block overtakes a lower HEAD. */
  lemma UniformNeverOvertakes(bc: Blockchain, d: int, header: Header)
    requires bc.Synced() && Uniform(bc.store.headers, bc.store.genesis, d) && header.difficulty == d
    ensures !bc.Overtakes(header)
  {
    if header.prev in bc.store.headers {
      var s := bc.store;
      TdByHeight(s.headers, s.tds, s.index, s.head, s.genesis, d, header.prev);
      TdByHeight(s.headers, s.tds, s.index, s.head, s.genesis, d, s.head);
      HigherCostsMore(d, Height(header.prev), Height(s.head));
    }
  }

  lemma HigherCostsMore(d: int, a: nat, b: nat)
    requires d > 0 && d * a <= d * b
    ensures a <= b
  {
    assert d * a == d * b + d * (a - b);
  }

  /** Memory and store agree, and every stored block has difficulty `d`. */
  ghost predicate Steady(bc: Blockchain, d: int)
    reads bc, bc.store, bc.leaves
  {
    bc.Synced() && Uniform(bc.store.headers, bc.store.genesis, d)
  }

  /** WriteBlock on a chain with one difficulty. */
  method WriteSteady(bc: Blockchain, block: Block, ghost d: int) returns (r: Outcome)
    requires bc.Valid() && block.header.difficulty > 0
    modifies bc.store, bc.leaves
    ensures bc.Valid() && old(bc.store.headers.Keys) <= bc.store.headers.Keys
    ensures r == Written || r == AlreadyExists ==> block.hash in bc.store.headers
    ensures old(Steady(bc, d)) && block.header.difficulty == d ==> Steady(bc, d) && r != IndexLookup
  {
    if Steady(bc, d) && block.header.difficulty == d { UniformNeverOvertakes(bc, d, block.header); }
    r := bc.WriteBlock(block);
  }

  /** Closing and opening a chain with one difficulty: memory and store agree again. */
  method Restart(bc: Blockchain, ghost d: int) returns (bc': Blockchain)
    requires bc.Valid()
    ensures bc'.store == bc.store && fresh(bc') && fresh(bc'.leaves) && bc'.Valid()
    ensures Steady(bc, d) ==> Steady(bc', d)
  {
    bc' := new Blockchain.Open(bc.store);
  }

  /** Whole lives of a node: sessions that write blocks of the one difficulty until one is refused. */
  method Sessions(genesis: Header, sessions: seq<seq<Block>>, ghost d: int) returns (bc: Blockchain)
    requires genesis.height == 0 && d > 0
    requires forall i, j :: 0 <= i < |sessions| && 0 <= j < |sessions[i]| ==> sessions[i][j].header.difficulty == d
    ensures Steady(bc, d)
  {
    bc := new Blockchain(genesis);
    for i := 0 to |sessions|
      invariant Steady(bc, d) && fresh(bc.store) && fresh(bc.leaves)
    {
      var _ := ProcessBlocks(bc, sessions[i], d);
      bc := Restart(bc, d);
    }
  }

  /** processBlocks (seele/download/downloader.go:430): write blocks until one is refused.
      Whatever the blocks are, the height index stays the chain of HEAD; if all have the one
      difficulty of the chain, memory and store also stay in agreement. */
  method ProcessBlocks(bc: Blockchain, blocks: seq<Block>, ghost d: int) returns (n: nat)
    requires bc.Valid() && forall i :: 0 <= i < |blocks| ==> blocks[i].header.difficulty > 0
    modifies bc.store, bc.leaves
    ensures bc.Valid() && n <= |blocks|
    ensures AllStored(bc.store.headers.Keys, blocks[..n])
    ensures old(Steady(bc, d)) && AllOf(d, blocks) ==> Steady(bc, d)
  {
    n := 0;
    var r := Written;
    while n < |blocks| && (r == Written || r == AlreadyExists)
      invariant n <= |blocks| && bc.Valid()
      invariant AllStored(bc.store.headers.Keys, blocks[..n])
      invariant old(Steady(bc, d)) && AllOf(d, blocks) ==> Steady(bc, d)
      decreases |blocks| - n, r == Written || r == AlreadyExists
    {
      r := WriteSteady(bc, blocks[n], d);
      if r == Written || r == AlreadyExists { n := n + 1; }
    }
  }

  ghost predicate AllOf(d: int, blocks: seq<Block>) {
    forall i :: 0 <= i < |blocks| ==> blocks[i].header.difficulty == d
  }

  ghost predicate AllStored(stored: set<Hash>, blocks: seq<Block>) {
    forall b :: b in blocks ==> b.hash in stored
  }

  /** Without that condition memory and store can part: on a genesis block of difficulty 1,
      after a block of difficulty 10 at height 1 and a fork of two blocks of difficulty 1, a
      third fork block of difficulty 20 overtakes HEAD from a higher parent. */
  method Overtaking() returns (bc: Blockchain, r: Outcome)
    ensures bc.Valid() && r == IndexLookup && !bc.Synced()
  {
    var b;
    bc, b := ForkedChain();
    var c := Header(b, 2, 1, EmptyDigest, [], 0);
    r := bc.AddBlock(Block(HashOf(c), c, []));
    assert bc.store.head != HashOf(c) && bc.store.tds[HashOf(c)] == 3;
    var d := Header(HashOf(c), 3, 20, EmptyDigest, [], 0);
    r := bc.AddBlock(Block(HashOf(d), d, []));
  }

  /** Two blocks on a new chain: HEAD has total difficulty 11, its sibling `b` has 2. */
  method ForkedChain() returns (bc: Blockchain, b: Hash)
    ensures bc.Synced() && fresh(bc.store) && fresh(bc.leaves) && b in bc.store.headers && b in bc.store.tds
    ensures Height(bc.store.head) == Height(b) == 1 && b != bc.store.head
    ensures bc.store.head in bc.store.tds && bc.store.tds[bc.store.head] == 11 && bc.store.tds[b] == 2
  {
    var g := Header(EmptyHash, 0, 1, EmptyDigest, [], 0);
    var a := Header(HashOf(g), 1, 10, EmptyDigest, [], 0);
    bc := new Blockchain(g);
    var _ := bc.AddBlock(Block(HashOf(a), a, []));
    assert bc.store.head == HashOf(a);
    b := HashOf(Header(HashOf(g), 1, 1, EmptyDigest, [], 0));
    var _ := bc.AddBlock(Block(b, b.header, []));
    assert bc.store.head == HashOf(a);
  }
}
