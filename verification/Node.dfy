/** WriteBlock as a whole (core/blockchain.go:155): block store, leaves and account states together. */
module Node {
  import opened Basics
  import opened Blocks
  import opened TrieNodes
  import opened ChainStore
  import opened Blockchain
  import opened Statedb
  import opened Ledger

  class Node {
    const chain: Blockchain
    const state: StateStore

    /** The stored blocks are exactly those whose state is stored and accounted for. */
    ghost predicate Valid()
      reads this, chain, chain.store, state, state.db
    {
      && chain.Valid() && state.Valid()
      && (forall h :: h in chain.store.headers ==> h.HashOf? && h.header in state.accepted)
      && (forall k :: k in state.accepted ==> HashOf(k) in chain.store.headers)
    }

    constructor (chain: Blockchain, state: StateStore, genesis: Header)
      requires chain.Valid() && state.Valid()
      requires chain.store.headers.Keys == {HashOf(genesis)} && state.accepted.Keys == {genesis}
      ensures Valid() && this.chain == chain && this.state == state
    {
      this.chain, this.state := chain, state;
    }

    /** The block is stored, and so is the state it leads to. */
    twostate predicate Accepted(block: Block)
      requires Plain(block.txs)
      reads this, chain, chain.store, state
    {
      && chain.Extended(block, old(chain.store.headers), old(chain.store.tds), old(chain.store.head))
      && block.header.prev.HashOf? && block.header.prev.header in old(state.accepted)
      && old(state.Follows(block.header.prev.header, block))
      && var m := old(state.accepted)[block.header.prev.header];
         state.accepted == old(state.accepted)[block.header := BlockApplied(state.pre, m, block).value]
    }

    /** Nothing was stored. */
    twostate predicate Refused()
      reads this, chain, chain.store, state, state.db
    {
      && chain.Unchanged(old(chain.store.headers), old(chain.store.tds), old(chain.store.index), old(chain.store.head))
      && state.accepted == old(state.accepted) && state.db.content == old(state.db.content)
    }

    /** Everything after the state root was checked: the batch with the state is written exactly with
        the block. The block that is refused for want of an index entry, after the leaves were
        changed, leaves no state behind. */
    method Store(block: Block, batch: Batch) returns (r: Outcome)
      requires Valid() && chain.Extends(block) && Plain(block.txs)
      requires block.header.prev.header in state.accepted && state.Follows(block.header.prev.header, block)
      requires Honest(batch.puts) && Stored(state.db.content + batch.puts, block.header.stateHash)
      modifies chain.store, chain.leaves, state, state.db
      ensures Valid() && if r == Written then Accepted(block) else r == IndexLookup && Refused()
      ensures old(chain.Synced()) ==> (chain.Synced() <==> r == Written)
    {
      r := chain.AddBlock(block);
      if r == Written { state.Accept(block.header.prev.header, block, batch); }
    }

    /** WriteBlock. A block is accepted only if it follows its parent in block store and state. */
    method WriteBlock(block: Block) returns (r: Outcome)
      requires Valid() && block.header.difficulty > 0 && Plain(block.txs)
      modifies chain.store, chain.leaves, state, state.db
      ensures Valid() && if r == Written then Accepted(block) else Refused()
      ensures r == AlreadyExists <==> block.hash in old(chain.store.headers)
      ensures old(chain.Synced()) ==> (chain.Synced() <==> r != IndexLookup)
    {
      if block.hash in chain.store.headers { return AlreadyExists; }
      var prev := block.header.prev;
      if prev !in chain.store.headers { return InvalidParent; }
      assert HeaderOk(chain.store.headers, chain.store.genesis, prev);
      var valid := Blockchain.ValidateBlock(block, chain.store.headers[prev]);
      if !valid { return Rejected; }
      var ok, batch := state.Execute(prev.header, block);
      if !ok { return Rejected; }
      r := Store(block, batch);
    }

    /** The state of HEAD can always be opened, holds no debts and exactly the issued coins. */
    method OpenHead() returns (s: Statedb?)
      requires Valid()
      ensures s != null && s.Valid() && chain.store.head.HashOf?
      ensures Accounted(state.codec, state.genesis, chain.store.head.header, s.accounts)
    {
      s := state.OpenState(chain.store.head.header);
    }
  }
}
