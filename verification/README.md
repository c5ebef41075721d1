# go-seele, modelled and verified in Dafny

This project models the parts of go-seele in which the hard invariants live, and proves what
the code is there to guarantee. `dafny verify dfyconfig.toml` checks all of it.

| files | models |
|---|---|
| Basics, Blocks | types that several models share |
| Patricia, Canonical, TrieNodes, Trie, TrieRuns | the Merkle Patricia trie of `trie/trie.go`: in-place nodes, lazy loading, hashing, commit, and whole sequences of operations |
| JumpDest, EvmTable, EvmMemory, Evm | the EVM interpreter of `core/vm`: jump destinations, instruction tables, memory fees, and runs with all nested calls |
| ChainStore, Blockchain | block store, height index, leaves and fork choice of `core/blockchain.go`, `core/block_index.go`, `core/store/db_store.go` |
| Statedb, Ledger | the account cache over the state trie (`core/state`), transfers, rewards and the coin supply |
| Node | WriteBlock as a whole: block store, leaves and account states together |
| TaskMgr, AncestorSearch | the block downloader of `seele/download` |
| Wnaf, Ecmult | recoding and double multiplication of libsecp256k1 |
| Der, DerCodec | strict DER signatures of libsecp256k1 |
| Sponge | the buffering of `crypto/sha3/sha3.go` |

How the code is turned into Dafny:

- Code that changes things in place is imperative here too: trie nodes, the trie, the account cache,
  the stores, the task manager, the interpreter and the hash object are classes whose methods are
  proved against functions on plain values. Concurrency is an interleaving of critical sections.
- Hashes are symbolic: the hash of a value is a constructor applied to it, so it is injective and
  free of cycles. The trie hash (`Digest`) doubles as the abstract shape of a trie.
- RLP is a lawful codec or the identity. `params.*` values of go-ethereum are constants.
- Answers of code that is not modelled (the state database in the EVM, proof-of-work hashes, other
  peers) are arbitrary values or parameters.
- 64-bit and 32-bit wrap-around is written out where it can matter: memory fees, call gas, account
  nonces, the conversion of DER lengths to `int`.

Where the code does not do what one would expect, the model follows the code, and the exact
condition is proved:

- Deleting from a trie can leave a shape that no sequence of insertions builds. `TrieRuns.DeleteShape`
  and `TrieRuns.DeleteRoot` say exactly when it does, `TrieRuns.HistoryMatters` gives an example.
- The 64-bit memory fee is the true fee exactly below 2^32 words (`EvmMemory.Fee64Exact`), although the
  guard admits more; from there on it is always too low (`EvmMemory.Fee64Short`), and 2^32 words cost
  12884901888 instead of 36028809903865856 (`EvmMemory.FirstWrongFee`).
- A heavier fork whose parent is higher than HEAD is refused after the leaves have changed; memory and
  store then disagree (`Blockchain.Blockchain.AddBlock`, `Blockchain.Overtaking`). With one
  difficulty this never happens (`Blockchain.UniformNeverOvertakes`).
- The ancestor search returns height 0 unseen when one chain has only its genesis block; that is right
  exactly if the genesis blocks agree (`AncestorSearch.UncheckedGenesis`, `AncestorSearch.GenesisMayDiffer`).
  Peers with another genesis block do get that far: the handshake compares genesis hashes
  (`seele/peer.go:220`), but both sides send the empty hash (`seele/seeleprotocol.go:260`).
- A hash object cloned after a read goes on with the digest exactly for rate 168; for smaller rates the
  clone repeats earlier bytes or panics (`Sponge.Hash.Clone`, `Sponge.CloneFails`).
- A static call is not free of writes: a CALL without value inside it makes a missing account if the
  address is precompiled or EIP-158 is not active, and the revert is a stub. `Evm.EVM.Run` and
  `Evm.EVM.StaticCall` prove that this is the only way, `Evm.ReadOnlyWrites` gives the input.
- Nothing marks a transaction as used, and a nonce ahead of the account's is accepted. The same
  transaction applies again exactly as often as the nonce and the balance leave room
  (`Ledger.ReplayIff`, `Ledger.ReplayCount`), and for ever if the sender has no account
  (`Ledger.ReplayForever`).
- A peer that holds a task and neither answers nor quits stops the download there
  (`TaskMgr.RunWithout`), although the session could always be finished (`TaskMgr.Finish`).
- A strict DER integer that is negative or too large is accepted and read as 0, so printing gives the
  input back exactly if there is no such number (`Der.SerializeParse`, `Der.NegativeAccepted`).

## Model

| member | source | states |
|---|---|---|
| Patricia.PutLookup | trie/trie.go:186-299 | after inserting a key, every terminated key looks up as in the updated map: the new value there, the old answer elsewhere |
| Patricia.PutWF | trie/trie.go:186-299 | insertion keeps the well-formedness of keys and children |
| Patricia.DeleteSpec | trie/trie.go:301-388 | deletion reports whether the key was present, removes exactly it, leaves every other key, and keeps the trie well formed and reduced |
| Patricia.HexInjective | trie/trie.go:528-537 | different byte keys have different nibble keys |
| Canonical.PutShape | trie/trie.go:186-299 | insertion keeps the canonical shape: no extend over a leaf or an extend, no branch with fewer than two children |
| Canonical.Unique | trie/trie.go:186-299 | two canonical tries that look up alike are the same trie, hence have the same root hash |
| Canonical.SomeKey | trie/trie.go:186-299 | a non-empty canonical trie holds some key |
| TrieNodes.MatchKeyLen | trie/trie.go:539-552 | the length of the longest common prefix |
| TrieNodes.LoadNode | trie/trie.go:391-493 | a stored hash loads as a node that represents it; an unknown hash is an error |
| TrieNodes.Insert | trie/trie.go:186-219 | the nodes, changed in place and loaded where needed, represent the abstract insertion; no index out of range |
| TrieNodes.InsertExtend | trie/trie.go:221-263 | the same for an extend node: pass through, split or shorten |
| TrieNodes.InsertLeaf | trie/trie.go:265-299 | the same for a leaf: overwrite or fork |
| TrieNodes.GetNode | trie/trie.go:495-526 | the value of the abstract lookup; the nodes afterwards represent the same trie although hash nodes were loaded |
| TrieNodes.DeleteNode | trie/trie.go:301-388 | the nodes represent the abstract deletion, and the result says whether the key was found |
| TrieNodes.CollapseNode | trie/trie.go:331-372 | a branch with one child left is replaced by what the abstract collapse gives |
| TrieNodes.HashNodes | trie/trie.go:119-183 | hashing returns the digest and the nodes still represent the same trie; with a batch the whole subtree is stored afterwards and no entry is lost or put under a wrong hash |
| TrieNodes.HashBranch | trie/trie.go:158-176 | the same for a branch and all its children |
| TrieNodes.HashExtend | trie/trie.go:142-157 | the same for an extend node |
| TrieNodes.StoredMono | trie/trie.go:98-183 | a stored trie stays stored when the database grows |
| TrieNodes.RepMono | trie/trie.go:98-183 | nodes in memory keep representing their trie when the database grows |
| Trie.HoldsPut | trie/trie.go:62-69 | the map of a trie after Put |
| Trie.HoldsDelete | trie/trie.go:73-83 | the map of a trie after Delete, and that the answer says whether the key was there |
| Trie.KeybytesToHex | trie/trie.go:528-537 | the loop computes the nibbles of the key and the terminator |
| Trie.Trie.Open | trie/trie.go:43-59 | fails exactly for a root that is not in the database; a stored root opens as the map it holds |
| Trie.Trie.Put | trie/trie.go:62-69 | the map is updated at the key, and the digest is that of the abstract insertion |
| Trie.Trie.Get | trie/trie.go:86-95 | the mapped value, where an empty value counts as absent; nothing changes |
| Trie.Trie.Delete | trie/trie.go:73-83 | true exactly if the key was in the map; the map loses the key |
| Trie.Trie.Commit | trie/trie.go:98-117 | returns the root hash; with a batch, everything under the root is stored in database plus batch, whatever was hashed or loaded before |
| Trie.CommitAndReopen | trie/trie.go:43-117 | committing, writing the batch and opening the root gives a valid trie with the same map |
| Trie.DatabaseGrows | trie/trie.go:391-400 | a trie stays valid while others write to the shared database |
| TrieRuns.RunHolds | trie/trie.go:62-95 | over any sequence of puts and deletes the trie holds exactly the resulting map |
| TrieRuns.RunCanonical | trie/trie.go:186-299 | a sequence of puts from a canonical trie stays canonical |
| TrieRuns.HoldsUnique | trie/trie.go:186-299 | canonical tries of the same map have the same digest |
| TrieRuns.HistoryIndependence | trie/trie.go:186-299 | two put-only sequences with the same final map end in the same root hash |
| TrieRuns.DeleteShape | trie/trie.go:301-388 | deletion keeps the canonical shape if and only if, where the deleted leaf has a single sibling, that sibling is no branch and the pair is not below an extend node |
| TrieRuns.DeleteRoot | trie/trie.go:301-388 | under exactly that condition the root after a deletion is the root of the smaller map |
| TrieRuns.HistoryMatters | trie/trie.go:301-388 | an example: put, put, delete gives another root than the first put alone |
| JumpDest.StartXorData | core/vm/analysis.go:66-90 | every position of the code is either an instruction start or push data, never both |
| JumpDest.Set | core/vm/analysis.go:52-54 | sets exactly one bit |
| JumpDest.Set8 | core/vm/analysis.go:55-58 | sets exactly eight bits, across two bytes |
| JumpDest.MarkArgument | core/vm/analysis.go:74-83 | marks exactly the bytes of one push argument, inside the vector |
| JumpDest.CodeBitmap | core/vm/analysis.go:66-90 | the bit of a position is set exactly if it is push data; all writes stay inside len/8+5 bytes |
| JumpDest.DestinationIff | core/vm/analysis.go:31-45 | the valid destinations of the Yellow Paper (section 9.4.3) are exactly the JUMPDEST bytes at instruction starts |
| JumpDest.Destinations.Has | core/vm/analysis.go:31-45 | true exactly for valid destinations, with the bitmap computed or taken from the map |
| EvmTable.TableSound | core/vm/jump_table.go:62-951 | in all four instruction sets every entry declares what its instruction pops, pushes, touches and writes, charges for the memory it touches, and costs gas unless it ends the frame |
| EvmMemory.Fee64Exact | core/vm/gas_table.go:27-58 | the 64-bit fee is 3w + floor(w*w/512) if and only if w < 2^32 |
| EvmMemory.Fee64Short | core/vm/gas_table.go:27-58 | from 2^32 words up to the guard the 64-bit fee is too low, by less than 2^64 |
| EvmMemory.FirstWrongFee | core/vm/gas_table.go:27-58 | the fee of 2^32 words, as charged and as it should be |
| EvmMemory.Memory.GasCost | core/vm/gas_table.go:27-58 | the fees charged so far add up to 3w + floor(w*w/512) for the words paid for if and only if w < 2^32, and lastGasCost is the 64-bit fee; sizes above the guard fail |
| EvmMemory.Memory.Resize | core/vm/memory.go:47-51 | grows with zeros to what was paid for and never shrinks |
| EvmMemory.Memory.Get | core/vm/memory.go:54-80 | reads in bounds; size 0 is allowed at any offset |
| EvmMemory.Memory.Set | core/vm/memory.go:32-44 | writes in bounds and changes nothing else; size 0 is allowed at any offset |
| Evm.CallGasSafe | core/vm/gas.go:42-58 | a call that can be paid forwards at most what was asked for, and under EIP-150 at most 63/64 of what remains; the subtraction does not wrap |
| Evm.EVM.GasCost | core/vm/gas_table.go:60-461 | the gas functions: no overflow goes unnoticed, memory is paid before use, and calls pay for what they forward |
| Evm.EVM.CallCost | core/vm/gas_table.go:317-375 | gasCall and gasCallCode: the price covers forwarded gas and value transfer, within the 63/64 rule |
| Evm.EVM.ExecStack | core/vm/instructions.go:41-372 | stack instructions pop and push exactly what the table says and leave the items below alone; DUP copies and SWAP exchanges exactly the items named |
| Evm.EVM.ExecMemory | core/vm/instructions.go:374-592 | memory instructions stay inside the resized memory, also for empty ranges at any offset |
| Evm.EVM.ExecJump | core/vm/instructions.go:594-620 | a jump that succeeds lands on a valid destination, hence on an instruction start |
| Evm.EVM.ExecCall | core/vm/instructions.go:674-780 | the call family: gas after the call is below gas before the instruction, despite the stipend; memory writes stay in bounds |
| Evm.EVM.ExecCreate | core/vm/instructions.go:641-672 | creation: the same for gas and memory |
| Evm.EVM.Call | core/vm/evm.go:139-196 | left-over gas is at most the gas given; depth and read-only flag are restored; the call is recorded with its value and depth, and without a value it is quiet in a read-only frame |
| Evm.EVM.CallAnswered | core/vm/evm.go:139-196 | the same for given answers of the state database; a call that makes a missing account writes the state |
| Evm.EVM.CallCode | core/vm/evm.go:205-237 | the same |
| Evm.EVM.DelegateCall | core/vm/evm.go:244-270 | the same |
| Evm.EVM.StaticCall | core/vm/evm.go:276-313 | the same; under Byzantium the state is written if and only if some call below makes a missing account, once for each, and all those calls are without value |
| Evm.EVM.Create | core/vm/evm.go:316-392 | left-over gas is at most the gas given |
| Evm.EVM.Charge | core/vm/interpreter.go:172-194 | gas and memory size of one instruction: memory is paid and resized before the instruction executes |
| Evm.EVM.Step | core/vm/interpreter.go:159-223 | one instruction: the fetch is recorded with its pc, stack height, memory size and fees; a step that goes on uses gas and leaves an instruction start, a stack within the limit and paid memory; a CALL that goes on is recorded with the value on the stack |
| Evm.EVM.Run | core/vm/interpreter.go:106-226 | every run with all nested frames terminates and starts at pc 0; in all frames every fetched pc below the code length is an instruction start, the stack never exceeds the limit, and the memory fees charged are 3w + floor(w*w/512) for the words in use if and only if these are below 2^32; gas never grows; under Byzantium a read-only run writes the state if and only if some call makes a missing account |
| Evm.EVM.Check | core/vm/interpreter.go:164-187 | an operation is let through exactly if the stack has its items and room, the memory size fits 64 bits, and a read-only frame neither writes nor sends value |
| Evm.EVM.Conclude | core/vm/interpreter.go:209-223 | the run goes on exactly if there was no error, revert or halt; a jump sets the pc, anything else steps past |
| Evm.EVM.QuietIff | core/vm/evm.go:158-166 | in a quiet part of a run the state changed if and only if a recorded call passes recursion, depth and balance checks and meets a missing account that is precompiled or precedes EIP-158 |
| Evm.ReadOnlyWrites | core/vm/evm.go:158-166 | an example: inside a static call, a CALL of precompiled contract 1 without value is let through and makes the missing account |
| ChainStore.AncestorChained | core/blockchain.go:349-386 | the ancestor of a chained block at each height is a chained block of that height, down to genesis |
| ChainStore.AgreeBelow | core/blockchain.go:374-384 | chains that agree at a height agree below, which justifies the early break |
| ChainStore.BlockStore.DeleteBlockHash | core/store/db_store.go:70-85 | removes the entry of one height and says whether it was there |
| ChainStore.BlockStore.PutBlock | core/store/db_store.go:140-166 | header, total difficulty and, for a new HEAD, index entry and HEAD pointer in one batch |
| ChainStore.BlockStore.DeleteAbove | core/blockchain.go:351-361 | the delete-until-missing loop terminates and clears everything above the height |
| ChainStore.BlockStore.Overwrite | core/blockchain.go:363-385 | the overwrite loop with its early break makes the index the ancestor chain, and fails exactly if the parent is higher than HEAD |
| ChainStore.BlockStore.UpdateHashByHeight | core/blockchain.go:349-386 | after success the index below the block is exactly its ancestor chain and nothing is above; after failure nothing changed |
| ChainStore.StoreExtends | core/blockchain.go:228-230 | storing the child of a stored block keeps the store invariant: index equals ancestor chain of HEAD |
| Blockchain.BlockLeaves.Add | core/block_index.go:55-58 | adds a leaf and keeps the best one; an equal difficulty does not replace it |
| Blockchain.BlockLeaves.RemoveByHash | core/block_index.go:61-67 | removes a leaf and finds a new best one if needed |
| Blockchain.BlockLeaves.FindBestBlockIndex | core/block_index.go:114-126 | a leaf of maximal total difficulty |
| Blockchain.BlockLeaves.IsBestBlockIndex | core/block_index.go:129-139 | true exactly if heavier than every leaf |
| Blockchain.StaysInSync | core/blockchain.go:208-217 | adding a block moves the best leaf exactly if it is heavier than HEAD, and the best leaf stays the first block of maximal total difficulty over all stored blocks |
| Blockchain.Blockchain.AddBlock | core/blockchain.go:189-241 | in a synchronised state: refused exactly if the block overtakes a lower HEAD, which is exactly when memory and store part; HEAD changes exactly if the block is heavier |
| Blockchain.Blockchain.WriteBlock | core/blockchain.go:155-241 | accepted or rejected, the height index is exactly the ancestor chain of HEAD; a rejected block changes no store |
| Blockchain.UniformNeverOvertakes | core/blockchain.go:208-230 | with one positive difficulty no block overtakes a lower HEAD |
| Blockchain.WriteSteady | core/blockchain.go:155-241 | with one positive difficulty memory and store stay in agreement after every WriteBlock |
| Blockchain.Blockchain.Open | core/blockchain.go:82-130 | opening a store makes HEAD the only leaf; memory and store then agree if and only if HEAD is the first block of maximal total difficulty |
| Blockchain.Restart | core/blockchain.go:82-130 | with one difficulty they agree after a restart |
| Blockchain.Sessions | core/blockchain.go:82-241 | and so over any number of sessions of writes from genesis on |
| Blockchain.ProcessBlocks | seele/download/downloader.go:430-447 | writing any list of blocks until one is refused keeps the store invariant, and with one difficulty the agreement |
| Blockchain.Overtaking | core/blockchain.go:208-230 | an example: four blocks on a new chain, after which memory and store disagree |
| Statedb.StateObject.SetAmount | core/state/stateobject.go:82-87 | a negative amount is ignored, any other is stored and marks the object dirty |
| Statedb.LRU.Get | vendor/github.com/hashicorp/golang-lru/simplelru/lru.go:73-79 | finds an entry and makes it the newest |
| Statedb.LRU.Add | vendor/github.com/hashicorp/golang-lru/simplelru/lru.go:51-70 | adds or replaces; evicts the oldest exactly if a new key meets a full cache |
| Statedb.LRU.RemoveOldest | vendor/github.com/hashicorp/golang-lru/simplelru/lru.go:109-117 | drops the oldest entry |
| Statedb.Statedb.NewStatedb | core/state/statedb.go:33-49 | fails exactly if the root is missing; otherwise stands for the accounts of the root |
| Statedb.Statedb.CommitOne | core/state/statedb.go:142-158 | writes a dirty account to the trie, after which it is clean; the account map is unchanged |
| Statedb.Statedb.Commit | core/state/statedb.go:129-140 | nothing is dirty, the trie holds exactly the encoded account map, the returned hash is its root and, with a batch, all of it is stored |
| Statedb.Statedb.EvictQuarter | core/state/statedb.go:160-168 | only objects go whose trie entry is their account; the account map is unchanged |
| Statedb.Statedb.Cache | core/state/statedb.go:160-172 | the object is entered, the cache never evicts by itself and never exceeds 1000 entries |
| Statedb.Statedb.GetStateObject | core/state/statedb.go:185-203 | the cached object of an account that exists, nothing for one that does not; the account map is unchanged |
| Statedb.Statedb.GetOrNewStateObject | core/state/statedb.go:174-183 | creates exactly a missing account, with nonce 0 and amount 0 |
| Statedb.Statedb.GetBalance | core/state/statedb.go:79-85 | the balance in the account map, 0 without an account |
| Statedb.Statedb.SetBalance | core/state/statedb.go:88-93 | changes exactly that balance, of an existing account, unless negative |
| Statedb.Statedb.AddBalance | core/state/statedb.go:96-101 | the same for an addition |
| Statedb.Statedb.SubBalance | core/state/statedb.go:104-109 | the same for a subtraction; a balance never goes below 0 |
| Statedb.Statedb.GetNonce | core/state/statedb.go:112-118 | the nonce in the account map |
| Statedb.Statedb.SetNonce | core/state/statedb.go:121-126 | changes exactly that nonce |
| Statedb.Statedb.Exist | core/state/statedb_evm.go:117-119 | whether the account is in the account map |
| Statedb.Statedb.CreateAccount | core/state/statedb_evm.go:16-18 | adds exactly a missing account |
| Statedb.RootsAreAccounts | core/state/statedb.go:129-158 | two committed states have the same root if and only if they have the same accounts, whatever the order of writes and evictions |
| Ledger.MovedSpec | core/evm.go:26-29 | a transfer changes exactly the two balances; a transfer to oneself changes nothing |
| Ledger.MovedSupply | core/evm.go:26-29 | a transfer keeps the supply |
| Ledger.AppliedSpec | core/evm.go:65-89 | an applied transaction moves its amount and counts up the sender's nonce; nobody else changes, and at most the recipient is new |
| Ledger.AppliedIff | core/types/transaction.go:133-168 | a transaction applies if and only if its amount is covered, its nonce is not too low, payload and signature are fine and a precompiled recipient succeeds |
| Ledger.ReplayIff | core/types/transaction.go:133-168 | a transaction applies to its own result if and only if its nonce is not below the counted-up one and the balance covers it twice, or it goes to its sender |
| Ledger.ReplayCount | core/evm.go:65-89 | it applies n times in a row if and only if its nonce is at least the account's plus n - 1 and the balance covers it n times |
| Ledger.ReplayWrapped | core/evm.go:65-89 | with the largest nonce the nonce check never stops it, since the account's nonce wraps to 0; only the balance does |
| Ledger.ReplayForever | core/evm.go:65-89 | without an account of the sender, whose nonce cannot be counted up, it applies any number of times |
| Ledger.AppliedSupply | core/vm/evm.go:149-167 | an applied transaction keeps the supply, also for new recipients and precompiled contracts |
| Ledger.BlockAppliedSpec | core/blockchain.go:314-335 | an applied block adds exactly its reward to the supply and leaves no negative balance |
| Ledger.IssuedSchedule | miner/pow/reward.go:20-28 | the sum of all rewards up to a height, in closed form over the eras |
| Ledger.Validate | core/types/transaction.go:133-168 | the checks in their order, against the account map |
| Ledger.Call | core/vm/evm.go:139-196 | a plain transfer as it is done on the state database: funds, missing recipient, zero value, precompiled contracts |
| Ledger.ProcessContract | core/evm.go:65-89 | nonce, call and commit of one transaction |
| Ledger.UpdateStateDB | core/blockchain.go:314-335 | reward first, then all transactions in order, or failure at the first bad one |
| Ledger.ValidateMinerRewardTx | core/blockchain.go:285-312 | accepts exactly a reward to the creator of the amount due at that height |
| Ledger.StateStore.ApplyTxs | core/blockchain.go:267-283 | the state after a block, from the state root of its parent |
| Ledger.StateStore.WriteBlock | core/blockchain.go:155-241 | over any tree of blocks: a block is accepted exactly if its transactions apply and its header names the root of the result; every accepted state is stored, has no negative balance and holds the genesis supply plus all rewards up to its height; a rejected block leaves no trace |
| Ledger.StateStore.Execute | core/blockchain.go:179-199 | the transactions are applied and the root compared: succeeds exactly if the block follows its parent, with everything under the new root in the database or the batch; nothing is written |
| Ledger.StateStore.OpenState | core/blockchain.go:118-122 | the state of every accepted block can be opened and has its accounts |
| Node.Node.Store | core/blockchain.go:187-241 | block and state are written together or not at all, also when the index cannot be updated after the leaves changed |
| Node.Node.WriteBlock | core/blockchain.go:155-241 | after every outcome the stored blocks are exactly those with a stored state that has no debts and the issued supply; a block is written only if it extends block store and state of its parent, and any refusal leaves both as they were; memory and store stay in agreement exactly unless the index lookup fails |
| Node.Node.OpenHead | core/blockchain.go:106-122 | the state of HEAD can always be opened, has no negative balance and holds the genesis supply plus all rewards up to its height |
| TaskMgr.TaskMgr.HandOver | seele/download/taskMgr.go:85-99 | hands over all downloaded blocks from curNo up to the first gap |
| TaskMgr.TaskMgr.Written | seele/download/downloader.go:438-446 | a handed block is marked processed later; its height is still the right one |
| TaskMgr.TaskMgr.GetReqHeaderInfo | seele/download/taskMgr.go:118-159 | a header request lies in [curNo, toNo], has at most 256 headers, follows the known ones for the master, and asks another peer for no height it already sent |
| TaskMgr.TaskMgr.GetReqBlocks | seele/download/taskMgr.go:163-211 | a block request is exactly the newly claimed range: the first idle one with matching hashes, contiguous, at most 128 and otherwise maximal |
| TaskMgr.TaskMgr.ClaimMore | seele/download/taskMgr.go:193-208 | the loop that extends the claim |
| TaskMgr.TaskMgr.IsDone | seele/download/taskMgr.go:214-218 | true exactly if all heights were handed over |
| TaskMgr.TaskMgr.OnPeerQuit | seele/download/taskMgr.go:221-231 | exactly the unfinished tasks of the peer become idle |
| TaskMgr.TaskMgr.DeliverHeaderMsg | seele/download/taskMgr.go:234-264 | the master's headers extend the list or are refused; any peer's headers, in any order and number, are filed by height; both errors, and the panic on an empty reply of the master |
| TaskMgr.FiledLast | seele/download/taskMgr.go:256-261 | of several headers of one height the last one stays |
| TaskMgr.FiledOther | seele/download/taskMgr.go:256-261 | all heights without a header are as before |
| TaskMgr.TaskMgr.DeliverBlockPreMsg | seele/download/taskMgr.go:267-290 | exactly the tasks the peer does not name become idle |
| TaskMgr.TaskMgr.DeliverBlockMsg | seele/download/taskMgr.go:293-307 | each entry of this peer has the last block of its height, all others are untouched; the first block outside the list, at which the source panics, is reported |
| TaskMgr.Step | seele/download/downloader.go:338-427 | one event of any kind keeps the invariant; only a tick hands over, only the master extends the list, and a claimed task changes only through its own peer |
| TaskMgr.Run | seele/download/taskMgr.go:85-106 | every interleaving hands over fromNo, fromNo+1, ... each once and without a gap, and is done exactly when all are handed over |
| TaskMgr.RunWithout | seele/download/taskMgr.go:163-307 | as long as a peer that holds a task neither answers nor quits, no sequence of other events gets the session past that task |
| TaskMgr.Finish | seele/download/taskMgr.go:85-307 | every reachable session can be finished: by the missing headers of the master, the blocks of the peers that hold tasks, and one more peer for the idle ones |
| AncestorSearch.ServeReverse | seele/seeleprotocol.go:408-422 | a reverse header reply is the peer's ancestor chain from the height down, or none if a header is missing |
| AncestorSearch.FindCommonAncestorHeight | seele/download/downloader.go:214-280 | terminates with the greatest common height in the window, or the fork limit if there is none; errors only for heights above a chain |
| AncestorSearch.Compare | seele/download/downloader.go:269-278 | the inner comparison loop |
| AncestorSearch.FoundIsFork | seele/download/downloader.go:214-280 | the heights with common blocks are exactly those up to the answer |
| AncestorSearch.RefusedIffDeepFork | seele/download/downloader.go:230-253 | with a common genesis block, refused if and only if the chains differ over the top 90000 heights |
| AncestorSearch.UncheckedGenesis | seele/download/downloader.go:225-227 | with top height 0 the answer is right if and only if the genesis blocks agree |
| AncestorSearch.GenesisMayDiffer | seele/download/downloader.go:225-227 | an example where it is wrong |
| Wnaf.OrderBounds | crypto/secp256k1/libsecp256k1/src/ecmult_impl.h:250-253 | the group order lies between 2^255 and 2^256, so a negated scalar is short |
| Wnaf.WindowStep | crypto/secp256k1/libsecp256k1/src/ecmult_impl.h:262-275 | one window gives an odd digit below 2^(w-1) and a carry that keep the value |
| Wnaf.SetDigit | crypto/secp256k1/libsecp256k1/src/ecmult_impl.h:262-275 | the loop body keeps digits, spacing and partial sum |
| Wnaf.Recode | crypto/secp256k1/libsecp256k1/src/ecmult_impl.h:255-276 | the loop leaves spaced digits whose sum, with the carry, is the signed number |
| Wnaf.Recoded | crypto/secp256k1/libsecp256k1/src/ecmult_impl.h:277-284 | after it: in a long enough array nothing is carried out and the digits stand for the number, with the bound on their count |
| Wnaf.EcmultWnaf | crypto/secp256k1/libsecp256k1/src/ecmult_impl.h:235-284 | for every scalar and 2 <= w <= 31: digits 0 or odd and below 2^(w-1), at least w apart, final carry 0, and their sum is the signed scalar; the count of used digits is at most one more than the bits of the absolute value |
| Wnaf.TopDigit | crypto/secp256k1/libsecp256k1/src/ecmult_impl.h:228-234 | a top digit at most one place above a bit gives that bound |
| Wnaf.MagnitudeFits | crypto/secp256k1/libsecp256k1/src/ecmult_impl.h:326-329 | 256 digits are always enough |
| Ecmult.OddMultiplesTable | crypto/secp256k1/libsecp256k1/src/ecmult_impl.h:52-85 | entry i is (2i+1) times the point |
| Ecmult.TableGet | crypto/secp256k1/libsecp256k1/src/ecmult_impl.h:134-143 | the multiple for a signed digit, inside the table |
| Ecmult.DoubleAndAdd | crypto/secp256k1/libsecp256k1/src/ecmult_impl.h:361-399 | the loop computes the sum of both digit strings times their points |
| Ecmult.Ecmult | crypto/secp256k1/libsecp256k1/src/ecmult_impl.h:286-404 | the result is na*A + ng*G in every commutative group in which both points have the order |
| Ecmult.TimesSigned | crypto/secp256k1/libsecp256k1/src/ecmult_impl.h:250-253 | a scalar and its negated form give the same multiple |
| Sponge.AbsorbSplit | crypto/sha3/sha3.go:125-157 | absorbing a message in two parts is absorbing it at once |
| Sponge.PaddedState | crypto/sha3/sha3.go:98-121 | padding the buffered rest is absorbing the padded message |
| Sponge.Hash.Reset | crypto/sha3/sha3.go:57-64 | back to the empty message |
| Sponge.Hash.XorIn | crypto/sha3/xor_unaligned.go:14-47 | xors exactly one block into the state |
| Sponge.LanesExact | crypto/sha3/xor_unaligned.go:14-47 | xorIn covers a block of n bytes exactly for n = 0 or one of the five rates |
| Sponge.Hash.Write | crypto/sha3/sha3.go:125-157 | by the fast or the slow path, the message grows by exactly the data |
| Sponge.Hash.PadAndPermute | crypto/sha3/sha3.go:98-121 | what is left to read afterwards is the digest from its first byte on |
| Sponge.Hash.Read | crypto/sha3/sha3.go:160-181 | the next bytes of the digest of everything written |
| Sponge.Hash.Sum | crypto/sha3/sha3.go:185-192 | bytes of the digest, appended: from the first byte while absorbing, and otherwise as far back as the clone falls; a panic exactly when the clone panics; the hash object does not change |
| Sponge.Hash.Clone | crypto/sha3/sha3.go:66-75 | a faithful copy while absorbing; while squeezing the copy is 168 minus rate bytes behind, so it goes on with the digest if and only if the rate is 168, and panics exactly if there are not that many bytes to go back |
| Sponge.CloneFails | crypto/sha3/sha3.go:66-75 | an example of the panic, at rate 136 |
| Sponge.HashAll | crypto/sha3/sha3.go:125-181 | any split into writes and any split into reads gives the digest of FIPS 202: absorb the padded message block by block, then squeeze |
| Der.ReadLenSound | crypto/secp256k1/libsecp256k1/src/ecdsa_impl.h:49-99 | an accepted length is written in the shortest form |
| Der.ReadLenComplete | crypto/secp256k1/libsecp256k1/src/ecdsa_impl.h:49-99 | the shortest form of every length that fits is accepted |
| Der.ParseIffSignature | crypto/secp256k1/libsecp256k1/src/ecdsa_impl.h:147-177 | the parser accepts exactly the strict encodings of two integers whose length fits an int |
| Der.OctetsUnique | crypto/secp256k1/libsecp256k1/src/ecdsa_impl.h:179-201 | the shortest octets of a number are determined by it |
| Der.ParseSerialize | crypto/secp256k1/libsecp256k1/src/ecdsa_impl.h:147-201 | parsing a printed (r, s) gives (r, s), for all scalars |
| Der.SerializeParse | crypto/secp256k1/libsecp256k1/src/ecdsa_impl.h:147-201 | printing what was parsed gives the input back if and only if no number overflowed |
| Der.NegativeAccepted | crypto/secp256k1/libsecp256k1/src/ecdsa_impl.h:101-145 | an input with a negative number that does not come back |
| DerCodec.ReadLen | crypto/secp256k1/libsecp256k1/src/ecdsa_impl.h:49-99 | the cursor version of the length reader, with size_t wrap-around and the conversion to int |
| DerCodec.ReadLong | crypto/secp256k1/libsecp256k1/src/ecdsa_impl.h:83-93 | the long form in size_t arithmetic: the exact length, or a refusal exactly for a length that does not fit, except that eight bytes 0xFF pass the wrapped comparison as the largest size_t |
| DerCodec.ReadScalar | crypto/secp256k1/libsecp256k1/src/ecdsa_impl.h:124-144 | leading zeros skipped; 0 for a negative number or one not below the order |
| DerCodec.ParseInteger | crypto/secp256k1/libsecp256k1/src/ecdsa_impl.h:101-145 | accepts exactly a shortest integer and reads its scalar |
| DerCodec.SigParse | crypto/secp256k1/libsecp256k1/src/ecdsa_impl.h:147-177 | the whole parser meets its specification |
| DerCodec.ScalarOctets | crypto/secp256k1/libsecp256k1/src/ecdsa_impl.h:180-185 | stripping 33 bytes gives the shortest octets |
| DerCodec.SigSerialize | crypto/secp256k1/libsecp256k1/src/ecdsa_impl.h:179-201 | writes the strict encoding if there is room, and returns its length in any case |
| DerCodec.SerializeThenParse | crypto/secp256k1/libsecp256k1/src/ecdsa_impl.h:147-201 | the printer followed by the parser returns the scalars |
| DerCodec.ParseThenSerialize | crypto/secp256k1/libsecp256k1/src/ecdsa_impl.h:147-201 | the parser followed by the printer: accepted exactly for the grammar, same bytes exactly without overflow |

## Left out

- Network, RPC, CLI, logging, keystore, monitor, miner goroutines and timers: plumbing over libraries that would only add easy members.
- LevelDB and batches beyond a map and an atomic set of puts; disk errors and crashes between writes.
- Missing nodes below an existing trie root: Open models a missing root, every other trie operation assumes that the database holds the whole trie.
- ShallowCopyTrie and Statedb.GetCopy: copies share nodes and objects, so no isolation holds.
- Contract storage, refunds, logs, snapshots and revert of `core/state/statedb_evm.go`: stubs in the source.
- Contract code in accounts, and transactions that create contracts, in Statedb and Ledger: a commit without a batch cannot write code.
- The values EVM instructions compute, the state database behind the EVM, precompiled contract bodies, tracing and abort: arbitrary in the model, so nothing is said about results, only about gas, control flow, stack, memory and state writes.
- Evm.EVM.Run: code is shorter than 2^62 bytes and gas is a 64-bit number; program counters do not wrap.
- Trie.Trie.Put: keys and values are byte strings of any length; hashing and RLP of nodes are symbolic.
- Blockchain.Blockchain.Open: the store is a valid one, so that genesis and HEAD are found; the state of HEAD is opened in Node.
- Blockchain.Blockchain.WriteBlock: difficulties are positive, since 0 divides by zero in the proof-of-work check and a negative one cannot be encoded; heights are unbounded; whether transactions and state match is arbitrary here; Ledger models it and Node joins the two.
- Ledger.ProcessContract: a transaction without recipient, which creates a contract, is excluded, since accounts have no code here.
- Ledger.UpdateStateDB: for the same reason all transactions have a recipient.
- Ledger.StateStore.ApplyTxs: for the same reason all transactions of the block have a recipient.
- Ledger.StateStore.WriteBlock: header checks other than the height, and the block store, are in Blockchain and joined with this in Node; hash and signature checks of a transaction are one flag.
- Node.Node.WriteBlock: difficulties are positive and all transactions have a recipient, as above; the disk does not fail between the two batches.
- Node.Node.Store: the same.
- HeaderChain and the transaction pool: they feed nothing modelled here, or keep only easy inclusions.
- TaskMgr.RunWithout, TaskMgr.Finish: there is no timer in the model; whether peers do answer is not said.
- TaskMgr.Run: headers lie inside the range of the session, the master's have consecutive heights, and block heights are inside the list, as peers that answer their requests send them. Whether a block matches its header is left to WriteBlock.
- TaskMgr.TaskMgr.DeliverHeaderMsg: heights outside the range of the session, and replies of the master with gaps, are excluded: the source takes them unchecked and its heights and indexes no longer agree.
- TaskMgr.TaskMgr.HandOver: a block that the same peer sends again after the hand-over replaces the handed one of the same height until it is written, as in the source.
- AncestorSearch.FindCommonAncestorHeight: the peer's chain does not change during the search, and a lost reply is an error.
- Wnaf.EcmultWnaf: the C shift by 31 bits for w = 31 is taken as a mathematical product.
- Ecmult.Ecmult: points are elements of an abstract group; Jacobian coordinates, limb arithmetic, the endomorphism branch and the point at infinity as an input of the table are not modelled.
- Sponge.Hash.Write: a write after a read, on which the source panics, is excluded; the permutation is a parameter.
- Kademlia table, Merkle tree, forward error correction and token bucket: smaller claims than the cores above.
