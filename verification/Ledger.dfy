/** Plain transfers and block rewards over the account state (core/blockchain.go, core/evm.go,
    miner/pow/reward.go): what an accepted block does to the accounts, and the coin supply. */
module Ledger {
  import opened Basics
  import opened Blocks
  import opened Patricia
  import opened Canonical
  import opened TrieNodes
  import opened Trie
  import opened TrieRuns
  import opened Statedb

  const MAX_PAYLOAD_SIZE: nat := 32 * 1024
  const BLOCKS_PER_ERA: nat := 525000
  const REWARD_TABLE: seq<int> := [200, 100, 50, 40, 30]
  const TAIL_REWARD: int := 30

  datatype TxError = AmountNil | AmountNegative | BalanceNotEnough | NonceTooLow | PayloadOversized | SignatureInvalid

  /** The precompiled contracts: whether running one on an input succeeds. */
  type Precompiles = map<Address, seq<byte> -> bool>

  // ---------------------------------------------------------------- on account maps

  function Check(m: Accounts, tx: Tx): Option<TxError> {
    if tx.amount.None? then Some(AmountNil)
    else if tx.amount.value < 0 then Some(AmountNegative)
    else if tx.amount.value > Balance(m, tx.from) then Some(BalanceNotEnough)
    else if tx.nonce < Nonce(m, tx.from) then Some(NonceTooLow)
    else if |tx.payload| > MAX_PAYLOAD_SIZE then Some(PayloadOversized)
    else if !tx.signed then Some(SignatureInvalid)
    else None
  }

  function NextNonce(n: uint64): uint64 {
    (n + 1) % 0x1_0000_0000_0000_0000
  }

  function Moved(m: Accounts, from: Address, to: Address, value: int): Accounts {
    Credited(Debited(m, from, value), to, value)
  }

  function Called(pre: Precompiles, m: Accounts, from: Address, to: Address, payload: seq<byte>, value: int)
    : Option<Accounts>
  {
    if Balance(m, from) < value then None
    else if to !in m && to !in pre && value == 0 then Some(m)
    else if to in pre && !pre[to](payload) then None
    else Some(Moved(Created(m, to), from, to, value))
  }

  function Applied(pre: Precompiles, m: Accounts, tx: Tx): Option<Accounts>
    requires tx.to.Some?
  {
    if Check(m, tx).Some? then None
    else Called(pre, WithNonce(m, tx.from, NextNonce(Nonce(m, tx.from))),
                tx.from, tx.to.value, tx.payload, tx.amount.value)
  }

  predicate Plain(txs: seq<Tx>) {
    forall i :: 0 <= i < |txs| ==> txs[i].to.Some?
  }

  function AppliedAll(pre: Precompiles, m: Accounts, txs: seq<Tx>): Option<Accounts>
    requires Plain(txs)
    decreases |txs|
  {
    if txs == [] then Some(m)
    else
      var m' := Applied(pre, m, txs[0]);
      if m'.None? then None else AppliedAll(pre, m'.value, txs[1..])
  }

  // ---------------------------------------------------------------- supply

  ghost function Supply(m: Accounts): int {
    if m == map[] then 0
    else
      var a :| a in m;
      m[a].amount + Supply(m - {a})
  }

  lemma {:induction false} SupplyWithout(m: Accounts, a: Address)
    requires a in m
    ensures Supply(m) == m[a].amount + Supply(m - {a})
    decreases |m|
  {
    var b :| b in m && Supply(m) == m[b].amount + Supply(m - {b});
    if a != b {
      SupplyWithout(m - {b}, a);
      SupplyWithout(m - {a}, b);
      assert m - {b} - {a} == m - {a} - {b};
    }
  }

  lemma {:induction false} SupplySet(m: Accounts, a: Address, c: Account)
    ensures Supply(m[a := c]) == Supply(m) - Balance(m, a) + c.amount
  {
    var m' := m[a := c];
    SupplyWithout(m', a);
    assert m' - {a} == m - {a};
    if a in m { SupplyWithout(m, a); } else { assert m - {a} == m; }
  }

  lemma {:induction false} SupplyWithBalance(m: Accounts, a: Address, amount: int)
    requires a in m && amount >= 0
    ensures Supply(WithBalance(m, a, amount)) == Supply(m) - Balance(m, a) + amount
  {
    SupplySet(m, a, Charged(m[a], amount));
  }

  /** What a transfer means: only the two parties change, a transfer to oneself changes
      nothing, and no coin appears or is lost. */
  lemma {:induction false} MovedSpec(m: Accounts, from: Address, to: Address, value: int)
    requires NonNegative(m) && to in m && 0 <= value <= Balance(m, from)
    ensures var m' := Moved(m, from, to, value);
      && m'.Keys == m.Keys && NonNegative(m')
      && (forall a :: Nonce(m', a) == Nonce(m, a))
      && (forall a :: a != from && a != to ==> Balance(m', a) == Balance(m, a))
      && (from != to ==> Balance(m', from) == Balance(m, from) - value && Balance(m', to) == Balance(m, to) + value)
      && (from == to ==> m' == m)
  {
    var m1 := Debited(m, from, value);
    var m' := Credited(m1, to, value);
    assert m1.Keys == m.Keys && m'.Keys == m.Keys;
    if from == to {
      forall a | a in m ensures m'[a] == m[a] { }
    }
  }

  lemma {:induction false} DebitSupply(m: Accounts, a: Address, value: int)
    requires 0 <= value <= Balance(m, a)
    ensures Supply(Debited(m, a, value)) == Supply(m) - value
  {
    if a in m { SupplyWithBalance(m, a, Balance(m, a) - value); }
  }

  lemma {:induction false} MovedSupply(m: Accounts, from: Address, to: Address, value: int)
    requires NonNegative(m) && to in m && 0 <= value <= Balance(m, from)
    ensures Supply(Moved(m, from, to, value)) == Supply(m)
  {
    DebitSupply(m, from, value);
    CreditSupply(Debited(m, from, value), to, value);
  }

  lemma {:induction false} CreditSupply(m: Accounts, a: Address, value: int)
    requires a in m && Balance(m, a) + value >= 0
    ensures Supply(Credited(m, a, value)) == Supply(m) + value
  {
    SupplyWithBalance(m, a, Balance(m, a) + value);
  }

  lemma {:induction false} CreatedSpec(m: Accounts, a: Address)
    requires NonNegative(m)
    ensures NonNegative(Created(m, a)) && Supply(Created(m, a)) == Supply(m)
    ensures forall b :: Balance(Created(m, a), b) == Balance(m, b)
  {
    if a !in m { SupplySet(m, a, Account(0, 0)); }
  }

  /** An applied transaction moves its amount from sender to recipient and counts up the
      sender's nonce; nobody else is touched, and at most the recipient is new. */
  lemma {:induction false} AppliedSpec(pre: Precompiles, m: Accounts, tx: Tx)
    requires NonNegative(m) && tx.to.Some? && Applied(pre, m, tx).Some?
    ensures var m' := Applied(pre, m, tx).value; var to := tx.to.value;
      && NonNegative(m') && m.Keys <= m'.Keys <= m.Keys + {to}
      && (forall a :: Nonce(m', a) == if a == tx.from && a in m then NextNonce(Nonce(m, a)) else Nonce(m, a))
      && (forall a :: Balance(m', a) == Balance(m, a)
                        - (if a == tx.from then tx.amount.value else 0) + (if a == to then tx.amount.value else 0))
  {
    var m1 := WithNonce(m, tx.from, NextNonce(Nonce(m, tx.from)));
    MovedSpec(Created(m1, tx.to.value), tx.from, tx.to.value, tx.amount.value);
  }

  /** What does not depend on the accounts: amount, payload and signature are fine, and a precompiled
      recipient succeeds. */
  predicate WellFormed(pre: Precompiles, tx: Tx)
    requires tx.to.Some?
  {
    && tx.amount.Some? && tx.amount.value >= 0 && |tx.payload| <= MAX_PAYLOAD_SIZE && tx.signed
    && (tx.to.value in pre ==> pre[tx.to.value](tx.payload))
  }

  /** Exactly which transactions apply. */
  lemma AppliedIff(pre: Precompiles, m: Accounts, tx: Tx)
    requires tx.to.Some?
    ensures Applied(pre, m, tx).Some? <==>
      WellFormed(pre, tx) && tx.amount.value <= Balance(m, tx.from) && tx.nonce >= Nonce(m, tx.from)
  {
    assert Balance(WithNonce(m, tx.from, NextNonce(Nonce(m, tx.from))), tx.from) == Balance(m, tx.from);
  }

  // ----- the same transaction again -----

  const MAX_NONCE: uint64 := 0xFFFF_FFFF_FFFF_FFFF

  /** The accounts after applying one transaction `n` times. */
  function Repeated(pre: Precompiles, m: Accounts, tx: Tx, n: nat): Option<Accounts>
    requires tx.to.Some?
  {
    if n == 0 then Some(m)
    else
      var m' := Repeated(pre, m, tx, n - 1);
      if m'.None? then None else Applied(pre, m'.value, tx)
  }

  /** Nothing marks a transaction as used. It applies to its own result exactly if its nonce is still
      not too low, which leaves room for nonces ahead of the account's, and the rest of the balance
      covers it again. */
  lemma ReplayIff(pre: Precompiles, m: Accounts, tx: Tx)
    requires NonNegative(m) && tx.to.Some? && Applied(pre, m, tx).Some? && tx.from in m
    ensures Applied(pre, Applied(pre, m, tx).value, tx).Some? <==>
      && tx.nonce >= NextNonce(Nonce(m, tx.from))
      && (tx.from == tx.to.value || 2 * tx.amount.value <= Balance(m, tx.from))
  {
    AppliedSpec(pre, m, tx);
    AppliedIff(pre, m, tx);
    AppliedIff(pre, Applied(pre, m, tx).value, tx);
  }

  /** How often it applies: once for each nonce from the account's up to its own, as far as the
      balance goes. */
  lemma {:induction false} ReplayCount(pre: Precompiles, m: Accounts, tx: Tx, n: nat)
    requires NonNegative(m) && tx.to.Some? && Applied(pre, m, tx).Some? && tx.from in m && tx.nonce < MAX_NONCE && n > 0
    ensures Repeated(pre, m, tx, n).Some? <==>
      && Nonce(m, tx.from) + (n - 1) <= tx.nonce
      && (tx.from == tx.to.value || n * tx.amount.value <= Balance(m, tx.from))
    ensures Repeated(pre, m, tx, n).Some? ==>
      var m' := Repeated(pre, m, tx, n).value;
      && NonNegative(m') && tx.from in m' && Nonce(m', tx.from) == Nonce(m, tx.from) + n
      && Balance(m', tx.from) == Balance(m, tx.from) - (if tx.from == tx.to.value then 0 else n * tx.amount.value)
  {
    AppliedIff(pre, m, tx);
    var p := (n - 1) * tx.amount.value;
    assert n * tx.amount.value == p + tx.amount.value;
    if n > 1 { ReplayCount(pre, m, tx, n - 1); }
    var m1 := Repeated(pre, m, tx, n - 1);
    if m1.Some? { ReplayStep(pre, m1.value, tx); }
  }

  /** One more time, in terms of the sender's account. */
  lemma ReplayStep(pre: Precompiles, m: Accounts, tx: Tx)
    requires NonNegative(m) && tx.to.Some? && WellFormed(pre, tx) && tx.from in m
    ensures Applied(pre, m, tx).Some? <==> tx.amount.value <= Balance(m, tx.from) && tx.nonce >= Nonce(m, tx.from)
    ensures Applied(pre, m, tx).Some? ==>
      var m' := Applied(pre, m, tx).value;
      && NonNegative(m') && tx.from in m' && (tx.nonce < MAX_NONCE ==> Nonce(m', tx.from) == Nonce(m, tx.from) + 1)
      && Balance(m', tx.from) == Balance(m, tx.from) - (if tx.from == tx.to.value then 0 else tx.amount.value)
  {
    AppliedIff(pre, m, tx);
    if Applied(pre, m, tx).Some? { AppliedSpec(pre, m, tx); }
  }

  /** With the largest nonce it applies as long as the balance goes: the account's nonce wraps to 0
      before it gets ahead. */
  lemma {:induction false} ReplayWrapped(pre: Precompiles, m: Accounts, tx: Tx, n: nat)
    requires NonNegative(m) && tx.to.Some? && Applied(pre, m, tx).Some? && tx.from in m
    requires tx.nonce == MAX_NONCE && n > 0
    ensures Repeated(pre, m, tx, n).Some? <==> tx.from == tx.to.value || n * tx.amount.value <= Balance(m, tx.from)
    ensures Repeated(pre, m, tx, n).Some? ==>
      var m' := Repeated(pre, m, tx, n).value;
      && NonNegative(m') && tx.from in m'
      && Balance(m', tx.from) == Balance(m, tx.from) - (if tx.from == tx.to.value then 0 else n * tx.amount.value)
  {
    AppliedIff(pre, m, tx);
    var p := (n - 1) * tx.amount.value;
    assert n * tx.amount.value == p + tx.amount.value;
    if n > 1 { ReplayWrapped(pre, m, tx, n - 1); }
    var m1 := Repeated(pre, m, tx, n - 1);
    if m1.Some? { ReplayStep(pre, m1.value, tx); }
  }

  /** Without an account there is no nonce to count up: an empty transaction applies for ever. */
  lemma {:induction false} ReplayForever(pre: Precompiles, m: Accounts, tx: Tx, n: nat)
    requires NonNegative(m) && tx.to.Some? && Applied(pre, m, tx).Some? && tx.from !in m && tx.from != tx.to.value
    ensures Repeated(pre, m, tx, n).Some? && NonNegative(Repeated(pre, m, tx, n).value)
    ensures tx.from !in Repeated(pre, m, tx, n).value
  {
    AppliedIff(pre, m, tx);
    if n > 0 {
      ReplayForever(pre, m, tx, n - 1);
      var m1 := Repeated(pre, m, tx, n - 1).value;
      AppliedIff(pre, m1, tx);
      AppliedSpec(pre, m1, tx);
    }
  }

  // ----- conservation -----

  lemma {:induction false} NonceSupply(m: Accounts, a: Address, nonce: uint64)
    ensures Supply(WithNonce(m, a, nonce)) == Supply(m)
  {
    if a in m { SupplySet(m, a, m[a].(nonce := nonce)); }
  }

  /** ... and no coin appears or is lost. */
  lemma {:induction false} AppliedSupply(pre: Precompiles, m: Accounts, tx: Tx)
    requires NonNegative(m) && tx.to.Some? && Applied(pre, m, tx).Some?
    ensures Supply(Applied(pre, m, tx).value) == Supply(m)
  {
    var m1 := WithNonce(m, tx.from, NextNonce(Nonce(m, tx.from)));
    NonceSupply(m, tx.from, NextNonce(Nonce(m, tx.from)));
    CalledSupply(pre, m1, tx.from, tx.to.value, tx.payload, tx.amount.value);
  }

  lemma {:induction false} CalledSupply(pre: Precompiles, m: Accounts, from: Address, to: Address, payload: seq<byte>,
                                        value: int)
    requires NonNegative(m) && value >= 0 && Called(pre, m, from, to, payload, value).Some?
    ensures Supply(Called(pre, m, from, to, payload, value).value) == Supply(m)
  {
    CreatedSpec(m, to);
    MovedSupply(Created(m, to), from, to, value);
  }

  lemma {:induction false} AppliedAllSpec(pre: Precompiles, m: Accounts, txs: seq<Tx>)
    requires NonNegative(m) && Plain(txs) && AppliedAll(pre, m, txs).Some?
    ensures NonNegative(AppliedAll(pre, m, txs).value) && Supply(AppliedAll(pre, m, txs).value) == Supply(m)
    decreases |txs|
  {
    if txs != [] {
      AppliedSpec(pre, m, txs[0]);
      AppliedSupply(pre, m, txs[0]);
      AppliedAllSpec(pre, Applied(pre, m, txs[0]).value, txs[1..]);
    }
  }

  // ---------------------------------------------------------------- rewards

  function GetReward(height: nat): int {
    var era := height / BLOCKS_PER_ERA;
    if era < |REWARD_TABLE| then REWARD_TABLE[era] else TAIL_REWARD
  }

  /** All rewards up to a height. */
  function Issued(height: nat): int {
    if height == 0 then 0 else Issued(height - 1) + GetReward(height)
  }

  lemma IssuedStep(height: nat)
    ensures Issued(height + 1) == Issued(height) + GetReward(height + 1)
  {
  }

  /** How many of the heights 1..height lie in the given era. */
  function InEra(height: nat, era: nat): nat {
    var start := if era == 0 then 1 else era * BLOCKS_PER_ERA;
    var end := (era + 1) * BLOCKS_PER_ERA - 1;
    if height < start then 0 else if height <= end then height - start + 1 else end - start + 1
  }

  /** The supply schedule: 200, 100, 50, 40 coins a block in the first four eras, 30 for ever after. */
  lemma {:induction false} IssuedSchedule(height: nat)
    ensures Issued(height) ==
            200 * InEra(height, 0) + 100 * InEra(height, 1) + 50 * InEra(height, 2) + 40 * InEra(height, 3)
            + 30 * (if height < 4 * BLOCKS_PER_ERA then 0 else height - 4 * BLOCKS_PER_ERA + 1)
  {
    if height > 0 { IssuedSchedule(height - 1); }
  }

  // ---------------------------------------------------------------- blocks

  predicate RewardOk(b: Block) {
    && |b.txs| > 0 && b.txs[0].to == Some(b.header.creator)
    && b.txs[0].amount == Some(GetReward(b.header.height))
  }

  function Rewarded(m: Accounts, to: Address, amount: int): Accounts {
    Credited(Created(m, to), to, amount)
  }

  function BlockApplied(pre: Precompiles, m: Accounts, b: Block): Option<Accounts>
    requires Plain(b.txs)
  {
    if !RewardOk(b) then None
    else AppliedAll(pre, Rewarded(m, b.header.creator, GetReward(b.header.height)), b.txs[1..])
  }

  lemma {:induction false} BlockAppliedSpec(pre: Precompiles, m: Accounts, b: Block)
    requires NonNegative(m) && Plain(b.txs) && BlockApplied(pre, m, b).Some?
    ensures NonNegative(BlockApplied(pre, m, b).value)
    ensures Supply(BlockApplied(pre, m, b).value) == Supply(m) + GetReward(b.header.height)
  {
    CreatedSpec(m, b.header.creator);
    CreditSupply(Created(m, b.header.creator), b.header.creator, GetReward(b.header.height));
    AppliedAllSpec(pre, Rewarded(m, b.header.creator, GetReward(b.header.height)), b.txs[1..]);
  }

  // ---------------------------------------------------------------- on the state database

  method Validate(tx: Tx, s: Statedb) returns (err: Option<TxError>)
    requires s.Valid()
    modifies s, s.trie, s.trie.S, s.cache, s.objects
    ensures s.Valid() && s.accounts == old(s.accounts) && s.trie.log == old(s.trie.log)
    ensures fresh(s.trie.S - old(s.trie.S)) && fresh(s.objects - old(s.objects))
    ensures err == Check(s.accounts, tx)
  {
    if tx.amount.None? { return Some(AmountNil); }
    if tx.amount.value < 0 { return Some(AmountNegative); }
    var balance := s.GetBalance(tx.from);
    if tx.amount.value > balance { return Some(BalanceNotEnough); }
    var nonce := s.GetNonce(tx.from);
    if tx.nonce < nonce { return Some(NonceTooLow); }
    if |tx.payload| > MAX_PAYLOAD_SIZE { return Some(PayloadOversized); }
    if !tx.signed { return Some(SignatureInvalid); }
    return None;
  }

  method Transfer(s: Statedb, from: Address, to: Address, value: int)
    requires s.Valid()
    modifies s, s.trie, s.trie.S, s.cache, s.objects
    ensures s.Valid() && s.accounts == Moved(old(s.accounts), from, to, value) && s.trie.log == old(s.trie.log)
    ensures fresh(s.trie.S - old(s.trie.S)) && fresh(s.objects - old(s.objects))
  {
    s.SubBalance(from, value);
    s.AddBalance(to, value);
  }

  /** EVM.Call at depth 0 on an account without code. */
  method Call(pre: Precompiles, s: Statedb, from: Address, to: Address, payload: seq<byte>, value: int)
    returns (ok: bool)
    requires s.Valid()
    modifies s, s.trie, s.trie.S, s.cache, s.objects
    ensures s.Valid() && s.trie.log == old(s.trie.log)
    ensures fresh(s.trie.S - old(s.trie.S)) && fresh(s.objects - old(s.objects))
    ensures ok == Called(pre, old(s.accounts), from, to, payload, value).Some?
    ensures ok ==> s.accounts == Called(pre, old(s.accounts), from, to, payload, value).value
  {
    var balance := s.GetBalance(from);
    if balance < value { return false; }
    var exist := s.Exist(to);
    assert fresh(s.trie.S - old(s.trie.S)) && fresh(s.objects - old(s.objects));
    if !exist {
      if to !in pre && value == 0 { return true; }
      s.CreateAccount(to);
    }
    assert fresh(s.trie.S - old(s.trie.S)) && fresh(s.objects - old(s.objects));
    assert s.accounts == Created(old(s.accounts), to);
    Transfer(s, from, to, value);
    assert s.accounts == Moved(Created(old(s.accounts), to), from, to, value);
    return to !in pre || pre[to](payload);
  }

  method ProcessContract(pre: Precompiles, tx: Tx, s: Statedb) returns (ok: bool, postState: Digest)
    requires s.Valid() && tx.to.Some? && Check(s.accounts, tx).None?
    modifies s, s.trie, s.trie.S, s.cache, s.objects
    ensures s.Valid() && s.trie.log == old(s.trie.log)
    ensures fresh(s.trie.S - old(s.trie.S)) && fresh(s.objects - old(s.objects))
    ensures ok == Applied(pre, old(s.accounts), tx).Some?
    ensures ok ==> s.accounts == Applied(pre, old(s.accounts), tx).value && s.Clean() && postState == s.trie.digest
  {
    var nonce := s.GetNonce(tx.from);
    s.SetNonce(tx.from, NextNonce(nonce));
    assert fresh(s.trie.S - old(s.trie.S)) && fresh(s.objects - old(s.objects));
    ok := Call(pre, s, tx.from, tx.to.value, tx.payload, tx.amount.value);
    assert fresh(s.trie.S - old(s.trie.S)) && fresh(s.objects - old(s.objects));
    if !ok { return false, EmptyDigest; }
    postState := s.Commit(null);
  }

  method UpdateStateDB(pre: Precompiles, s: Statedb, to: Address, amount: int, txs: seq<Tx>) returns (ok: bool)
    requires s.Valid() && Plain(txs)
    modifies s, s.trie, s.trie.S, s.cache, s.objects
    ensures s.Valid() && s.trie.log == old(s.trie.log)
    ensures fresh(s.trie.S - old(s.trie.S)) && fresh(s.objects - old(s.objects))
    ensures ok == AppliedAll(pre, Rewarded(old(s.accounts), to, amount), txs).Some?
    ensures ok ==> s.accounts == AppliedAll(pre, Rewarded(old(s.accounts), to, amount), txs).value
  {
    PayReward(s, to, amount);
    ghost var start := s.accounts;
    for i := 0 to |txs|
      invariant s.Valid() && s.trie.log == old(s.trie.log)
      invariant fresh(s.trie.S - old(s.trie.S)) && fresh(s.objects - old(s.objects))
      invariant AppliedAll(pre, s.accounts, txs[i..]) == AppliedAll(pre, start, txs)
    {
      assert txs[i..][0] == txs[i] && txs[i..][1..] == txs[i + 1..];
      ok := ApplyTransaction(pre, txs[i], s);
      if !ok { return false; }
    }
    ok := true;
  }

  method ApplyTransaction(pre: Precompiles, tx: Tx, s: Statedb) returns (ok: bool)
    requires s.Valid() && tx.to.Some?
    modifies s, s.trie, s.trie.S, s.cache, s.objects
    ensures s.Valid() && s.trie.log == old(s.trie.log)
    ensures fresh(s.trie.S - old(s.trie.S)) && fresh(s.objects - old(s.objects))
    ensures ok == Applied(pre, old(s.accounts), tx).Some?
    ensures ok ==> s.accounts == Applied(pre, old(s.accounts), tx).value
  {
    var err := Validate(tx, s);
    if err.Some? { return false; }
    assert fresh(s.trie.S - old(s.trie.S)) && fresh(s.objects - old(s.objects));
    var done, _ := ProcessContract(pre, tx, s);
    return done;
  }

  method PayReward(s: Statedb, to: Address, amount: int)
    requires s.Valid()
    modifies s, s.trie, s.trie.S, s.cache, s.objects
    ensures s.Valid() && s.trie.log == old(s.trie.log)
    ensures fresh(s.trie.S - old(s.trie.S)) && fresh(s.objects - old(s.objects))
    ensures s.accounts == Rewarded(old(s.accounts), to, amount)
  {
    var o := s.GetOrNewStateObject(to);
    assert s.accounts == Created(old(s.accounts), to);
    Credit(s, to, o, amount);
  }

  method Credit(s: Statedb, to: Address, o: StateObject, amount: int)
    requires s.Valid() && to in s.accounts && to in s.cache.items && s.cache.items[to] == o
    modifies s`accounts, o
    ensures s.Valid() && s.accounts == Credited(old(s.accounts), to, amount)
  {
    s.DoAddAmount(to, o, amount);
  }

  method ValidateMinerRewardTx(b: Block) returns (ok: bool)
    ensures ok == RewardOk(b)
  {
    if |b.txs| == 0 { return false; }
    var tx := b.txs[0];
    if tx.to.None? || tx.to.value != b.header.creator { return false; }
    if tx.amount.None? || tx.amount.value < 0 { return false; }
    return tx.amount.value == GetReward(b.header.height);
  }

  // ---------------------------------------------------------------- all accepted blocks

  /** `root` is the canonical trie root of the accounts `m`. */
  ghost predicate IsRoot(codec: Codec, root: Digest, m: Accounts) {
    Holds(root, codec.Encoded(m)) && IsCanonical(root)
  }

  /** `m` is the state of a block with header `h`: no debts, and exactly the issued coins. */
  ghost predicate Accounted(codec: Codec, genesis: Accounts, h: Header, m: Accounts) {
    && IsRoot(codec, h.stateHash, m) && NonNegative(m)
    && Supply(m) == Supply(genesis) + Issued(h.height)
  }

  /** A child whose accounts have no debts and exactly its reward more than its parent's. */
  lemma {:induction false} ChildAccounted(codec: Codec, genesis: Accounts, parent: Header, m: Accounts,
                                          h: Header, m': Accounts)
    requires Accounted(codec, genesis, parent, m) && h.height == parent.height + 1
    requires IsRoot(codec, h.stateHash, m') && NonNegative(m') && Supply(m') == Supply(m) + GetReward(h.height)
    ensures Accounted(codec, genesis, h, m')
  {
    IssuedStep(parent.height);
  }

  /** The account-state database behind WriteBlock. `accepted` has every block accepted so far, on
      whatever fork, by its header. */
  class StateStore {
    const db: Database
    const codec: Codec
    const pre: Precompiles
    ghost const genesis: Accounts
    ghost var accepted: map<Header, Accounts>

    ghost predicate Good(h: Header)
      requires h in accepted
      reads this, db
    {
      Stored(db.content, h.stateHash) && Accounted(codec, genesis, h, accepted[h])
    }

    ghost predicate Valid()
      reads this, db
    {
      codec.Lawful() && Honest(db.content) && forall h :: h in accepted ==> Good(h)
    }

    constructor (db: Database, codec: Codec, pre: Precompiles, genesis: Header, ghost m: Accounts)
      requires codec.Lawful() && Honest(db.content) && NonNegative(m) && genesis.height == 0
      requires Stored(db.content, genesis.stateHash) && IsRoot(codec, genesis.stateHash, m)
      ensures Valid() && this.db == db && this.genesis == m && accepted == map[genesis := m]
    {
      this.db, this.codec, this.pre, this.genesis, accepted := db, codec, pre, m, map[genesis := m];
    }

    /** The block follows its parent, its transactions apply, and its header names the root of the
        resulting accounts. */
    ghost predicate Follows(parent: Header, b: Block)
      requires parent in accepted && Plain(b.txs)
      reads this
    {
      && b.header.height == parent.height + 1
      && BlockApplied(pre, accepted[parent], b).Some?
      && IsRoot(codec, b.header.stateHash, BlockApplied(pre, accepted[parent], b).value)
    }

    /** A block is accepted exactly when it follows its parent. A rejected block leaves no trace. */
    method WriteBlock(parent: Header, b: Block) returns (ok: bool)
      requires Valid() && parent in accepted && Plain(b.txs)
      modifies this, db
      ensures Valid() && Extends(old(db.content), db.content)
      ensures ok <==> old(Follows(parent, b))
      ensures !ok ==> accepted == old(accepted) && db.content == old(db.content)
      ensures ok ==> accepted == old(accepted)[b.header := BlockApplied(pre, old(accepted)[parent], b).value]
    {
      if b.header.height != parent.height + 1 { return false; }
      var batch;
      ok, batch := Execute(parent, b);
      if ok { Accept(parent, b, batch); }
    }

    /** Apply the block and check its root; what would have to be written is left in a batch. */
    method Execute(parent: Header, b: Block) returns (ok: bool, batch: Batch)
      requires Valid() && parent in accepted && Plain(b.txs) && b.header.height == parent.height + 1
      ensures fresh(batch) && (ok <==> Follows(parent, b))
      ensures ok ==> Honest(batch.puts) && Stored(db.content + batch.puts, b.header.stateHash)
    {
      var applied, s := ApplyTxs(parent, b);
      if !applied {
        batch := new Batch();
        return false, batch;
      }
      var root;
      root, batch := CommitState(s);
      RootIff(codec, root, b.header.stateHash, s.accounts);
      ok := root == b.header.stateHash;
    }

    method CommitState(s: Statedb) returns (root: Digest, batch: Batch)
      requires s.Valid() && s.db == db && s.codec == codec && s.trie.log == db.content
      modifies s.trie, s.trie.S, s.objects
      ensures s.accounts == old(s.accounts) && fresh(batch) && Honest(batch.puts)
      ensures IsRoot(codec, root, s.accounts) && Stored(db.content + batch.puts, root)
    {
      batch := new Batch();
      assert db.content + batch.puts == db.content;
      root := s.Commit(batch);
    }

    method ApplyTxs(parent: Header, b: Block) returns (ok: bool, s: Statedb?)
      requires Valid() && parent in accepted && Plain(b.txs)
      ensures ok <==> BlockApplied(pre, accepted[parent], b).Some?
      ensures ok ==>
        && s != null && s.Valid() && s.db == db && s.codec == codec && s.trie.log == db.content
        && s.accounts == BlockApplied(pre, accepted[parent], b).value
        && fresh(s) && fresh(s.trie) && fresh(s.trie.S) && fresh(s.cache) && fresh(s.objects)
    {
      assert Good(parent);
      var valid := ValidateMinerRewardTx(b);
      if !valid { return false, null; }
      s := Statedb.NewStatedb(parent.stateHash, db, codec, accepted[parent]);
      if s == null { return false, null; }
      ok := UpdateStateDB(pre, s, b.txs[0].to.value, b.txs[0].amount.value, b.txs[1..]);
    }

    method Accept(parent: Header, b: Block, batch: Batch)
      requires Valid() && parent in accepted && Plain(b.txs) && Follows(parent, b)
      requires Honest(batch.puts) && Stored(db.content + batch.puts, b.header.stateHash)
      modifies this, db
      ensures Valid() && Extends(old(db.content), db.content)
      ensures accepted == old(accepted)[b.header := BlockApplied(pre, old(accepted)[parent], b).value]
    {
      ghost var m := BlockApplied(pre, accepted[parent], b).value;
      assert Good(parent);
      BlockAppliedSpec(pre, accepted[parent], b);
      ChildAccounted(codec, genesis, parent, accepted[parent], b.header, m);
      HonestUnion(db.content, batch.puts);
      db.Write(batch);
      accepted := accepted[b.header := m];
      assert Good(b.header);
      forall h | h in accepted && h != b.header ensures Good(h) {
        assert old(Good(h));
        StoredMono(old(db.content), db.content, h.stateHash);
      }
    }

    /** The state of an accepted block can always be opened again. */
    method OpenState(h: Header) returns (s: Statedb?)
      requires Valid() && h in accepted
      ensures s != null && s.Valid() && s.accounts == accepted[h] && s.trie.digest == h.stateHash
    {
      assert Good(h);
      s := Statedb.NewStatedb(h.stateHash, db, codec, accepted[h]);
    }
  }

  lemma HonestUnion(content: Store, puts: Store)
    requires Honest(content) && Honest(puts)
    ensures Honest(content + puts) && Extends(content, content + puts)
  {
  }

  lemma RootIff(codec: Codec, root: Digest, root': Digest, m: Accounts)
    requires IsRoot(codec, root, m)
    ensures root == root' <==> IsRoot(codec, root', m)
  {
    if IsRoot(codec, root', m) { HoldsUnique(root, root', codec.Encoded(m)); }
  }
}
