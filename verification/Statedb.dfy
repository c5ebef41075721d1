/** The account state of core/state: a bounded cache of possibly dirty account objects over
    the state trie. Only accounts without contract code are modelled. */
module Statedb {
  import opened Basics
  import opened Blocks
  import opened Patricia
  import opened Canonical
  import opened TrieNodes
  import opened Trie
  import opened TrieRuns

  datatype Account = Account(nonce: uint64, amount: int)
  type Accounts = map<Address, Account>

  const STATE_CACHE_CAPACITY: nat := 1000

  /** The encoding of accounts (RLP): it refuses negative amounts, never gives an empty
      string, and can be read back. */
  datatype Codec = Codec(enc: Account -> Value, dec: Value -> Option<Account>) {
    ghost predicate Lawful() {
      forall a: Account :: a.amount >= 0 ==> enc(a) != [] && dec(enc(a)) == Some(a)
    }
    ghost function Encoded(accounts: Accounts): map<seq<byte>, Value> {
      map a | a in accounts :: enc(accounts[a])
    }
  }

  predicate NonNegative(accounts: Accounts) {
    forall a :: a in accounts ==> accounts[a].amount >= 0
  }

  /** Equal encodings come from equal account maps. */
  lemma EncodedInjective(codec: Codec, m: Accounts, m': Accounts)
    requires codec.Lawful() && NonNegative(m) && NonNegative(m')
    requires codec.Encoded(m) == codec.Encoded(m')
    ensures m == m'
  {
    assert m.Keys == codec.Encoded(m).Keys == m'.Keys;
    forall a | a in m ensures m[a] == m'[a] {
      assert codec.enc(m[a]) == codec.Encoded(m)[a] == codec.Encoded(m')[a] == codec.enc(m'[a]);
      assert codec.dec(codec.enc(m[a])) == Some(m[a]);
    }
  }

  class StateObject {
    const address: Address
    var account: Account
    var dirty: bool

    constructor (address: Address)
      ensures this.address == address && account == Account(0, 0) && !dirty
    {
      this.address, account, dirty := address, Account(0, 0), false;
    }

    method SetNonce(nonce: uint64)
      modifies this
      ensures account == old(account).(nonce := nonce) && dirty
    {
      account, dirty := account.(nonce := nonce), true;
    }

    /** A negative amount is ignored. */
    method SetAmount(amount: int)
      modifies this
      ensures account == Charged(old(account), amount)
      ensures dirty == (old(dirty) || amount >= 0)
    {
      if amount >= 0 {
        account, dirty := account.(amount := amount), true;
      }
    }

    method AddAmount(amount: int)
      modifies this
      ensures account == Charged(old(account), old(account.amount) + amount)
      ensures dirty == (old(dirty) || old(account.amount) + amount >= 0)
    {
      SetAmount(account.amount + amount);
    }

    method SubAmount(amount: int)
      modifies this
      ensures account == Charged(old(account), old(account.amount) - amount)
      ensures dirty == (old(dirty) || old(account.amount) - amount >= 0)
    {
      SetAmount(account.amount - amount);
    }
  }

  function Charged(a: Account, amount: int): Account {
    if amount >= 0 then a.(amount := amount) else a
  }

  // ---------------------------------------------------------------- the LRU cache

  predicate Distinct(s: seq<Address>) {
    forall i, j :: 0 <= i < j < |s| ==> s[i] != s[j]
  }

  function Without(s: seq<Address>, k: Address): (r: seq<Address>)
    ensures forall x :: x in r <==> x in s && x != k
    ensures Distinct(s) ==> Distinct(r)
    ensures Distinct(s) ==> |r| == if k in s then |s| - 1 else |s|
  {
    if s == [] then []
    else
      var r := Without(s[1..], k);
      assert forall x :: x in s <==> x == s[0] || x in s[1..];
      assert Distinct(s) ==> Distinct(s[1..]) && s[0] !in s[1..];
      if s[0] == k then r else [s[0]] + r
  }

  class LRU {
    const size: nat
    var order: seq<Address>                 // the keys, oldest first
    var items: map<Address, StateObject>

    ghost predicate Valid()
      reads this
    {
      && Distinct(order)
      && (forall k :: k in order <==> k in items)
      && |order| <= size
    }

    constructor (size: nat)
      ensures Valid() && this.size == size && items == map[] && order == []
    {
      this.size, order, items := size, [], map[];
    }

    method Get(k: Address) returns (v: StateObject?)
      requires Valid()
      modifies this`order
      ensures Valid() && |order| == |old(order)|
      ensures v == if k in items then items[k] else null
      ensures order == if k in items then Without(old(order), k) + [k] else old(order)
    {
      if k !in items { return null; }
      order := Without(order, k) + [k];
      return items[k];
    }

    method Peek(k: Address) returns (v: StateObject?)
      ensures v == if k in items then items[k] else null
    {
      if k in items { return items[k]; } else { return null; }
    }

    method RemoveOldest()
      requires Valid()
      modifies this
      ensures Valid()
      ensures order == if old(order) == [] then [] else old(order)[1..]
      ensures items == if old(order) == [] then old(items) else old(items) - {old(order)[0]}
    {
      if order != [] {
        assert forall x :: x in order <==> x == order[0] || x in order[1..];
        items := items - {order[0]};
        order := order[1..];
      }
    }

    method Add(k: Address, v: StateObject) returns (evicted: bool)
      requires Valid() && size > 0
      modifies this
      ensures Valid()
      ensures evicted == (k !in old(items) && |old(order)| == size)
      ensures !evicted ==> items == old(items)[k := v] && order == Without(old(order), k) + [k]
      ensures evicted ==> items == (old(items) - {old(order)[0]})[k := v] && order == old(order)[1..] + [k]
    {
      evicted := k !in items && |order| == size;
      if evicted { RemoveOldest(); }
      order := Without(order, k) + [k];
      items := items[k := v];
      if evicted { WithoutAbsent(old(order)[1..], k); }
    }
  }

  lemma WithoutAbsent(s: seq<Address>, k: Address)
    requires k !in s
    ensures Without(s, k) == s
  {
    if s != [] {
      assert k !in s[1..];
      WithoutAbsent(s[1..], k);
    }
  }

  // ---------------------------------------------------------------- the state database

  class Statedb {
    const db: Database
    const codec: Codec
    const trie: Trie
    const cache: LRU
    ghost var accounts: Accounts        // what this object stands for
    ghost var objects: set<StateObject>      // the cached objects, and those already evicted

    /** The cache and the trie at one address, against the account map. */
    ghost predicate At(a: Address)
      reads this, trie`contents, cache`items, objects
      requires forall k :: k in cache.items ==> cache.items[k] in objects
    {
      && (a in accounts <==> a in cache.items || a in trie.contents)
      && (a in cache.items ==>
            var o := cache.items[a];
            && o.address == a && o.account == accounts[a]
            && (!o.dirty ==> a in trie.contents && trie.contents[a] == codec.enc(accounts[a])))
      && (a !in cache.items && a in trie.contents ==> trie.contents[a] == codec.enc(accounts[a]))
    }

    ghost predicate Separate()
      reads this, trie`S, cache`items
    {
      && db == trie.db && cache.size == STATE_CACHE_CAPACITY
      && (forall k :: k in cache.items ==> cache.items[k] in objects)
      && this !in trie.S && cache !in trie.S && objects !! trie.S
    }

    ghost predicate Valid()
      reads this, trie, trie.S, cache, objects, db
    {
      && Separate() && codec.Lawful() && NonNegative(accounts)
      && trie.Valid() && IsCanonical(trie.digest) && cache.Valid()
      && (forall a :: At(a))
    }

    /** Every cached object has been written to the trie. */
    ghost predicate Clean()
      requires Separate()
      reads this, trie`S, cache`items, objects
    {
      forall a :: a in cache.items ==> !cache.items[a].dirty
    }

    lemma CleanContents()
      requires Valid() && Clean()
      ensures trie.contents == codec.Encoded(accounts)
    {
      forall a ensures a in trie.contents <==> a in accounts
               ensures a in accounts ==> trie.contents[a] == codec.enc(accounts[a])
      {
        assert At(a);
      }
    }

    constructor (trie: Trie, codec: Codec, ghost m: Accounts)
      requires trie.Valid() && IsCanonical(trie.digest) && codec.Lawful() && NonNegative(m)
      requires trie.contents == codec.Encoded(m)
      ensures Valid() && Clean() && accounts == m && objects == {}
      ensures this.trie == trie && this.codec == codec && db == trie.db && fresh(cache)
    {
      this.db, this.trie, this.codec, accounts, objects := trie.db, trie, codec, m, {};
      cache := new LRU(STATE_CACHE_CAPACITY);
    }

    /** NewStatedb: fails exactly when the trie cannot be opened. `m` names the accounts
        the root stands for. */
    static method NewStatedb(root: Digest, db: Database, codec: Codec, ghost m: Accounts) returns (s: Statedb?)
      requires codec.Lawful() && NonNegative(m)
      requires root == EmptyDigest || root in db.content ==>
                 Stored(db.content, root) && Holds(root, codec.Encoded(m)) && IsCanonical(root)
      ensures s == null <==> root != EmptyDigest && root !in db.content
      ensures s != null ==>
        && s.Valid() && s.Clean() && s.accounts == m
        && s.db == db && s.codec == codec && s.trie.digest == root && s.trie.log == db.content
        && fresh(s) && fresh(s.trie) && fresh(s.trie.S) && fresh(s.cache) && s.objects == {}
    {
      var t := Trie.Open(root, db, codec.Encoded(m));
      if t == null { return null; }
      s := new Statedb(t, codec, m);
    }

    /** The cached object of this address has been written to the trie. */
    ghost predicate Written(a: Address)
      requires Separate()
      reads this, trie`S, cache`items, objects
    {
      a in cache.items && !cache.items[a].dirty
    }

    lemma AllWritten()
      requires Valid() && forall j :: 0 <= j < |cache.order| ==> Written(cache.order[j])
      ensures Clean()
    {
      forall a | a in cache.items ensures !cache.items[a].dirty {
        assert a in cache.order;
        assert Written(a);
      }
    }

    method CommitOne(addr: Address, obj: StateObject)
      requires Valid() && addr in cache.items && obj == cache.items[addr]
      modifies trie, trie.S, obj`dirty
      ensures Valid() && accounts == old(accounts) && fresh(trie.S - old(trie.S)) && trie.log == old(trie.log)
      ensures Written(addr) && forall a :: old(Written(a)) ==> Written(a)
    {
      assert At(addr);
      if obj.dirty {
        PutObject(addr, obj);
        obj.dirty := false;
        forall a ensures At(a) { assert old(At(a)); }
      }
    }

    method PutObject(addr: Address, obj: StateObject)
      requires Valid() && addr in cache.items && obj == cache.items[addr] && obj.dirty
      modifies trie, trie.S
      ensures Valid() && fresh(trie.S - old(trie.S)) && trie.log == old(trie.log)
      ensures addr in accounts && trie.contents == old(trie.contents)[addr := codec.enc(accounts[addr])]
    {
      assert At(addr);
      PutShape(trie.digest, Hex(addr), codec.enc(obj.account), false);
      trie.Put(addr, codec.enc(obj.account));
      forall a ensures At(a) { assert old(At(a)); }
    }

    /** Write every dirty object to the trie. */
    method CommitObjects()
      requires Valid()
      modifies trie, trie.S, objects
      ensures Valid() && Clean() && accounts == old(accounts)
      ensures fresh(trie.S - old(trie.S)) && trie.log == old(trie.log)
      ensures trie.contents == codec.Encoded(accounts)
    {
      var keys := cache.order;
      for i := 0 to |keys|
        invariant Valid() && fresh(trie.S - old(trie.S)) && trie.log == old(trie.log)
        invariant forall j :: 0 <= j < i ==> Written(keys[j])
      {
        var object_ := cache.Peek(keys[i]);
        if object_ != null {
          CommitOne(keys[i], object_);
        }
      }
      AllWritten();
      CleanContents();
    }

    /** Commit: afterwards the trie holds the encoded account map, nothing is dirty, and with
        a batch the whole trie is stored under the returned root. */
    method Commit(batch: Batch?) returns (h: Digest)
      requires Valid() && batch !in trie.S
      requires batch != null ==> Honest(batch.puts)
      modifies trie, trie.S, objects, batch
      ensures Valid() && Clean() && accounts == old(accounts) && fresh(trie.S - old(trie.S))
      ensures h == trie.digest && trie.contents == codec.Encoded(accounts)
      ensures batch == null ==> trie.log == old(trie.log)
      ensures batch != null ==> Honest(batch.puts)
      ensures batch != null && Extends(old(trie.log), old(db.content + batch.puts))
              ==> Stored(db.content + batch.puts, h)
    {
      CommitObjects();
      h := trie.Commit(batch);
    }

    /** Make room in a full cache: a quarter of it goes, and only clean objects go. */
    method EvictQuarter()
      requires Valid() && Clean() && |cache.order| == STATE_CACHE_CAPACITY
      modifies cache
      ensures Valid() && Clean() && |cache.order| < STATE_CACHE_CAPACITY
      ensures forall k :: k in cache.items ==> k in old(cache.items) && cache.items[k] == old(cache.items[k])
      ensures forall k :: k in old(cache.items) && k !in cache.items ==>
                k in accounts && k in trie.contents && trie.contents[k] == codec.enc(accounts[k])
    {
      for i := 0 to STATE_CACHE_CAPACITY / 4
        invariant Separate() && cache.Valid() && |cache.order| == STATE_CACHE_CAPACITY - i
        invariant forall k :: k in cache.items ==> k in old(cache.items) && cache.items[k] == old(cache.items[k])
      {
        cache.RemoveOldest();
      }
      forall a ensures At(a) && (a in old(cache.items) && a !in cache.items ==>
                a in accounts && a in trie.contents && trie.contents[a] == codec.enc(accounts[a]))
      {
        assert old(At(a));
      }
    }

    /** Enter an object that is not cached: a new dirty one, or one just read from the trie. */
    method Cache(addr: Address, obj: StateObject) returns (evicted: bool)
      requires Valid() && addr !in cache.items && obj !in objects && obj !in trie.S
      requires obj.address == addr && obj.account.amount >= 0
      requires addr in accounts ==> obj.account == accounts[addr]
      requires addr !in accounts ==> obj.dirty
      modifies this, trie, trie.S, cache, objects
      ensures Valid() && !evicted && fresh(trie.S - old(trie.S)) && trie.log == old(trie.log)
      ensures accounts == old(accounts)[addr := obj.account]
      ensures objects == old(objects) + {obj} && addr in cache.items && cache.items[addr] == obj
    {
      if |cache.order| == STATE_CACHE_CAPACITY {
        var _ := Commit(null);
        EvictQuarter();
      }
      evicted := Enter(addr, obj);
    }

    method Enter(addr: Address, obj: StateObject) returns (evicted: bool)
      requires Valid() && addr !in cache.items && obj !in objects && obj !in trie.S
      requires obj.address == addr && obj.account.amount >= 0 && |cache.order| < STATE_CACHE_CAPACITY
      requires addr in accounts ==> obj.account == accounts[addr]
      requires addr !in accounts ==> obj.dirty
      modifies this, cache
      ensures Valid() && !evicted
      ensures accounts == old(accounts)[addr := obj.account]
      ensures objects == old(objects) + {obj} && addr in cache.items && cache.items[addr] == obj
    {
      evicted := cache.Add(addr, obj);
      accounts, objects := accounts[addr := obj.account], objects + {obj};
      forall a ensures At(a) { assert old(At(a)); }
    }

    method GetStateObject(addr: Address) returns (o: StateObject?)
      requires Valid()
      modifies this, trie, trie.S, cache, objects
      ensures Valid() && accounts == old(accounts) && trie.log == old(trie.log)
      ensures fresh(trie.S - old(trie.S)) && fresh(objects - old(objects))
      ensures if addr in accounts then addr in cache.items && o == cache.items[addr] && o.account == accounts[addr]
              else addr !in cache.items && o == null
    {
      o := Cached(addr);
      if o == null { o := Load(addr); }
    }

    /** A cache hit gives the account's own object. */
    method Cached(addr: Address) returns (o: StateObject?)
      requires Valid()
      modifies cache`order
      ensures Valid() && o == if addr in cache.items then cache.items[addr] else null
      ensures addr in cache.items ==> addr in accounts && o.account == accounts[addr]
    {
      assert At(addr);
      o := cache.Get(addr);
      forall a ensures At(a) { assert old(At(a)); }
    }

    /** A cache miss: read the account from the trie, if it is there. */
    method Load(addr: Address) returns (o: StateObject?)
      requires Valid() && addr !in cache.items
      modifies this, trie, trie.S, cache, objects
      ensures Valid() && accounts == old(accounts) && trie.log == old(trie.log)
      ensures fresh(trie.S - old(trie.S)) && fresh(objects - old(objects))
      ensures if addr in accounts then addr in cache.items && o == cache.items[addr] && o.account == accounts[addr]
              else addr !in cache.items && o == null
    {
      assert At(addr);
      var val, _ := trie.Get(addr);
      if |val| == 0 { return null; }
      var account := codec.dec(val);
      if account.None? { return null; }
      o := new StateObject(addr);
      o.account := account.value;
      var _ := Cache(addr, o);
    }

    method GetOrNewStateObject(addr: Address) returns (o: StateObject)
      requires Valid()
      modifies this, trie, trie.S, cache, objects
      ensures Valid() && trie.log == old(trie.log)
      ensures fresh(trie.S - old(trie.S)) && fresh(objects - old(objects))
      ensures accounts == Created(old(accounts), addr)
      ensures addr in cache.items && cache.items[addr] == o && o.account == accounts[addr]
    {
      var found := GetStateObject(addr);
      if found != null { return found; }
      o := new StateObject(addr);
      o.SetNonce(0);
      var _ := Cache(addr, o);
    }

    /** Valid, except that the cached object of `addr` may have been written since. */
    ghost predicate ValidBut(addr: Address)
      reads this, trie, trie.S, cache, objects, db
    {
      && Separate() && codec.Lawful() && NonNegative(accounts)
      && trie.Valid() && IsCanonical(trie.digest) && cache.Valid()
      && (forall a :: a != addr ==> At(a))
      && addr in accounts && addr in cache.items && cache.items[addr].address == addr
      && cache.items[addr].account.amount >= 0 && (cache.items[addr].dirty || At(addr))
    }

    ghost method Record(addr: Address)
      requires ValidBut(addr)
      modifies this`accounts
      ensures Valid() && accounts == old(accounts)[addr := cache.items[addr].account]
    {
      accounts := accounts[addr := cache.items[addr].account];
      forall a ensures At(a) { if a != addr { assert old(At(a)); } }
    }

    method DoSetAmount(addr: Address, o: StateObject, amount: int)
      requires Valid() && addr in accounts && addr in cache.items && cache.items[addr] == o
      modifies this`accounts, o
      ensures Valid() && accounts == WithBalance(old(accounts), addr, amount)
    {
      assert At(addr);
      o.SetAmount(amount);
      forall a | a != addr ensures At(a) { assert old(At(a)); }
      Record(addr);
    }

    method DoAddAmount(addr: Address, o: StateObject, amount: int)
      requires Valid() && addr in accounts && addr in cache.items && cache.items[addr] == o
      modifies this`accounts, o
      ensures Valid() && accounts == Credited(old(accounts), addr, amount)
    {
      assert At(addr);
      o.AddAmount(amount);
      forall a | a != addr ensures At(a) { assert old(At(a)); }
      Record(addr);
    }

    method DoSubAmount(addr: Address, o: StateObject, amount: int)
      requires Valid() && addr in accounts && addr in cache.items && cache.items[addr] == o
      modifies this`accounts, o
      ensures Valid() && accounts == Debited(old(accounts), addr, amount)
    {
      assert At(addr);
      o.SubAmount(amount);
      forall a | a != addr ensures At(a) { assert old(At(a)); }
      Record(addr);
    }

    method DoSetNonce(addr: Address, o: StateObject, nonce: uint64)
      requires Valid() && addr in accounts && addr in cache.items && cache.items[addr] == o
      modifies this`accounts, o
      ensures Valid() && accounts == WithNonce(old(accounts), addr, nonce)
    {
      assert At(addr);
      o.SetNonce(nonce);
      forall a | a != addr ensures At(a) { assert old(At(a)); }
      Record(addr);
    }

    method GetBalance(addr: Address) returns (balance: int)
      requires Valid()
      modifies this, trie, trie.S, cache, objects
      ensures Valid() && accounts == old(accounts) && trie.log == old(trie.log)
      ensures fresh(trie.S - old(trie.S)) && fresh(objects - old(objects))
      ensures balance == Balance(accounts, addr)
    {
      var o := GetStateObject(addr);
      return if o != null then o.account.amount else 0;
    }

    method GetNonce(addr: Address) returns (nonce: uint64)
      requires Valid()
      modifies this, trie, trie.S, cache, objects
      ensures Valid() && accounts == old(accounts) && trie.log == old(trie.log)
      ensures fresh(trie.S - old(trie.S)) && fresh(objects - old(objects))
      ensures nonce == Nonce(accounts, addr)
    {
      var o := GetStateObject(addr);
      return if o != null then o.account.nonce else 0;
    }

    method Exist(addr: Address) returns (exist: bool)
      requires Valid()
      modifies this, trie, trie.S, cache, objects
      ensures Valid() && accounts == old(accounts) && trie.log == old(trie.log)
      ensures fresh(trie.S - old(trie.S)) && fresh(objects - old(objects))
      ensures exist == (addr in accounts)
    {
      var o := GetStateObject(addr);
      return o != null;
    }

    method CreateAccount(addr: Address)
      requires Valid()
      modifies this, trie, trie.S, cache, objects
      ensures Valid() && trie.log == old(trie.log)
      ensures fresh(trie.S - old(trie.S)) && fresh(objects - old(objects))
      ensures accounts == Created(old(accounts), addr)
    {
      var _ := GetOrNewStateObject(addr);
    }

    method SetBalance(addr: Address, balance: int)
      requires Valid()
      modifies this, trie, trie.S, cache, objects
      ensures Valid() && trie.log == old(trie.log)
      ensures fresh(trie.S - old(trie.S)) && fresh(objects - old(objects))
      ensures accounts == WithBalance(old(accounts), addr, balance)
    {
      var o := GetStateObject(addr);
      if o != null {
        DoSetAmount(addr, o, balance);
      }
    }

    method AddBalance(addr: Address, amount: int)
      requires Valid()
      modifies this, trie, trie.S, cache, objects
      ensures Valid() && trie.log == old(trie.log)
      ensures fresh(trie.S - old(trie.S)) && fresh(objects - old(objects))
      ensures accounts == Credited(old(accounts), addr, amount)
    {
      var o := GetStateObject(addr);
      if o != null {
        DoAddAmount(addr, o, amount);
      }
    }

    method SubBalance(addr: Address, amount: int)
      requires Valid()
      modifies this, trie, trie.S, cache, objects
      ensures Valid() && trie.log == old(trie.log)
      ensures fresh(trie.S - old(trie.S)) && fresh(objects - old(objects))
      ensures accounts == Debited(old(accounts), addr, amount)
    {
      var o := GetStateObject(addr);
      if o != null {
        DoSubAmount(addr, o, amount);
      }
    }

    method SetNonce(addr: Address, nonce: uint64)
      requires Valid()
      modifies this, trie, trie.S, cache, objects
      ensures Valid() && trie.log == old(trie.log)
      ensures fresh(trie.S - old(trie.S)) && fresh(objects - old(objects))
      ensures accounts == WithNonce(old(accounts), addr, nonce)
    {
      var o := GetStateObject(addr);
      if o != null {
        DoSetNonce(addr, o, nonce);
      }
    }
  }

  function Balance(accounts: Accounts, addr: Address): int {
    if addr in accounts then accounts[addr].amount else 0
  }

  function Nonce(accounts: Accounts, addr: Address): uint64 {
    if addr in accounts then accounts[addr].nonce else 0
  }

  function WithNonce(accounts: Accounts, addr: Address, nonce: uint64): Accounts {
    if addr in accounts then accounts[addr := accounts[addr].(nonce := nonce)] else accounts
  }

  function Credited(accounts: Accounts, addr: Address, amount: int): Accounts {
    WithBalance(accounts, addr, Balance(accounts, addr) + amount)
  }

  function Debited(accounts: Accounts, addr: Address, amount: int): Accounts {
    WithBalance(accounts, addr, Balance(accounts, addr) - amount)
  }

  function WithBalance(accounts: Accounts, addr: Address, amount: int): Accounts {
    if addr in accounts then accounts[addr := Charged(accounts[addr], amount)] else accounts
  }

  function Created(accounts: Accounts, addr: Address): Accounts {
    if addr in accounts then accounts else accounts[addr := Account(0, 0)]
  }

  lemma HoldsFunctional(d: Digest, m: Map, m': Map)
    requires Holds(d, m) && Holds(d, m')
    ensures m == m'
  {
    forall k: seq<byte> ensures k in m <==> k in m' ensures k in m && k in m' ==> m[k] == m'[k] {
      var _ := Lookup(d, Hex(k));
    }
  }

  /** Committed roots and account maps determine each other, whatever was written, read or
      evicted on the way. */
  lemma RootsAreAccounts(s: Statedb, t: Statedb)
    requires s.Valid() && s.Clean() && t.Valid() && t.Clean() && s.codec == t.codec
    ensures s.trie.digest == t.trie.digest <==> s.accounts == t.accounts
  {
    s.CleanContents();
    t.CleanContents();
    if s.accounts == t.accounts {
      HoldsUnique(s.trie.digest, t.trie.digest, s.trie.contents);
    } else if s.trie.digest == t.trie.digest {
      HoldsFunctional(s.trie.digest, s.trie.contents, t.trie.contents);
      EncodedInjective(s.codec, s.accounts, t.accounts);
    }
  }
}
