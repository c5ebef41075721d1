/** The trie object of trie/trie.go: its operations agree with a map, and a committed trie
    can be opened again from its root hash. */
module Trie {
  import opened Basics
  import opened Blocks
  import opened Patricia
  import opened Canonical
  import opened TrieNodes

  class Database {
    var content: Store
    constructor ()
      ensures content == map[]
    {
      content := map[];
    }
    /** Batch.Commit: all puts at once. */
    method Write(batch: Batch)
      modifies this
      ensures content == old(content) + batch.puts
    {
      content := content + batch.puts;
    }
  }

  /** The trie `d` holds exactly the key/value pairs of `m`. */
  ghost predicate Agrees(d: Digest, m: map<seq<byte>, Value>) {
    && (forall k: seq<byte> {:trigger Lookup(d, Hex(k))} :: Lookup(d, Hex(k)) == if k in m then Some(m[k]) else None)
    && (forall k: Key :: Terminated(k) && Lookup(d, k).Some? ==> |k| % 2 == 1)
  }

  /** `d` is a trie built by insertions and deletions, and holds the map `m`. */
  ghost predicate Holds(d: Digest, m: map<seq<byte>, Value>) {
    WF(d, false) && Reduced(d) && Agrees(d, m)
  }

  lemma HoldsPut(d: Digest, m: map<seq<byte>, Value>, key: seq<byte>, v: Value)
    requires Holds(d, m)
    ensures Holds(Put(d, Hex(key), v, false), m[key := v])
    ensures Put(d, Hex(key), v, false) != EmptyDigest
  {
    AgreesPut(d, m, key, v);
    PutWF(d, Hex(key), v, false);
    PutShape(d, Hex(key), v, false);
  }

  lemma HoldsDelete(d: Digest, m: map<seq<byte>, Value>, key: seq<byte>)
    requires Holds(d, m)
    ensures Delete(d, Hex(key), false).found == (key in m)
    ensures key !in m ==> Delete(d, Hex(key), false).rest == d
    ensures Holds(Delete(d, Hex(key), false).rest, m - {key})
  {
    AgreesDelete(d, m, key);
    DeleteSpec(d, Hex(key), false, Hex(key));
  }

  lemma AgreesPut(d: Digest, m: map<seq<byte>, Value>, key: seq<byte>, v: Value)
    requires WF(d, false) && Agrees(d, m)
    ensures Agrees(Put(d, Hex(key), v, false), m[key := v])
  {
    var d' := Put(d, Hex(key), v, false);
    forall k: Key | Terminated(k) ensures Updated(d, d', Hex(key), v, k) { PutLookup(d, Hex(key), v, false, k); }
    AgreesUpdated(d, d', m, key, v);
  }

  /** `d'` looks up `k` like `d`, except for the new value at `key`. */
  ghost predicate Updated(d: Digest, d': Digest, key: Key, v: Value, k: Key) {
    Lookup(d', k) == if k == key then Some(v) else Lookup(d, k)
  }

  lemma AgreesUpdated(d: Digest, d': Digest, m: map<seq<byte>, Value>, key: seq<byte>, v: Value)
    requires Agrees(d, m)
    requires forall k: Key {:trigger Updated(d, d', Hex(key), v, k)} :: Terminated(k) ==> Updated(d, d', Hex(key), v, k)
    ensures Agrees(d', m[key := v])
  {
    var m' := m[key := v];
    forall k: seq<byte> ensures Lookup(d', Hex(k)) == if k in m' then Some(m'[k]) else None {
      assert Updated(d, d', Hex(key), v, Hex(k));
      UpdatedAt(Lookup(d, Hex(k)), m, key, v, k);
    }
    forall k: Key | Terminated(k) && Lookup(d', k).Some? ensures |k| % 2 == 1 {
      assert Updated(d, d', Hex(key), v, k);
      if k == Hex(key) { OddLength(key); } else { assert Lookup(d, k).Some?; }
    }
  }

  lemma OddLength(key: seq<byte>)
    ensures |Hex(key)| % 2 == 1
  {
  }

  lemma UpdatedAt(was: Option<Value>, m: map<seq<byte>, Value>, key: seq<byte>, v: Value, k: seq<byte>)
    requires was == if k in m then Some(m[k]) else None
    ensures (if Hex(k) == Hex(key) then Some(v) else was) == if k in m[key := v] then Some(m[key := v][k]) else None
  {
    if Hex(k) == Hex(key) { HexInjective(k, key); }
  }

  lemma AgreesDelete(d: Digest, m: map<seq<byte>, Value>, key: seq<byte>)
    requires WF(d, false) && Reduced(d) && Agrees(d, m)
    ensures Delete(d, Hex(key), false).found == (key in m)
    ensures Agrees(Delete(d, Hex(key), false).rest, m - {key})
  {
    var d' := Delete(d, Hex(key), false).rest;
    DeleteSpec(d, Hex(key), false, Hex(key));
    forall k: seq<byte> ensures Lookup(d', Hex(k)) == if k in m - {key} then Some((m - {key})[k]) else None {
      DeleteSpec(d, Hex(key), false, Hex(k));
      if Hex(k) == Hex(key) { HexInjective(k, key); }
    }
    forall k: Key | Terminated(k) && Lookup(d', k).Some? ensures |k| % 2 == 1 {
      DeleteSpec(d, Hex(key), false, k);
    }
  }

  method KeybytesToHex(str: seq<byte>) returns (nibbles: Key)
    ensures nibbles == Hex(str)
  {
    var n := new Nibble[|str| * 2 + 1](_ => 0);
    for i := 0 to |str|
      invariant forall j :: 0 <= j < i ==> n[2 * j] == str[j] / 16 && n[2 * j + 1] == str[j] % 16
    {
      n[i * 2] := str[i] / 16;
      n[i * 2 + 1] := str[i] % 16;
    }
    n[|str| * 2] := TERM;
    nibbles := n[..];
    HexUnique(str, nibbles);
  }

  lemma HexUnique(s: seq<byte>, k: Key)
    requires |k| == 2 * |s| + 1 && k[2 * |s|] == TERM
    requires forall i :: 0 <= i < |s| ==> k[2 * i] == s[i] / 16 && k[2 * i + 1] == s[i] % 16
    ensures k == Hex(s)
  {
    var h := Hex(s);
    forall j | 0 <= j < |k| ensures k[j] == h[j] {
      if j < 2 * |s| {
        assert j == 2 * (j / 2) || j == 2 * (j / 2) + 1;
        assert k[2 * (j / 2)] == h[2 * (j / 2)] && k[2 * (j / 2) + 1] == h[2 * (j / 2) + 1];
      }
    }
  }

  class Trie {
    var root: Noder
    const db: Database
    ghost var S: set<object>                    // the nodes of this trie
    ghost var digest: Digest                    // what they represent
    ghost var contents: map<seq<byte>, Value>   // the same as a map
    ghost var log: Store                        // the database and the batches written so far

    ghost predicate Valid()
      reads this, db, S
    {
      && {this, db} !! S && !root.HashNode?
      && Rep(root, S, digest, db.content, log)
      && Holds(digest, contents)
    }

    constructor Empty(db: Database)
      ensures Valid() && fresh(S) && this.db == db
      ensures digest == EmptyDigest && contents == map[] && log == db.content
    {
      this.db := db;
      root, S, digest, contents, log := NilNode, {}, EmptyDigest, map[], db.content;
    }

    /** NewTrie: open the trie with the given root. `m` names the map it holds. */
    static method Open(root: Digest, db: Database, ghost m: map<seq<byte>, Value>) returns (t: Trie?)
      ensures t == null <==> root != EmptyDigest && root !in db.content
      ensures t != null ==> fresh(t) && t.db == db && t.digest == root && t.log == db.content
      ensures t != null && Stored(db.content, root) && Holds(root, m)
              ==> t.Valid() && fresh(t.S) && t.contents == m
    {
      t := new Trie.Empty(db);
      t.digest, t.contents := root, m;
      if root != EmptyDigest {
        var ok, node, S := LoadNode(db.content, root, false, db.content);
        if !ok { return null; }
        t.root, t.S := node, S;
      }
    }

    method Put(key: seq<byte>, value: Value)
      requires Valid()
      modifies this, S
      ensures Valid() && fresh(S - old(S)) && log == old(log)
      ensures contents == old(contents)[key := value]
      ensures digest == Patricia.Put(old(digest), Hex(key), value, false)
    {
      var k := KeybytesToHex(key);
      HoldsPut(digest, contents, key, value);
      PutNibbles(k, value, contents[key := value]);
    }

    method PutNibbles(k: Key, value: Value, ghost m: map<seq<byte>, Value>)
      requires Valid() && Terminated(k) && Holds(Patricia.Put(digest, k, value, false), m)
      modifies this, S
      ensures Valid() && fresh(S - old(S)) && log == old(log)
      ensures contents == m && digest == Patricia.Put(old(digest), k, value, false)
    {
      var dirty, node, T := Insert(root, k, value, db.content, false, S, digest, log);
      SetRoot(node, T, Patricia.Put(digest, k, value, false), m);
    }

    method Delete(key: seq<byte>) returns (found: bool)
      requires Valid()
      modifies this, S
      ensures Valid() && fresh(S - old(S)) && log == old(log)
      ensures found == (key in old(contents)) && contents == old(contents) - {key}
      ensures digest == Patricia.Delete(old(digest), Hex(key), false).rest
    {
      HoldsDelete(digest, contents, key);
      if root.NilNode? { contents := contents - {key}; return false; }
      var k := KeybytesToHex(key);
      found := DeleteNibbles(k, contents - {key});
    }

    method DeleteNibbles(k: Key, ghost m: map<seq<byte>, Value>) returns (found: bool)
      requires Valid() && Terminated(k) && Holds(Patricia.Delete(digest, k, false).rest, m)
      modifies this, S
      ensures Valid() && fresh(S - old(S)) && log == old(log)
      ensures contents == m && digest == Patricia.Delete(old(digest), k, false).rest
      ensures found == Patricia.Delete(old(digest), k, false).found
    {
      var match_, node, T := DeleteNode(root, k, db.content, false, S, digest, log);
      SetRoot(if match_ then node else root, T, Patricia.Delete(digest, k, false).rest, m);
      found := match_;
    }

    method SetRoot(n: Noder, ghost T: set<object>, ghost d: Digest, ghost m: map<seq<byte>, Value>)
      requires Rep(n, T, d, db.content, log) && !n.HashNode? && {this, db} !! T && Holds(d, m)
      modifies this`root, this`S, this`digest, this`contents
      ensures Valid() && root == n && S == T && digest == d && contents == m
    {
      root, S, digest, contents := n, T, d, m;
    }

    /** Get: an empty value counts as absent. */
    method Get(key: seq<byte>) returns (value: Value, found: bool)
      requires Valid()
      modifies this, S
      ensures Valid() && fresh(S - old(S)) && log == old(log)
      ensures contents == old(contents) && digest == old(digest)
      ensures found == (key in contents && contents[key] != [])
      ensures value == if found then contents[key] else []
    {
      assert Lookup(digest, Hex(key)) == if key in contents then Some(contents[key]) else None;
      if !root.NilNode? {
        var k := KeybytesToHex(key);
        assert k[0..] == k;
        var v, node, T := GetNode(root, k, 0, db.content, false, S, digest, log);
        S := T;
        if |v| > 0 { return v, true; }
      }
      return [], false;
    }

    /** Commit, and Hash when there is no batch: the root hash; with a batch, everything the
        root commits to is written under its hash. */
    method Commit(batch: Batch?) returns (h: Digest)
      requires Valid() && batch !in S
      requires batch != null ==> Honest(batch.puts)
      modifies this`log, S, batch
      ensures Valid() && h == digest
      ensures batch == null ==> log == old(log)
      ensures batch != null ==> Honest(batch.puts) && Stored(log, digest)
      ensures batch != null && Extends(old(log), old(db.content + batch.puts))
              ==> Stored(db.content + batch.puts, digest)
    {
      ghost var log0 := log;
      if batch != null {
        RepMono(root, S, digest, db.content, log, db.content, log + batch.puts);
        log := log + batch.puts;
      }
      h := HashNodes(root, batch, S, digest, db.content, log0);
      log := Log(log0, batch);
      if batch != null && Extends(log0, old(db.content + batch.puts)) {
        StoredMono(log, db.content + batch.puts, digest);
      }
    }
  }

  /** A trie stays valid when the shared database grows. */
  twostate lemma DatabaseGrows(t: Trie)
    requires old(t.Valid()) && unchanged(t) && unchanged(t.S)
    requires Extends(old(t.db.content), t.db.content)
    ensures t.Valid()
  {
    assert Rep(t.root, t.S, t.digest, old(t.db.content), t.log);
    RepMono(t.root, t.S, t.digest, old(t.db.content), t.log, t.db.content, t.log);
  }

  /** Commit, write the batch, open the returned root: the same map comes back. */
  method CommitAndReopen(t: Trie, batch: Batch) returns (t': Trie?)
    requires t.Valid() && batch !in t.S && Honest(batch.puts)
    requires Extends(t.log, t.db.content + batch.puts)
    modifies t`log, t.S, batch, t.db
    ensures t' != null && t'.Valid() && t'.contents == old(t.contents) && t'.digest == old(t.digest)
  {
    var h := t.Commit(batch);
    t.db.Write(batch);
    t' := Trie.Open(h, t.db, t.contents);
  }
}
