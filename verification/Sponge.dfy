/** The sponge of crypto/sha3/sha3.go: buffering of input and output around a permutation of 200
    bytes. The permutation itself is a parameter. */
module Sponge {
  import opened Basics

  const STATE: nat := 200
  const MAX_RATE: nat := 168

  type Bytes = seq<bv8>

  /** The permutation, the rate and the domain byte. */
  datatype Params = Params(f: Bytes -> Bytes, rate: nat, dsbyte: bv8) {
    ghost predicate Valid() {
      && (forall s {:trigger f(s)} :: |s| == STATE ==> |f(s)| == STATE)
      && rate in {72, 104, 136, 144, 168}
    }
  }

  // ---------------------------------------------------------------- the specification

  function Zeros(n: nat): Bytes { seq(n, _ => 0) }

  /** The state with a block xored into its first bytes. */
  function Xor(s: Bytes, block: Bytes): (r: Bytes)
    requires |block| <= |s|
    ensures |r| == |s|
  {
    seq(|s|, i requires 0 <= i < |s| => if i < |block| then s[i] ^ block[i] else s[i])
  }

  datatype Absorption = Absorption(state: Bytes, rest: Bytes)

  /** Absorb all full blocks of `m`; the rest is left over. */
  ghost function Absorb(p: Params, s: Bytes, m: Bytes): (r: Absorption)
    requires p.Valid() && |s| == STATE
    ensures |r.state| == STATE && |r.rest| < p.rate
    decreases |m|
  {
    if |m| < p.rate then Absorption(s, m)
    else Absorb(p, p.f(Xor(s, m[..p.rate])), m[p.rate..])
  }

  /** The domain byte and the pad10*1 padding, filling up `n` bytes. */
  function Padding(p: Params, n: nat): (r: Bytes)
    requires n > 0
    ensures |r| == n
  {
    if n == 1 then [p.dsbyte ^ 0x80] else [p.dsbyte] + Zeros(n - 2) + [0x80]
  }

  /** How many bytes after `n` the current block ends; a full block counts as a new one. */
  function ToFill(n: nat, rate: nat): (r: nat)
    requires rate > 0
    ensures 0 < r <= rate
  {
    if n < rate then rate - n else ToFill(n - rate, rate)
  }

  /** The message padded to whole blocks. */
  function Padded(p: Params, m: Bytes): Bytes
    requires p.rate > 0
  {
    m + Padding(p, ToFill(|m|, p.rate))
  }

  /** Byte `i` of the output squeezed from state `s`. */
  ghost function Output(p: Params, s: Bytes, i: nat): bv8
    requires p.Valid() && |s| == STATE
    decreases i
  {
    if i < p.rate then s[i] else Output(p, p.f(s), i - p.rate)
  }

  /** Byte `i` of the hash of `m`: absorb the padded message block by block, then squeeze. */
  ghost function Digest(p: Params, m: Bytes, i: nat): bv8
    requires p.Valid()
  {
    Output(p, Absorb(p, Zeros(STATE), Padded(p, m)).state, i)
  }

  /** Absorbing in two parts. */
  lemma {:induction false} AbsorbSplit(p: Params, s: Bytes, m: Bytes, m': Bytes)
    requires p.Valid() && |s| == STATE
    ensures var r := Absorb(p, s, m); Absorb(p, s, m + m') == Absorb(p, r.state, r.rest + m')
    decreases |m|
  {
    if |m| >= p.rate {
      AbsorbSplit(p, p.f(Xor(s, m[..p.rate])), m[p.rate..], m');
      FirstBlock(m, m', p.rate);
    }
  }

  lemma FirstBlock(m: Bytes, m': Bytes, k: nat)
    requires k <= |m|
    ensures (m + m')[..k] == m[..k] && (m + m')[k..] == m[k..] + m'
  {
  }

  lemma {:induction false} RestLength(p: Params, s: Bytes, m: Bytes)
    requires p.Valid() && |s| == STATE
    ensures |Absorb(p, s, m).rest| == p.rate - ToFill(|m|, p.rate)
    decreases |m|
  {
    if |m| >= p.rate { RestLength(p, p.f(Xor(s, m[..p.rate])), m[p.rate..]); }
  }

  /** One block and nothing else. */
  lemma AbsorbBlock(p: Params, s: Bytes, block: Bytes)
    requires p.Valid() && |s| == STATE && |block| == p.rate
    ensures Absorb(p, s, block) == Absorption(p.f(Xor(s, block)), [])
  {
    assert block[..p.rate] == block && block[p.rate..] == [];
  }

  /** The state to squeeze from, in terms of what has been absorbed so far. */
  lemma PaddedState(p: Params, m: Bytes)
    requires p.Valid()
    ensures Absorb(p, Zeros(STATE), Padded(p, m)).rest == []
    ensures var r := Absorb(p, Zeros(STATE), m);
      Absorb(p, Zeros(STATE), Padded(p, m)).state == p.f(Xor(r.state, r.rest + Padding(p, p.rate - |r.rest|)))
  {
    var r := Absorb(p, Zeros(STATE), m);
    RestLength(p, Zeros(STATE), m);
    var pad := Padding(p, ToFill(|m|, p.rate));
    AbsorbSplit(p, Zeros(STATE), m, pad);
    AbsorbBlock(p, r.state, r.rest + pad);
  }

  // ---------------------------------------------------------------- the hash object

  ghost predicate SameAt(p: Params, s: Bytes, m: Bytes, k: nat, i: nat)
    requires p.Valid() && |s| == STATE
  {
    Output(p, s, i) == Digest(p, m, k + i)
  }

  /** The output of state `s` is the digest of `m` from byte `k` on. */
  ghost predicate Ahead(p: Params, s: Bytes, m: Bytes, k: nat)
    requires p.Valid() && |s| == STATE
  {
    forall i: nat {:trigger SameAt(p, s, m, k, i)} :: SameAt(p, s, m, k, i)
  }

  lemma AheadNext(p: Params, s: Bytes, m: Bytes, k: nat, k': nat)
    requires p.Valid() && |s| == STATE && Ahead(p, s, m, k) && k' == k + p.rate
    ensures Ahead(p, p.f(s), m, k')
  {
    forall i: nat ensures SameAt(p, p.f(s), m, k', i) {
      assert SameAt(p, s, m, k, p.rate + i);
      assert Output(p, s, p.rate + i) == Output(p, p.f(s), i);
    }
  }

  method CopyArray(from: array<bv8>, to: array<bv8>)
    requires from.Length == to.Length && from != to
    modifies to
    ensures to[..] == from[..]
  {
    for i := 0 to from.Length
      invariant forall j :: 0 <= j < i ==> to[j] == from[j]
    {
      to[i] := from[i];
    }
  }

  /** `out` is the digest of `m` from byte `k` on. */
  ghost predicate IsDigest(p: Params, m: Bytes, k: nat, out: Bytes)
    requires p.Valid()
  {
    forall j :: 0 <= j < |out| ==> out[j] == Digest(p, m, k + j)
  }

  lemma Appended(x: Bytes, y: Bytes)
    ensures (x + y)[..|x|] == x && (x + y)[|x|..] == y
  {
  }

  /** Read into a new buffer. */
  method ReadNew(h: Hash, n: nat) returns (out: Bytes)
    requires h.Valid()
    modifies h, h.a, h.storage
    ensures h.Valid() && h.squeezing && h.message == old(h.message) && h.produced == old(h.produced) + n
    ensures |out| == n && IsDigest(h.p, h.message, old(h.produced), out)
  {
    var buffer := new bv8[n];
    h.Read(buffer);
    out := buffer[..];
  }

  class Hash {
    const p: Params
    const a: array<bv8>
    const storage: array<bv8>
    var lo: nat              // the buffer is the window storage[lo..hi]
    var hi: nat
    var squeezing: bool
    ghost var message: Bytes // what was written since the last reset
    ghost var produced: nat  // how many bytes were read

    ghost predicate Shape()
      reads this
    {
      && p.Valid() && a.Length == STATE && storage.Length == MAX_RATE && a != storage
      && lo <= hi <= p.rate
    }

    /** The state and the buffer hold what was written, or what is still to be read. */
    ghost predicate Valid()
      reads this, a, storage
    {
      && Shape()
      && if squeezing
         then hi == p.rate && lo < hi && lo <= produced && (forall j :: 0 <= j < hi ==> storage[j] == a[j]) &&
              Ahead(p, a[..], message, produced - lo)
         else lo == 0 && produced == 0 && Absorb(p, Zeros(STATE), message) == Absorption(a[..], storage[..hi])
    }

    constructor (p: Params)
      requires p.Valid()
      ensures Valid() && this.p == p && !squeezing && message == [] && fresh(a) && fresh(storage)
    {
      this.p := p;
      a := new bv8[STATE](_ => 0);
      storage := new bv8[MAX_RATE];
      lo, hi, squeezing, message, produced := 0, 0, false, [], 0;
      new;
      assert a[..] == Zeros(STATE) && storage[..hi] == [];
    }

    constructor Copy(d: Hash, lo: nat, hi: nat, ghost produced: nat)
      requires d.Shape() && lo <= hi <= d.p.rate
      ensures Shape() && fresh(a) && fresh(storage) && p == d.p && a[..] == d.a[..] && storage[..] == d.storage[..]
      ensures this.lo == lo && this.hi == hi && squeezing == d.squeezing
      ensures message == d.message && this.produced == produced
    {
      p := d.p;
      a := new bv8[STATE];
      storage := new bv8[MAX_RATE];
      this.lo, this.hi, squeezing, message, this.produced := lo, hi, d.squeezing, d.message, produced;
      new;
      CopyArray(d.a, a);
      CopyArray(d.storage, storage);
    }

    /** How far a clone falls back in the digest. */
    function Fallback(): nat
      requires p.rate <= MAX_RATE
      reads this
    {
      if squeezing then MAX_RATE - p.rate else 0
    }

    /** clone. While squeezing, the window of the copy is computed from the capacity of the buffer,
        which reaches to the end of the storage and not of the block: for rates below 168 the copy
        falls back and gives bytes again that were already read, or the slice bounds are negative,
        which panics. So a clone goes on with the digest exactly while absorbing or at rate 168. */
    method Clone() returns (c: Hash?)
      requires Valid()
      ensures c == null <==> lo < Fallback()
      ensures c != null ==> fresh(c) && fresh(c.a) && fresh(c.storage) && c.Valid()
      ensures c != null ==> c.p == p && c.message == message && c.squeezing == squeezing
      ensures c != null ==> c.lo == lo - Fallback() && c.produced == produced - Fallback()
      ensures c != null && c.produced == produced <==> !squeezing || p.rate == MAX_RATE
    {
      if !squeezing {
        c := new Hash.Copy(this, 0, hi, produced);
        assert c.storage[..c.hi] == c.storage[..][..hi] == storage[..][..hi] == storage[..hi];
      } else {
        var capacity := MAX_RATE - lo;
        if p.rate < capacity { return null; }
        c := new Hash.Copy(this, p.rate - capacity, p.rate, produced - Fallback());
        forall j | 0 <= j < c.hi ensures c.storage[j] == c.a[j] {
          assert c.storage[..][j] == storage[..][j] && c.a[..][j] == a[..][j];
        }
      }
    }

    /** Sum: bytes of the digest of everything written, appended to `prefix`, or a panic. While
        absorbing it is the digest from its first byte on. The hash object itself does not change. */
    method Sum(prefix: Bytes, outputLen: nat) returns (r: Option<Bytes>)
      requires Valid()
      ensures r.None? <==> lo < Fallback()
      ensures r.Some? ==> |r.value| == |prefix| + outputLen && r.value[..|prefix|] == prefix
      ensures r.Some? ==> IsDigest(p, message, produced - Fallback(), r.value[|prefix|..])
    {
      var dup := Clone();
      if dup == null { return None; }
      var hash := ReadNew(dup, outputLen);
      Appended(prefix, hash);
      r := Some(prefix + hash);
    }

    method Reset()
      requires Shape()
      modifies this, a
      ensures Valid() && !squeezing && message == []
    {
      for i := 0 to a.Length
        invariant forall j :: 0 <= j < i ==> a[j] == 0
      {
        a[i] := 0;
      }
      lo, hi, squeezing, message, produced := 0, 0, false, [], 0;
      assert a[..] == Zeros(STATE) && storage[..hi] == [];
    }

    /** The lanes that xorIn touches for a block of n bytes. */
    static function Lanes(n: nat): nat {
      if n < 72 then 0 else if n < 104 then 9 else if n < 136 then 13
      else if n < 144 then 17 else if n < 168 then 18 else 21
    }

    /** xorIn: exactly the block, because only the five rates occur. */
    method XorIn(block: Bytes)
      requires Shape() && |block| == p.rate
      modifies a
      ensures a[..] == Xor(old(a[..]), block)
    {
      for i := 0 to 8 * Lanes(|block|)
        invariant forall j :: 0 <= j < i ==> a[j] == old(a[j]) ^ block[j]
        invariant forall j :: i <= j < STATE ==> a[j] == old(a[j])
      {
        a[i] := a[i] ^ block[i];
      }
    }

    /** The permutation in place. */
    method Keccak()
      requires Shape()
      modifies a
      ensures a[..] == p.f(old(a[..]))
    {
      var s := p.f(a[..]);
      for i := 0 to STATE
        invariant forall j :: 0 <= j < i ==> a[j] == s[j]
      {
        a[i] := s[i];
      }
    }

    method CopyOut()
      requires Shape() && lo == 0 && hi == p.rate
      modifies storage
      ensures forall j :: 0 <= j < hi ==> storage[j] == a[j]
    {
      for i := 0 to hi
        invariant forall j :: 0 <= j < i ==> storage[j] == a[j]
      {
        storage[i] := a[i];
      }
    }

    method Append(block: Bytes)
      requires Shape() && lo == 0 && hi + |block| <= p.rate
      modifies this`hi, storage
      ensures Shape() && storage[..hi] == old(storage[..hi]) + block
    {
      for i := 0 to |block|
        invariant hi == old(hi) && storage[..hi] == old(storage[..hi])
        invariant forall j :: 0 <= j < i ==> storage[hi + j] == block[j]
      {
        storage[hi + i] := block[i];
      }
      ghost var was := storage[..hi];
      hi := hi + |block|;
      assert forall j :: 0 <= j < |was| ==> storage[j] == was[j];
    }

    /** permute, while absorbing: the full buffer goes into the state. */
    method PermuteIn()
      requires Shape() && lo == 0 && hi == p.rate
      modifies this`hi, a
      ensures Shape() && hi == 0 && a[..] == p.f(Xor(old(a[..]), old(storage[..hi])))
    {
      XorIn(storage[..hi]);
      hi := 0;
      Keccak();
    }

    /** permute, while squeezing: the next block of output goes into the buffer. */
    method PermuteOut()
      requires Shape()
      modifies this`lo, this`hi, a, storage
      ensures Shape() && lo == 0 && hi == p.rate && a[..] == p.f(old(a[..]))
      ensures forall j :: 0 <= j < hi ==> storage[j] == a[j]
    {
      Keccak();
      lo, hi := 0, p.rate;
      CopyOut();
    }

    /** Write: the message grows by exactly what is written, however it is cut up. Writing after
        a read panics in the source. */
    method Write(data: Bytes)
      requires Valid() && !squeezing
      modifies this, a, storage
      ensures Valid() && !squeezing && message == old(message) + data
    {
      var d := data;
      message := message + data;
      AbsorbSplit(p, Zeros(STATE), old(message), data);
      while |d| > 0
        invariant Shape() && !squeezing && lo == 0 && hi < p.rate && produced == 0
        invariant message == old(message) + data
        invariant Absorb(p, a[..], storage[..hi] + d) == Absorb(p, Zeros(STATE), message)
        decreases |d|
      {
        d := WriteSome(d);
      }
      assert storage[..hi] + d == storage[..hi];
    }

    /** One round of the loop in Write. */
    method WriteSome(d: Bytes) returns (d': Bytes)
      requires Shape() && lo == 0 && hi < p.rate && |d| > 0
      modifies this`hi, a, storage
      ensures Shape() && hi < p.rate && |d'| < |d|
      ensures Absorb(p, a[..], storage[..hi] + d') == old(Absorb(p, a[..], storage[..hi] + d))
    {
      if hi == 0 && |d| >= p.rate {
        assert storage[..hi] + d == d;
        XorIn(d[..p.rate]);
        d' := d[p.rate..];
        Keccak();
        assert storage[..hi] + d' == d';
      } else {
        var todo := if p.rate - hi > |d| then |d| else p.rate - hi;
        Append(d[..todo]);
        d' := d[todo..];
        ghost var all := storage[..hi] + d';
        assert all == old(storage[..hi]) + d;
        if hi == p.rate {
          assert all[..p.rate] == storage[..hi] && all[p.rate..] == d';
          PermuteIn();
          assert storage[..hi] + d' == d';
        }
      }
    }

    /** Fill the buffer with the domain byte and the padding. */
    method Pad()
      requires Shape() && lo == 0 && hi < p.rate
      modifies this`hi, storage
      ensures Shape() && hi == p.rate && storage[..hi] == old(storage[..hi]) + Padding(p, p.rate - old(hi))
    {
      ghost var rest := storage[..hi];
      Append([p.dsbyte]);
      FillZeros();
      ghost var block := storage[..hi];
      storage[p.rate - 1] := storage[p.rate - 1] ^ 0x80;
      assert storage[..hi] == block[p.rate - 1 := block[p.rate - 1] ^ 0x80];
      PadShape(p, rest);
    }

    method FillZeros()
      requires Shape() && lo == 0
      modifies this`hi, storage
      ensures Shape() && hi == p.rate && storage[..hi] == old(storage[..hi]) + Zeros(p.rate - old(hi))
    {
      for i := hi to p.rate
        invariant hi == old(hi) && storage[..hi] == old(storage[..hi])
        invariant forall j :: hi <= j < i ==> storage[j] == 0
      {
        storage[i] := 0;
      }
      ghost var was := storage[..hi];
      hi := p.rate;
      assert forall j :: 0 <= j < |was| ==> storage[j] == was[j];
    }

    /** From absorbing to squeezing. */
    method PadAndPermute()
      requires Valid() && !squeezing
      modifies this, a, storage
      ensures Valid() && squeezing && message == old(message) && produced == 0 && lo == 0
    {
      PaddedState(p, message);
      Pad();
      PermuteIn();
      StartSqueezing();
    }

    method StartSqueezing()
      requires Shape() && produced == 0 && a[..] == Absorb(p, Zeros(STATE), Padded(p, message)).state
      modifies this`squeezing, this`lo, this`hi, storage
      ensures Valid() && squeezing && lo == 0
    {
      forall i: nat ensures SameAt(p, a[..], message, 0, i) { }
      squeezing, lo, hi := true, 0, p.rate;
      CopyOut();
    }

    /** Read: the next bytes of the digest of everything written. */
    method Read(out: array<bv8>)
      requires Valid() && out != a && out != storage
      modifies this, a, storage, out
      ensures Valid() && squeezing && message == old(message) && produced == old(produced) + out.Length
      ensures forall j :: 0 <= j < out.Length ==> out[j] == Digest(p, message, old(produced) + j)
      ensures !old(squeezing) && out.Length == 0 ==> lo == 0
    {
      if !squeezing { PadAndPermute(); }
      var pos := 0;
      while pos < out.Length
        invariant Valid() && squeezing && message == old(message)
        invariant pos <= out.Length && produced == old(produced) + pos
        invariant forall j :: 0 <= j < pos ==> out[j] == Digest(p, message, old(produced) + j)
        invariant !old(squeezing) && pos == 0 ==> lo == 0
      {
        pos := ReadSome(out, pos);
      }
    }

    /** One round of the loop in Read: what the buffer has, and a new block once it is empty. */
    method ReadSome(out: array<bv8>, pos: nat) returns (pos': nat)
      requires Valid() && squeezing && out != a && out != storage && pos < out.Length
      modifies this`lo, this`hi, this`produced, a, storage, out
      ensures Valid() && pos < pos' <= out.Length && produced == old(produced) + (pos' - pos)
      ensures forall j :: 0 <= j < pos ==> out[j] == old(out[j])
      ensures forall j :: pos <= j < pos' ==> out[j] == Digest(p, message, old(produced) + (j - pos))
    {
      var n := if hi - lo < out.Length - pos then hi - lo else out.Length - pos;
      CopyDigest(out, pos, n);
      Advance(n);
      pos' := pos + n;
    }

    /** The buffer has the next bytes of the digest. */
    method CopyDigest(out: array<bv8>, pos: nat, n: nat)
      requires Valid() && squeezing && out != a && out != storage && lo + n <= hi && pos + n <= out.Length
      modifies out
      ensures Valid()
      ensures forall j :: 0 <= j < pos ==> out[j] == old(out[j])
      ensures forall j :: pos <= j < pos + n ==> out[j] == Digest(p, message, produced + (j - pos))
    {
      CopyBuffer(out, pos, n);
      forall j | pos <= j < pos + n ensures out[j] == Digest(p, message, produced + (j - pos)) {
        assert SameAt(p, a[..], message, produced - lo, lo + (j - pos));
      }
    }

    method CopyBuffer(out: array<bv8>, pos: nat, n: nat)
      requires lo + n <= storage.Length && pos + n <= out.Length && out != storage
      modifies out
      ensures forall j :: 0 <= j < pos ==> out[j] == old(out[j])
      ensures forall j :: pos <= j < pos + n ==> out[j] == storage[lo + (j - pos)]
    {
      for i := 0 to n
        invariant forall j :: 0 <= j < pos ==> out[j] == old(out[j])
        invariant forall j :: pos <= j < pos + i ==> out[j] == storage[lo + (j - pos)]
      {
        out[pos + i] := storage[lo + i];
      }
    }

    method Advance(n: nat)
      requires Valid() && squeezing && lo + n <= hi
      modifies this`lo, this`hi, this`produced, a, storage
      ensures Valid() && produced == old(produced) + n
    {
      lo, produced := lo + n, produced + n;
      if lo == hi { Refill(); }
    }

    method Refill()
      requires Shape() && squeezing && lo == hi == p.rate <= produced && Ahead(p, a[..], message, produced - p.rate)
      modifies this`lo, this`hi, a, storage
      ensures Valid()
    {
      AheadNext(p, a[..], message, produced - p.rate, produced);
      PermuteOut();
    }
  }

  /** Domain byte, zeros and a final bit are the padding. */
  lemma PadShape(p: Params, rest: Bytes)
    requires |rest| < p.rate
    ensures var block := rest + [p.dsbyte] + Zeros(p.rate - |rest| - 1);
      block[p.rate - 1 := block[p.rate - 1] ^ 0x80] == rest + Padding(p, p.rate - |rest|)
  {
    var n := p.rate - |rest|;
    if n > 1 { assert Zeros(n - 1)[n - 2 := 0x80] == Zeros(n - 2) + [0x80]; }
  }

  /** A hash of rate 136 cannot be cloned right after its first read. */
  method CloneFails(f: Bytes -> Bytes, dsbyte: bv8) returns (c: Hash?)
    requires Params(f, 136, dsbyte).Valid()
    ensures c == null
  {
    var h := new Hash(Params(f, 136, dsbyte));
    var nothing := new bv8[0];
    h.Read(nothing);
    c := h.Clone();
  }

  /** xorIn covers a whole block exactly for the rates in use. */
  lemma LanesExact(n: nat)
    ensures 8 * Hash.Lanes(n) == n <==> n == 0 || n in {72, 104, 136, 144, 168}
  {
  }

  function Concat(parts: seq<Bytes>): Bytes {
    if parts == [] then [] else parts[0] + Concat(parts[1..])
  }

  function Total(lengths: seq<nat>): nat {
    if lengths == [] then 0 else lengths[0] + Total(lengths[1..])
  }

  lemma {:induction false} ConcatLast(parts: seq<Bytes>, k: nat)
    requires k < |parts|
    ensures Concat(parts[..k + 1]) == Concat(parts[..k]) + parts[k]
  {
    if k > 0 {
      ConcatLast(parts[1..], k - 1);
      assert parts[..k + 1][1..] == parts[1..][..k] && parts[..k][1..] == parts[1..][..k - 1];
    }
  }

  lemma {:induction false} TotalLast(lengths: seq<nat>, k: nat)
    requires k < |lengths|
    ensures Total(lengths[..k + 1]) == Total(lengths[..k]) + lengths[k]
  {
    if k > 0 {
      TotalLast(lengths[1..], k - 1);
      assert lengths[..k + 1][1..] == lengths[1..][..k] && lengths[..k][1..] == lengths[1..][..k - 1];
    }
  }

  /** Any way to cut the input into writes and the output into reads gives the same digest. */
  method HashAll(p: Params, writes: seq<Bytes>, sizes: seq<nat>) returns (out: Bytes)
    requires p.Valid()
    ensures |out| == Total(sizes)
    ensures IsDigest(p, Concat(writes), 0, out)
  {
    var h := new Hash(p);
    for k := 0 to |writes|
      invariant h.Valid() && h.p == p && !h.squeezing && h.message == Concat(writes[..k])
      invariant fresh(h) && fresh(h.a) && fresh(h.storage)
    {
      ConcatLast(writes, k);
      h.Write(writes[k]);
    }
    assert writes[..|writes|] == writes;
    out := [];
    for k := 0 to |sizes|
      invariant h.Valid() && h.p == p && h.message == Concat(writes) && fresh(h) && fresh(h.a) && fresh(h.storage)
      invariant |out| == h.produced == Total(sizes[..k]) && IsDigest(p, Concat(writes), 0, out)
    {
      TotalLast(sizes, k);
      var more := ReadNew(h, sizes[k]);
      DigestJoin(p, Concat(writes), out, more);
      out := out + more;
    }
    assert sizes[..|sizes|] == sizes;
  }

  lemma DigestJoin(p: Params, m: Bytes, x: Bytes, y: Bytes)
    requires p.Valid() && IsDigest(p, m, 0, x) && IsDigest(p, m, |x|, y)
    ensures IsDigest(p, m, 0, x + y)
  {
    forall j | 0 <= j < |x + y| ensures (x + y)[j] == Digest(p, m, j) {
      if j >= |x| { assert y[j - |x|] == Digest(p, m, |x| + (j - |x|)); }
    }
  }
}
