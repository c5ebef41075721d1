/** The functions of ecdsa_impl.h themselves: a cursor moves through the input, and the printer
    fills an output buffer. They are proved against the specification in Der. */
module DerCodec {
  import opened Basics
  import opened Wnaf
  import opened Der

  /** Conversion of a size_t to a 32-bit int. */
  function ToInt(n: nat): int {
    var m := n % 0x1_0000_0000;
    if m <= MAX_INT then m else m - 0x1_0000_0000
  }

  lemma {:induction false} PrefixValue(d: Bytes, k: nat)
    requires k <= |d|
    ensures BE(d[..k]) <= BE(d)
  {
    if k < |d| {
      PrefixValue(d[..|d| - 1], k);
      assert d[..|d| - 1][..k] == d[..k];
    } else {
      assert d[..k] == d;
    }
  }

  lemma NextDigit(d: Bytes, k: nat)
    requires k < |d|
    ensures BE(d[..k + 1]) == BE(d[..k]) * 256 + d[k]
  {
    assert d[..k + 1][..k] == d[..k];
  }

  const SIZE_T: nat := MAX_SIZE + 1

  /** The long form: up to eight bytes from `pos` on, given up as soon as the length cannot fit. The
      arithmetic is that of size_t. The length itself never wraps; the sum that is compared does for
      eight bytes 0xFF, which then come out as the largest size_t. */
  method ReadLong(sig: Bytes, pos: nat, left: nat) returns (ok: bool, n: nat)
    requires pos + left <= |sig| <= MAX_SIZE && left <= 8
    ensures ok ==> n == BE(sig[pos..pos + left]) && (n <= |sig| - pos - left || n == MAX_SIZE)
    ensures !ok ==> BE(sig[pos..pos + left]) > |sig| - pos - left
  {
    ghost var d := sig[pos..pos + left];
    n := 0;
    for i := 0 to left
      invariant n == BE(d[..i]) && (i == 0 || n <= |sig| - pos - left || (n == MAX_SIZE && i == left))
    {
      NextDigit(d, i);
      FitsSize(d, i + 1);
      assert d[i] == sig[pos + i];
      Wrap(n * 256);
      n := n * 256 % SIZE_T + sig[pos + i];
      assert n == BE(d[..i + 1]);
      Wrap(n + (left - i));
      if (n + (left - i)) % SIZE_T > |sig| - (pos + i) {
        PrefixValue(d, i + 1);
        return false, 0;
      }
    }
    assert d[..left] == d;
    ok := true;
  }

  lemma Wrap(x: nat)
    ensures x < SIZE_T ==> x % SIZE_T == x
    ensures SIZE_T <= x < 2 * SIZE_T ==> x % SIZE_T == x - SIZE_T
  {
  }

  /** Up to eight digits fit a size_t, and up to seven leave room to count to eight. */
  lemma FitsSize(d: Bytes, k: nat)
    requires k <= |d| <= 8
    ensures BE(d[..k]) < SIZE_T && (k < 8 ==> BE(d[..k]) < SIZE_T - 8)
  {
    EightDigits();
    assert Pow256(8) == 256 * Pow256(7);
    ValueBelow(d[..k]);
    if k < 8 { Pow256Mono(k, 7); }
  }

  method ReadLen(sig: Bytes, pos: nat) returns (len: int, pos': nat)
    requires pos <= |sig| <= MAX_SIZE
    ensures pos <= pos' <= |sig|
    ensures ReadLenSpec(sig[pos..]).None? ==> len == -1
    ensures ReadLenSpec(sig[pos..]).Some? ==>
      len == ToInt(ReadLenSpec(sig[pos..]).value.n) && pos' == pos + ReadLenSpec(sig[pos..]).value.used
  {
    ghost var s := sig[pos..];
    if pos >= |sig| { return -1, pos; }
    var b1 := sig[pos];
    pos' := pos + 1;
    assert s[0] == b1;
    if b1 == 0xFF { return -1, pos'; }
    if b1 < 0x80 { return b1, pos'; }
    if b1 == 0x80 { return -1, pos'; }
    var lenleft := b1 - 0x80;
    if lenleft > |sig| - pos' { return -1, pos'; }
    assert s[1] == sig[pos'] && s[1..1 + lenleft] == sig[pos'..pos' + lenleft];
    if sig[pos'] == 0 { return -1, pos'; }
    if lenleft > 8 { return -1, pos'; }
    var ok, n := ReadLong(sig, pos', lenleft);
    if !ok || n < 128 { return -1, pos'; }
    return ToInt(n), pos' + lenleft;
  }

  /** scalar_set_b32 on up to 32 bytes, padded on the left: the value, and whether it is too big. */
  method SetBytes(sig: Bytes, pos: nat, len: nat) returns (r: nat, overflow: bool)
    requires pos + len <= |sig| && len <= 32
    ensures overflow == (BE(sig[pos..pos + len]) >= N)
    ensures !overflow ==> r == BE(sig[pos..pos + len])
  {
    var ra := seq(32 - len, _ => 0 as byte) + sig[pos..pos + len];
    PaddedValue(32 - len, sig[pos..pos + len]);
    var value := BE(ra);
    overflow := value >= N;
    r := if overflow then value - N else value;
  }

  lemma {:induction false} PaddedValue(k: nat, d: Bytes)
    ensures BE(seq(k, _ => 0 as byte) + d) == BE(d)
  {
    var z := seq(k, _ => 0 as byte);
    if k == 0 {
      assert z + d == d;
    } else {
      PaddedValue(k - 1, d);
      var z' := seq(k - 1, _ => 0 as byte);
      assert z == [0] + z';
      assert z + d == [0] + (z' + d);
      LeadingZero(z' + d);
    }
  }

  /** Skip leading zero bytes. */
  method SkipZeros(sig: Bytes, pos: nat, len: nat) returns (pos': nat, len': nat)
    requires pos + len <= |sig|
    ensures pos' + len' == pos + len && len' <= len
    ensures len' > 0 ==> sig[pos'] != 0
    ensures BE(sig[pos'..pos' + len']) == BE(sig[pos..pos + len])
  {
    pos', len' := pos, len;
    while len' > 0 && sig[pos'] == 0
      invariant pos' + len' == pos + len && len' <= len
      invariant BE(sig[pos'..pos' + len']) == BE(sig[pos..pos + len])
    {
      LeadingZero(sig[pos' + 1..pos' + len']);
      assert sig[pos'..pos' + len'] == [0] + sig[pos' + 1..pos' + len'];
      pos', len' := pos' + 1, len' - 1;
    }
  }

  /** Reading the number of a checked integer: 0 if it is negative or not below the order. */
  method ReadScalar(sig: Bytes, pos: nat, rlen: nat) returns (r: nat)
    requires 0 < rlen && pos + rlen <= |sig|
    ensures r == Scalar(sig[pos..pos + rlen])
  {
    ghost var c := sig[pos..pos + rlen];
    assert c[0] == sig[pos];
    var overflow := sig[pos] >= 0x80;
    var pos', len := SkipZeros(sig, pos, rlen);
    if len > 32 {
      overflow := true;
      OrderFits();
      ValueAtLeast(sig[pos'..pos' + len]);
      Pow256Mono(32, len - 1);
    }
    r := 0;
    if !overflow {
      r, overflow := SetBytes(sig, pos', len);
    }
    if overflow { r := 0; }
  }

  method ParseInteger(sig: Bytes, pos: nat) returns (ok: bool, r: nat, pos': nat)
    requires pos <= |sig| <= MAX_SIZE && |sig| - pos <= MAX_INT
    ensures pos <= pos' <= |sig| && ok == ParseIntegerSpec(sig[pos..]).Some?
    ensures ok ==>
      r == Scalar(ParseIntegerSpec(sig[pos..]).value.octets) && pos' == pos + ParseIntegerSpec(sig[pos..]).value.used
  {
    ghost var s := sig[pos..];
    if pos == |sig| || sig[pos] != 0x02 { return false, 0, pos; }
    assert s[0] == sig[pos] && s[1..] == sig[pos + 1..];
    var rlen;
    rlen, pos' := ReadLen(sig, pos + 1);
    assert ReadLenSpec(s[1..]).Some? ==> rlen == ReadLenSpec(s[1..]).value.n;
    if rlen <= 0 || pos' + rlen > |sig| { return false, 0, pos'; }
    Window(sig, pos, pos', rlen);
    ok := NotPadded(sig, pos', rlen);
    if !ok { return false, 0, pos'; }
    r := ReadScalar(sig, pos', rlen);
    pos' := pos' + rlen;
  }

  lemma Window(sig: Bytes, pos: nat, pos': nat, len: nat)
    requires pos <= pos' && pos' + len <= |sig|
    ensures sig[pos..][pos' - pos..pos' - pos + len] == sig[pos'..pos' + len]
  {
  }

  /** No superfluous 0x00 or 0xFF in front. */
  method NotPadded(sig: Bytes, pos: nat, rlen: nat) returns (ok: bool)
    requires 0 < rlen && pos + rlen <= |sig|
    ensures ok == Shortest(sig[pos..pos + rlen])
  {
    ghost var c := sig[pos..pos + rlen];
    assert c[0] == sig[pos] && (rlen > 1 ==> c[1] == sig[pos + 1]);
    if sig[pos] == 0 && rlen > 1 && sig[pos + 1] < 0x80 { return false; }
    if sig[pos] == 0xFF && rlen > 1 && sig[pos + 1] >= 0x80 { return false; }
    return true;
  }

  /** A length that survives the conversion to int and fills the rest of the input is that rest. */
  lemma WholeLength(n: nat, pos: nat, size: nat)
    requires n < 128 || pos + n <= size
    ensures ToInt(n) >= 0 && pos + ToInt(n) == size <==> n <= MAX_INT && pos + n == size
  {
  }

  /** secp256k1_ecdsa_sig_parse: accepts exactly the strict encodings, and reads their scalars. */
  method SigParse(sig: Bytes) returns (ok: bool, r: nat, s: nat)
    requires |sig| <= MAX_SIZE
    ensures ok <==> ParseSignatureSpec(sig).Some?
    ensures ok ==> r == Scalar(ParseSignatureSpec(sig).value.r) && s == Scalar(ParseSignatureSpec(sig).value.s)
  {
    r, s := 0, 0;
    if |sig| == 0 || sig[0] != 0x30 { return false, r, s; }
    var rlen, pos := ReadLen(sig, 1);
    if ReadLenSpec(sig[1..]).Some? { WholeLength(ReadLenSpec(sig[1..]).value.n, pos, |sig|); }
    if rlen < 0 || pos + rlen > |sig| { return false, r, s; }
    if pos + rlen != |sig| { return false, r, s; }
    assert |sig| - pos == rlen <= MAX_INT;
    ok, r, s := ParseBody(sig, pos);
  }

  method ParseBody(sig: Bytes, start: nat) returns (ok: bool, r: nat, s: nat)
    requires start <= |sig| <= MAX_SIZE && |sig| - start <= MAX_INT
    ensures ok <==> ParseBodySpec(sig[start..]).Some?
    ensures ok ==> r == Scalar(ParseBodySpec(sig[start..]).value.r) && s == Scalar(ParseBodySpec(sig[start..]).value.s)
  {
    var pos;
    s := 0;
    ok, r, pos := ParseInteger(sig, start);
    if !ok { return; }
    assert sig[start..][pos - start..] == sig[pos..];
    ok, s, pos := ParseInteger(sig, pos);
    if !ok { return; }
    ok := pos == |sig|;
  }

  // ---------------------------------------------------------------- printing

  /** The low k bytes of a number, big-endian. */
  function ToBytes(v: nat, k: nat): (d: Bytes)
    ensures |d| == k
  {
    if k == 0 then [] else ToBytes(v / 256, k - 1) + [v % 256]
  }

  lemma {:induction false} ToBytesValue(v: nat, k: nat)
    requires v < Pow256(k)
    ensures BE(ToBytes(v, k)) == v
  {
    if k > 0 {
      ToBytesValue(v / 256, k - 1);
      assert ToBytes(v, k)[..k - 1] == ToBytes(v / 256, k - 1);
    }
  }

  /** 33 bytes, stripped of superfluous zeros: the content octets of the scalar. */
  method ScalarOctets(v: nat) returns (c: Bytes)
    requires v < N
    ensures c == Octets(v) && |c| <= 33
  {
    OrderFits();
    ToBytesValue(v, 32);
    LeadingZero(ToBytes(v, 32));
    c := [0] + ToBytes(v, 32);
    while |c| > 1 && c[0] == 0 && c[1] < 0x80
      invariant 1 <= |c| <= 33 && c[0] < 0x80 && BE(c) == v
    {
      LeadingZero(c[1..]);
      assert c == [0] + c[1..];
      c := c[1..];
    }
    OctetsUnique(c);
  }

  method Put(out: array<byte>, at: nat, c: Bytes)
    requires at + |c| <= out.Length
    modifies out
    ensures out[..at] == old(out[..at]) && out[at..at + |c|] == c
  {
    for i := 0 to |c|
      invariant out[..at] == old(out[..at])
      invariant out[at..at + i] == c[..i]
    {
      out[at + i] := c[i];
      assert out[at..at + i + 1] == out[at..at + i] + [c[i]];
    }
    assert c[..|c|] == c;
  }

  /** Write `c` behind what is there. */
  method Append(out: array<byte>, at: nat, c: Bytes) returns (at': nat)
    requires at + |c| <= out.Length
    modifies out
    ensures at' == at + |c| && out[..at'] == old(out[..at]) + c
  {
    Put(out, at, c);
    at' := at + |c|;
    assert out[..at'] == out[..at] + out[at..at'];
  }

  /** secp256k1_ecdsa_sig_serialize: the strict encoding, if there is room; its length in any case. */
  method SigSerialize(out: array<byte>, size: nat, r: nat, s: nat) returns (ok: bool, size': nat)
    requires size <= out.Length && r < N && s < N
    modifies out
    ensures size' == |Signature(Octets(r), Octets(s))| && ok == (size >= size')
    ensures ok ==> out[..size'] == Signature(Octets(r), Octets(s))
  {
    var cr := ScalarOctets(r);
    var cs := ScalarOctets(s);
    ShortSignature(cr, cs);
    size' := 6 + |cr| + |cs|;
    if size < size' { return false, size'; }
    var at := Append(out, 0, [0x30, 4 + |cs| + |cr|, 0x02, |cr|]);
    at := Append(out, at, cr);
    at := Append(out, at, [0x02, |cs|]);
    at := Append(out, at, cs);
    FourPieces(cr, cs);
    ok := true;
  }

  /** The pieces in the order they are written. */
  lemma FourPieces(cr: Bytes, cs: Bytes)
    requires |cr| <= 33 && |cs| <= 33
    ensures Signature(cr, cs) == [] + [0x30, 4 + |cs| + |cr|, 0x02, |cr|] + cr + [0x02, |cs|] + cs
  {
    ShortSignature(cr, cs);
  }

  /** Printing and parsing: the numbers come back. */
  method SerializeThenParse(r: nat, s: nat) returns (ok: bool, r': nat, s': nat)
    requires r < N && s < N
    ensures ok && r' == r && s' == s
  {
    var out := new byte[72](_ => 0);
    PrintedIsSignature(r, s);
    ParseSerialize(r, s);
    var _, size := SigSerialize(out, 72, r, s);
    ok, r', s' := SigParse(out[..size]);
  }

  /** Parsing and printing: the bytes come back exactly if no number overflowed. */
  method ParseThenSerialize(sig: Bytes) returns (ok: bool, same: bool)
    requires |sig| <= MAX_SIZE
    ensures ok <==> exists cr, cs :: IsSignature(sig, cr, cs)
    ensures forall cr, cs :: IsSignature(sig, cr, cs) ==> (same <==> !Overflows(cr) && !Overflows(cs))
  {
    var r, s;
    ok, r, s := SigParse(sig);
    same := false;
    if ok {
      ghost var pair := ParseSignatureSpec(sig).value;
      ParseSound(sig, pair.r, pair.s);
      SerializeParse(sig, pair.r, pair.s);
      var out := new byte[72](_ => 0);
      PrintedIsSignature(r, s);
      var _, size := SigSerialize(out, 72, r, s);
      same := out[..size] == sig;
    }
    forall cr, cs | IsSignature(sig, cr, cs) ensures ParseSignatureSpec(sig) == Some(Pair(cr, cs)) {
      ParseComplete(sig, cr, cs);
    }
  }
}
