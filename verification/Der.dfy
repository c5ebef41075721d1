/** Strict DER signatures (ecdsa_impl.h of libsecp256k1): parsing and printing, against a
    grammar after sections 8.1.3 and 8.3 of X.690. */
module Der {
  import opened Basics
  import opened Wnaf

  type Bytes = seq<byte>

  // ---------------------------------------------------------------- numbers as bytes

  /** Big-endian value. */
  function BE(d: Bytes): nat {
    if d == [] then 0 else BE(d[..|d| - 1]) * 256 + d[|d| - 1]
  }

  /** Big-endian bytes without leading zeros. */
  function Digits(n: nat): (d: Bytes)
    ensures |d| > 0 && (n > 0 ==> d[0] != 0)
  {
    if n < 256 then [n] else Digits(n / 256) + [n % 256]
  }

  lemma {:induction false} DigitsValue(n: nat)
    ensures BE(Digits(n)) == n
  {
    if n < 256 {
      assert Digits(n)[..0] == [];
    } else {
      DigitsValue(n / 256);
      assert Digits(n)[..|Digits(n)| - 1] == Digits(n / 256);
    }
  }

  lemma {:induction false} ValueDigits(d: Bytes)
    requires d != [] && (d[0] != 0 || |d| == 1)
    ensures Digits(BE(d)) == d && (d[0] != 0 ==> BE(d) > 0)
  {
    var front, last := d[..|d| - 1], d[|d| - 1];
    assert d == front + [last];
    if |d| == 1 {
      assert front == [];
    } else {
      ValueDigits(front);
      assert BE(d) / 256 == BE(front) && BE(d) % 256 == last;
    }
  }

  /** A leading zero does not count. */
  lemma {:induction false} LeadingZero(d: Bytes)
    ensures BE([0] + d) == BE(d)
  {
    if d == [] {
      assert ([0] + d)[..0] == [];
    } else {
      LeadingZero(d[..|d| - 1]);
      assert ([0] + d)[..|d|] == [0] + d[..|d| - 1];
    }
  }

  function Pow256(k: nat): (r: nat)
    ensures r > 0
  {
    if k == 0 then 1 else 256 * Pow256(k - 1)
  }

  lemma {:induction false} ValueBelow(d: Bytes)
    ensures BE(d) < Pow256(|d|)
  {
    if d != [] { ValueBelow(d[..|d| - 1]); }
  }

  lemma {:induction false} ValueAtLeast(d: Bytes)
    requires d != [] && d[0] != 0
    ensures BE(d) >= Pow256(|d| - 1)
  {
    if |d| > 1 {
      ValueAtLeast(d[..|d| - 1]);
    } else {
      assert d[..0] == [];
    }
  }

  lemma {:induction false} Pow256Mono(a: nat, b: nat)
    requires a <= b
    ensures Pow256(a) <= Pow256(b)
  {
    if a < b { Pow256Mono(a, b - 1); }
  }

  lemma {:induction false} Pow256Pow2(k: nat)
    ensures Pow256(k) == Pow2(8 * k)
  {
    if k > 0 {
      Pow256Pow2(k - 1);
      Pow2Add(8 * (k - 1), 8);
      assert Pow2(4) == 16;
      Square(4, 16);
    }
  }

  lemma OrderFits()
    ensures N < Pow256(32)
  {
    OrderBounds();
    Pow256Pow2(32);
  }

  /** Numbers below 2^(8k) have at most k digits. */
  lemma {:induction false} DigitsFit(n: nat, k: nat)
    requires 0 < n < Pow256(k)
    ensures |Digits(n)| <= k
  {
    DigitsValue(n);
    ValueAtLeast(Digits(n));
    if |Digits(n)| > k { Pow256Mono(k, |Digits(n)| - 1); }
  }

  // ---------------------------------------------------------------- the grammar

  /** The shortest length octets: one byte below 128, else the number of digits and the digits. */
  function LengthOctets(n: nat): (r: Bytes)
    ensures |r| > 0
  {
    if n < 128 then [n]
    else
      var d := Digits(n);
      [if |d| < 127 then 128 + |d| else 255] + d
  }

  /** The content octets of an integer are the shortest two's complement form. */
  predicate Shortest(c: Bytes) {
    && c != []
    && !(|c| > 1 && c[0] == 0 && c[1] < 0x80)
    && !(|c| > 1 && c[0] == 0xFF && c[1] >= 0x80)
  }

  function Integer(c: Bytes): Bytes {
    [0x02] + LengthOctets(|c|) + c
  }

  function Body(cr: Bytes, cs: Bytes): Bytes {
    Integer(cr) + Integer(cs)
  }

  function Signature(cr: Bytes, cs: Bytes): Bytes {
    [0x30] + LengthOctets(|Body(cr, cs)|) + Body(cr, cs)
  }

  /** `sig` is the strict encoding of two integers with these content octets, and its length
      fits a C int. */
  predicate IsSignature(sig: Bytes, cr: Bytes, cs: Bytes) {
    && sig == Signature(cr, cs) && Shortest(cr) && Shortest(cs)
    && |Body(cr, cs)| <= MAX_INT
  }

  const MAX_INT: nat := 0x7FFF_FFFF
  const MAX_SIZE: nat := 0xFFFF_FFFF_FFFF_FFFF

  // ---------------------------------------------------------------- what the parser does

  datatype Length = Length(n: nat, used: nat)

  /** secp256k1_der_read_len on the input `s`: the length and how many bytes it took. */
  function ReadLenSpec(s: Bytes): (r: Option<Length>)
    ensures r.Some? ==> 0 < r.value.used <= |s| && (r.value.n >= 128 ==> r.value.used + r.value.n <= |s|)
  {
    if s == [] || s[0] == 0xFF then None
    else if s[0] < 128 then Some(Length(s[0], 1))
    else
      var k := s[0] - 128;
      if k == 0 || k > |s| - 1 || s[1] == 0 || k > 8 then None
      else
        var n := BE(s[1..1 + k]);
        if n < 128 || n > |s| - 1 - k then None else Some(Length(n, 1 + k))
  }

  datatype Content = Content(octets: Bytes, used: nat)

  /** secp256k1_der_parse_integer on the input `s`: the content octets. */
  function ParseIntegerSpec(s: Bytes): (r: Option<Content>)
    ensures r.Some? ==> r.value.used <= |s| && r.value.octets != []
  {
    if s == [] || s[0] != 0x02 then None
    else
      var len := ReadLenSpec(s[1..]);
      if len.None? || len.value.n == 0 || 1 + len.value.used + len.value.n > |s| then None
      else
        var c := s[1 + len.value.used..1 + len.value.used + len.value.n];
        if Shortest(c) then Some(Content(c, 1 + len.value.used + len.value.n)) else None
  }

  /** Reading a length accepts exactly the shortest length octets of lengths that fit. */
  lemma ReadLenSound(s: Bytes)
    requires ReadLenSpec(s).Some?
    ensures var r := ReadLenSpec(s).value; s[..r.used] == LengthOctets(r.n)
  {
    var r := ReadLenSpec(s).value;
    if s[0] >= 128 {
      var d := s[1..r.used];
      ValueDigits(d);
      assert s[..r.used] == [s[0]] + d;
    }
  }

  lemma ReadLenComplete(s: Bytes, n: nat, rest: Bytes)
    requires s == LengthOctets(n) + rest && n <= |rest| && |s| <= MAX_SIZE
    ensures ReadLenSpec(s) == Some(Length(n, |LengthOctets(n)|))
  {
    if n >= 128 {
      var d := Digits(n);
      assert Pow256(8) == 0x1_0000_0000_0000_0000 by { EightDigits(); }
      DigitsFit(n, 8);
      DigitsValue(n);
      assert s[1..1 + |d|] == d && s[1] == d[0];
    }
  }

  lemma EightDigits()
    ensures Pow256(8) == 0x1_0000_0000_0000_0000
  {
    assert Pow256(2) == 0x10000;
    assert Pow256(4) == 0x1_0000_0000;
    assert Pow256(6) == 0x1_0000_0000_0000;
  }

  lemma ParseIntegerSound(s: Bytes)
    requires ParseIntegerSpec(s).Some?
    ensures var r := ParseIntegerSpec(s).value; s[..r.used] == Integer(r.octets) && Shortest(r.octets)
  {
    var r := ParseIntegerSpec(s).value;
    ReadLenSound(s[1..]);
    var len := ReadLenSpec(s[1..]).value;
    assert s[..r.used] == [s[0]] + s[1..][..len.used] + r.octets;
  }

  lemma ParseIntegerComplete(s: Bytes, c: Bytes, rest: Bytes)
    requires s == Integer(c) + rest && Shortest(c) && |s| <= MAX_SIZE
    ensures ParseIntegerSpec(s) == Some(Content(c, |Integer(c)|))
  {
    var octets := LengthOctets(|c|);
    Slices(0x02, octets, c, rest);
    ReadLenComplete(s[1..], |c|, c + rest);
  }

  lemma Slices(tag: byte, octets: Bytes, c: Bytes, rest: Bytes)
    ensures var s := [tag] + octets + c + rest;
      s[1..] == octets + (c + rest) && s[1 + |octets|..1 + |octets| + |c|] == c && s[1 + |octets| + |c|..] == rest
  {
  }

  datatype Pair = Pair(r: Bytes, s: Bytes)

  /** Two integers and nothing else. */
  function ParseBodySpec(s: Bytes): Option<Pair> {
    var r := ParseIntegerSpec(s);
    if r.None? then None
    else
      var t := ParseIntegerSpec(s[r.value.used..]);
      if t.None? || r.value.used + t.value.used != |s| then None
      else Some(Pair(r.value.octets, t.value.octets))
  }

  /** What secp256k1_ecdsa_sig_parse accepts: the content octets of both integers. A length of more
      than 31 bits would not survive the conversion to int. */
  function ParseSignatureSpec(sig: Bytes): Option<Pair> {
    if sig == [] || sig[0] != 0x30 then None
    else
      var len := ReadLenSpec(sig[1..]);
      if len.None? || len.value.n > MAX_INT || 1 + len.value.used + len.value.n != |sig| then None
      else ParseBodySpec(sig[1 + len.value.used..])
  }

  lemma BodySound(s: Bytes, cr: Bytes, cs: Bytes)
    requires ParseBodySpec(s) == Some(Pair(cr, cs))
    ensures s == Body(cr, cs) && Shortest(cr) && Shortest(cs)
  {
    ParseIntegerSound(s);
    var used := ParseIntegerSpec(s).value.used;
    var t := s[used..];
    ParseIntegerSound(t);
    JoinSlices(s, used);
  }

  lemma JoinSlices(s: Bytes, k: nat)
    requires k <= |s|
    ensures s == s[..k] + s[k..] && s[k..][..|s| - k] == s[k..]
  {
  }

  lemma BodyComplete(s: Bytes, cr: Bytes, cs: Bytes)
    requires s == Body(cr, cs) && Shortest(cr) && Shortest(cs) && |s| <= MAX_SIZE
    ensures ParseBodySpec(s) == Some(Pair(cr, cs))
  {
    var t := Integer(cs);
    ParseIntegerComplete(s, cr, t);
    assert s[|Integer(cr)|..] == t && t == t + [];
    ParseIntegerComplete(t, cs, []);
  }

  lemma ParseSound(sig: Bytes, cr: Bytes, cs: Bytes)
    requires ParseSignatureSpec(sig) == Some(Pair(cr, cs))
    ensures IsSignature(sig, cr, cs)
  {
    ReadLenSound(sig[1..]);
    var len := ReadLenSpec(sig[1..]).value;
    BodySound(sig[1 + len.used..], cr, cs);
    Reassemble(sig, len.used);
  }

  lemma Reassemble(sig: Bytes, used: nat)
    requires 1 + used <= |sig|
    ensures sig == [sig[0]] + sig[1..][..used] + sig[1 + used..]
  {
  }

  lemma ParseComplete(sig: Bytes, cr: Bytes, cs: Bytes)
    requires IsSignature(sig, cr, cs) && |sig| <= MAX_SIZE
    ensures ParseSignatureSpec(sig) == Some(Pair(cr, cs))
  {
    var s := Body(cr, cs);
    HeadAndBody(sig, LengthOctets(|s|), s);
    ReadLenComplete(sig[1..], |s|, s);
    BodyComplete(s, cr, cs);
  }

  lemma HeadAndBody(sig: Bytes, octets: Bytes, s: Bytes)
    requires sig == [0x30] + octets + s
    ensures sig != [] && sig[0] == 0x30 && sig[1..] == octets + s && sig[1 + |octets|..] == s
  {
  }

  /** The parser accepts exactly the grammar. */
  lemma ParseIffSignature(sig: Bytes, cr: Bytes, cs: Bytes)
    requires |sig| <= MAX_SIZE
    ensures ParseSignatureSpec(sig) == Some(Pair(cr, cs)) <==> IsSignature(sig, cr, cs)
  {
    if ParseSignatureSpec(sig) == Some(Pair(cr, cs)) { ParseSound(sig, cr, cs); }
    if IsSignature(sig, cr, cs) { ParseComplete(sig, cr, cs); }
  }

  // ---------------------------------------------------------------- scalars

  /** A negative number, or one that is not below the group order. */
  predicate Overflows(c: Bytes)
    requires c != []
  {
    c[0] >= 0x80 || BE(c) >= N
  }

  /** The scalar that is read: 0 on overflow. */
  function Scalar(c: Bytes): (r: nat)
    requires c != []
    ensures r < N
  {
    if Overflows(c) then 0 else BE(c)
  }

  /** The content octets of a number. */
  function Octets(v: nat): (c: Bytes)
    ensures c != []
  {
    if Digits(v)[0] >= 0x80 then [0] + Digits(v) else Digits(v)
  }

  lemma OctetsSpec(v: nat)
    ensures Shortest(Octets(v)) && Octets(v)[0] < 0x80 && BE(Octets(v)) == v
  {
    DigitsValue(v);
    LeadingZero(Digits(v));
    assert v > 0 ==> Digits(v)[0] != 0;
    if v == 0 { assert Digits(v) == [0]; }
  }

  /** Shortest octets of a number that is not negative are determined by the number. */
  lemma OctetsUnique(c: Bytes)
    requires Shortest(c) && c[0] < 0x80
    ensures Octets(BE(c)) == c
  {
    if c[0] == 0 && |c| > 1 {
      var d := c[1..];
      assert c == [0] + d;
      LeadingZero(d);
      ValueDigits(d);
    } else {
      ValueDigits(c);
    }
  }

  lemma OctetsFit(v: nat)
    requires v < N
    ensures |Octets(v)| <= 33
  {
    OrderFits();
    if v > 0 { DigitsFit(v, 32); }
  }

  /** Signatures of scalars are short: all lengths take one byte. */
  lemma ShortSignature(cr: Bytes, cs: Bytes)
    requires |cr| <= 33 && |cs| <= 33
    ensures |Body(cr, cs)| == 4 + |cr| + |cs|
    ensures Signature(cr, cs) == [0x30, 4 + |cr| + |cs|] + ([0x02, |cr|] + cr + ([0x02, |cs|] + cs))
  {
    assert Integer(cr) == [0x02, |cr|] + cr && Integer(cs) == [0x02, |cs|] + cs;
  }

  lemma PrintedIsSignature(r: nat, s: nat)
    requires r < N && s < N
    ensures IsSignature(Signature(Octets(r), Octets(s)), Octets(r), Octets(s))
    ensures |Signature(Octets(r), Octets(s))| <= 72
  {
    OctetsSpec(r);
    OctetsSpec(s);
    OctetsFit(r);
    OctetsFit(s);
    ShortSignature(Octets(r), Octets(s));
  }

  /** Parsing what was printed gives the numbers back. */
  lemma ParseSerialize(r: nat, s: nat)
    requires r < N && s < N
    ensures ParseSignatureSpec(Signature(Octets(r), Octets(s))) == Some(Pair(Octets(r), Octets(s)))
    ensures Scalar(Octets(r)) == r && Scalar(Octets(s)) == s
  {
    PrintedIsSignature(r, s);
    ParseComplete(Signature(Octets(r), Octets(s)), Octets(r), Octets(s));
    OctetsSpec(r);
    OctetsSpec(s);
  }

  /** Printing what was parsed gives the input back exactly when neither number overflowed. */
  lemma SerializeParse(sig: Bytes, cr: Bytes, cs: Bytes)
    requires IsSignature(sig, cr, cs) && |sig| <= MAX_SIZE
    ensures Signature(Octets(Scalar(cr)), Octets(Scalar(cs))) == sig <==> !Overflows(cr) && !Overflows(cs)
  {
    if !Overflows(cr) && !Overflows(cs) {
      OctetsUnique(cr);
      OctetsUnique(cs);
    } else if Signature(Octets(Scalar(cr)), Octets(Scalar(cs))) == sig {
      ParseSerialize(Scalar(cr), Scalar(cs));
      ParseComplete(sig, cr, cs);
      OctetsSpec(Scalar(cr));
      OctetsSpec(Scalar(cs));
    }
  }

  /** For instance a negative number is accepted, read as 0, and printed differently. */
  lemma NegativeAccepted()
    ensures IsSignature([0x30, 6, 0x02, 1, 0x80, 0x02, 1, 1], [0x80], [1])
    ensures Overflows([0x80]) && Scalar([0x80]) == 0
    ensures Signature(Octets(Scalar([0x80])), Octets(Scalar([1]))) != [0x30, 6, 0x02, 1, 0x80, 0x02, 1, 1]
  {
    ShortSignature([0x80], [1]);
    SerializeParse([0x30, 6, 0x02, 1, 0x80, 0x02, 1, 1], [0x80], [1]);
  }
}
