/** Windowed non-adjacent form (secp256k1_ecmult_wnaf in ecmult_impl.h). Scalars are integers below
    the group order. */
module Wnaf {

  /** The order of the secp256k1 group. */
  const N: nat := 0xFFFFFFFFFFFFFFFFFFFFFFFFFFFFFFFEBAAEDCE6AF48A03BBFD25E8CD0364141

  // ----- powers of two and bits -----

  function Pow2(k: nat): (r: nat)
    ensures r >= 1
  {
    if k == 0 then 1 else 2 * Pow2(k - 1)
  }

  lemma {:induction false} Pow2Add(a: nat, b: nat)
    ensures Pow2(a + b) == Pow2(a) * Pow2(b)
  {
    if b > 0 {
      Pow2Add(a, b - 1);
      assert Pow2(a + b) == 2 * Pow2(a + (b - 1));
      DoubleProduct(Pow2(a), Pow2(b - 1));
    }
  }

  lemma DoubleProduct(x: int, y: int)
    ensures x * (2 * y) == 2 * (x * y)
  {
  }

  lemma Halve(p: int, h: int, b: int)
    requires p >= 1 && 0 <= b <= 1
    ensures p * (2 * h + b) == b * p + (2 * p) * h && 0 <= b * p <= p
  {
  }

  lemma Swap(x: int, y: int, z: int)
    ensures x * (y * z) == y * (x * z)
  {
  }

  lemma AtLeast(p: int, x: int)
    requires p >= 1 && x >= 1
    ensures p * x >= p
  {
  }

  lemma Distribute(x: int, a: int, b: int)
    ensures x * (a + b) == x * a + x * b
  {
  }

  lemma Square(k: nat, v: nat)
    requires Pow2(k) == v
    ensures Pow2(2 * k) == v * v
  {
    Pow2Add(k, k);
  }

  lemma OrderBounds()
    ensures Pow2(255) < N < Pow2(256)
  {
    assert Pow2(2) == 4;
    Square(2, 4);
    Square(4, 0x10);
    Square(8, 0x100);
    Square(16, 0x10000);
    Square(32, 0x1_0000_0000);
    Square(64, 0x1_0000_0000_0000_0000);
    Square(128, 0x1_0000_0000_0000_0000_0000_0000_0000_0000);
    assert Pow2(256) == 2 * Pow2(255);
  }

  /** `s` shifted right. */
  function Shift(s: nat, k: nat): nat {
    if k == 0 then s else Shift(s, k - 1) / 2
  }

  function Bit(s: nat, k: nat): nat {
    Shift(s, k) % 2
  }

  /** The low `k` bits of `s`. */
  function Low(s: nat, k: nat): nat {
    if k == 0 then 0 else Low(s, k - 1) + Bit(s, k - 1) * Pow2(k - 1)
  }

  /** `count` bits of `s` from `offset` on. */
  function GetBits(s: nat, offset: nat, count: nat): nat {
    Low(Shift(s, offset), count)
  }

  lemma {:induction false} ShiftShift(s: nat, a: nat, b: nat)
    ensures Shift(Shift(s, a), b) == Shift(s, a + b)
  {
    if b > 0 {
      ShiftShift(s, a, b - 1);
      assert Shift(s, a + b) == Shift(s, a + (b - 1)) / 2;
    }
  }

  lemma {:induction false} LowShift(s: nat, k: nat)
    ensures s == Low(s, k) + Pow2(k) * Shift(s, k) && Low(s, k) < Pow2(k)
  {
    if k > 0 {
      LowShift(s, k - 1);
      var x, p := Shift(s, k - 1), Pow2(k - 1);
      assert x == 2 * (x / 2) + x % 2;
      Halve(p, x / 2, x % 2);
    }
  }

  /** Taking more bits: the low `b` bits, and then `k` more. */
  lemma {:induction false} LowSplit(s: nat, b: nat, k: nat)
    ensures Low(s, b + k) == Low(s, b) + Pow2(b) * GetBits(s, b, k)
  {
    if k > 0 {
      LowSplit(s, b, k - 1);
      ShiftShift(s, b, k - 1);
      Pow2Add(b, k - 1);
      var bit := Bit(s, b + (k - 1));
      assert Low(s, b + k) == Low(s, b + (k - 1)) + bit * Pow2(b + (k - 1));
      Distribute(Pow2(b), GetBits(s, b, k - 1), bit * Pow2(k - 1));
      Swap(Pow2(b), bit, Pow2(k - 1));
    }
  }

  lemma {:induction false} LowParity(s: nat, k: nat)
    requires k > 0
    ensures Low(s, k) % 2 == s % 2
  {
    if k == 1 {
      assert Low(s, 1) == Low(s, 0) + Bit(s, 0) * Pow2(0);
    } else {
      LowParity(s, k - 1);
      var bit, p := Bit(s, k - 1), Pow2(k - 2);
      assert Pow2(k - 1) == 2 * p && (bit == 0 || bit == 1);
    }
  }

  /** The low bits of a small number are the number, and its top bit is clear. */
  lemma SmallLow(s: nat, k: nat)
    requires s < Pow2(k)
    ensures Low(s, k) == s && Shift(s, k) == 0
  {
    LowShift(s, k);
    if Shift(s, k) > 0 { AtLeast(Pow2(k), Shift(s, k)); }
  }

  lemma TopBit(x: nat, k: nat)
    requires x < Pow2(k + 1)
    ensures Bit(x, k) == if x >= Pow2(k) then 1 else 0
  {
    LowShift(x, k);
    var q := Shift(x, k);
    if q >= 2 { AtLeastTwice(Pow2(k), q); } else { assert q == 0 || q == 1; }
  }

  lemma AtLeastTwice(p: int, x: int)
    requires p >= 1 && x >= 2
    ensures p * x >= 2 * p
  {
  }

  lemma {:induction false} Pow2Mono(a: nat, b: nat)
    requires a <= b
    ensures Pow2(a) <= Pow2(b)
  {
    if a < b { Pow2Mono(a, b - 1); }
  }

  // ----- signed digits -----

  /** The value of the first `k` digits. */
  function Prefix(d: seq<int>, k: nat): int
    requires k <= |d|
  {
    if k == 0 then 0 else Prefix(d, k - 1) + d[k - 1] * Pow2(k - 1)
  }

  /** Non-adjacent form of width w: digits are 0, or odd and below 2^(w-1) in absolute value,
      and two digits other than 0 are at least w places apart. */
  ghost predicate IsWnaf(d: seq<int>, w: nat)
    requires w > 0
  {
    && (forall i :: 0 <= i < |d| && d[i] != 0 ==> IsDigit(d[i], w))
    && (forall i, j :: 0 <= i < j < |d| && d[i] != 0 && d[j] != 0 ==> j - i >= w)
  }

  predicate IsDigit(x: int, w: nat)
    requires w > 0
  {
    x % 2 == 1 && -(Pow2(w - 1) as int) < x < Pow2(w - 1)
  }

  /** What the first `bit` digits must amount to, up to the sign. */
  function Rest(s: nat, bit: nat, carry: nat): int {
    Low(s, bit) - carry * Pow2(bit)
  }

  function NextCarry(s: nat, bit: nat, w: nat, now: nat, carry: nat): nat
    requires w > 0
  {
    Bit(GetBits(s, bit, now) + carry, w - 1)
  }

  function Digit(s: nat, bit: nat, w: nat, now: nat, carry: nat): int
    requires w > 0
  {
    GetBits(s, bit, now) + carry - NextCarry(s, bit, w, now, carry) * Pow2(w)
  }

  /** One window: its digit, the next carry, and what they keep. */
  lemma WindowStep(s: nat, bit: nat, w: nat, now: nat, carry: nat)
    requires w >= 2 && 1 <= now <= w && carry <= 1 && Bit(s, bit) != carry
    ensures IsDigit(Digit(s, bit, w, now, carry), w) && NextCarry(s, bit, w, now, carry) <= 1
    ensures NextCarry(s, bit, w, now, carry) == 1 ==> now == w && Bit(s, bit + w - 1) == 1
    ensures var carry' := NextCarry(s, bit, w, now, carry);
      Rest(s, bit, carry) + Digit(s, bit, w, now, carry) * Pow2(bit) == Rest(s, bit + now, carry')
  {
    WindowDigit(s, bit, w, now, carry);
    WindowRest(s, bit, w, now, carry);
  }

  lemma WindowDigit(s: nat, bit: nat, w: nat, now: nat, carry: nat)
    requires w >= 2 && 1 <= now <= w && carry <= 1 && Bit(s, bit) != carry
    ensures IsDigit(Digit(s, bit, w, now, carry), w) && NextCarry(s, bit, w, now, carry) <= 1
    ensures NextCarry(s, bit, w, now, carry) == 1 ==> now == w && Bit(s, bit + w - 1) == 1
  {
    var t := Shift(s, bit);
    LowParity(t, now);
    LowShift(t, now);
    WindowWord(GetBits(s, bit, now) + carry, w, now);
    if NextCarry(s, bit, w, now, carry) == 1 { WindowTop(s, bit, w, carry); }
  }

  lemma WindowRest(s: nat, bit: nat, w: nat, now: nat, carry: nat)
    requires w > 0 && (NextCarry(s, bit, w, now, carry) == 1 ==> now == w)
    ensures var carry' := NextCarry(s, bit, w, now, carry);
      Rest(s, bit, carry) + Digit(s, bit, w, now, carry) * Pow2(bit) == Rest(s, bit + now, carry')
  {
    var carry' := NextCarry(s, bit, w, now, carry);
    LowSplit(s, bit, now);
    Pow2Add(bit, now);
    WindowSum(Low(s, bit), GetBits(s, bit, now), carry, carry', Pow2(bit), Pow2(w), Pow2(now));
  }

  lemma WindowWord(word: nat, w: nat, now: nat)
    requires w >= 2 && 1 <= now <= w && word % 2 == 1 && word <= Pow2(now)
    ensures var carry := Bit(word, w - 1);
            IsDigit(word - carry * Pow2(w), w) && (carry == 1 ==> now == w && word > Pow2(w - 1))
  {
    var q, h := Pow2(w - 1), Pow2(w - 2);
    assert q == 2 * h && Pow2(w) == 2 * q;
    Pow2Mono(now, w);
    assert word < 2 * q;
    TopBit(word, w - 1);
    if now < w { Pow2Mono(now, w - 1); }
    DigitRange(word, h, Bit(word, w - 1));
  }

  lemma DigitRange(word: int, h: int, carry: int)
    requires word % 2 == 1 && 0 < word < 4 * h && carry == if word >= 2 * h then 1 else 0
    ensures (word - carry * (4 * h)) % 2 == 1 && -2 * h < word - carry * (4 * h) < 2 * h
    ensures carry == 1 ==> word > 2 * h
  {
  }

  lemma WindowTop(s: nat, bit: nat, w: nat, carry: nat)
    requires w >= 2 && carry <= 1 && GetBits(s, bit, w) + carry > Pow2(w - 1)
    ensures Bit(s, bit + w - 1) == 1
  {
    LowShift(Shift(s, bit), w - 1);
    ShiftShift(s, bit, w - 1);
    assert bit + w - 1 == bit + (w - 1);
  }

  lemma WindowSum(low: int, bits: int, c: int, c': int, p: int, pw: int, pnow: int)
    requires c' == 0 || (c' == 1 && pw == pnow)
    ensures low - c * p + (bits + c - c' * pw) * p == low + p * bits - c' * (p * pnow)
  {
  }

  /** A position that is skipped, because its bit is the carry. */
  lemma SkipStep(s: nat, bit: nat, carry: nat)
    requires Bit(s, bit) == carry
    ensures Rest(s, bit, carry) == Rest(s, bit + 1, carry)
  {
    assert carry == 0 || carry == 1;
  }

  lemma {:induction false} PrefixZeros(d: seq<int>, k: nat, m: nat)
    requires k <= m <= |d| && forall i :: k <= i < m ==> d[i] == 0
    ensures Prefix(d, m) == Prefix(d, k)
  {
    if k < m { PrefixZeros(d, k, m - 1); }
  }

  lemma {:induction false} PrefixSame(d: seq<int>, e: seq<int>, k: nat)
    requires k <= |d| && k <= |e| && d[..k] == e[..k]
    ensures Prefix(d, k) == Prefix(e, k)
  {
    if k > 0 {
      assert d[k - 1] == d[..k][k - 1] == e[k - 1] && d[..k - 1] == d[..k][..k - 1] == e[..k - 1];
      PrefixSame(d, e, k - 1);
    }
  }

  function Flip(sign: int, x: int): int {
    if sign == -1 then -x else x
  }

  /** A scalar above half the order stands for a negative number. */
  function Signed(a: nat): int {
    if Bit(a, 255) == 1 then a - N else a
  }

  /** The digits below `bit` are in non-adjacent form, the last one at `last`; the rest is 0. */
  ghost predicate Spaced(d: seq<int>, w: nat, bit: nat, last: int)
    requires w > 0
  {
    && bit <= |d| && IsWnaf(d, w) && -1 <= last < bit && (last == -1 || last + w <= bit || bit == |d|)
    && (forall i :: last < i < |d| ==> d[i] == 0) && (last >= 0 ==> d[last] != 0)
  }

  /** The digits found so far, and what they amount to. */
  ghost predicate Partial(d: seq<int>, s: nat, sign: int, w: nat, bit: nat, carry: nat, last: int)
    requires w > 0
  {
    && Spaced(d, w, bit, last) && carry <= 1
    && (last >= 0 ==> Bit(s, last) == 1 || (last > 0 && Bit(s, last - 1) == 1))
    && (carry == 1 ==> bit > 0 && Bit(s, bit - 1) == 1)
    && Prefix(d, bit) == Flip(sign, Rest(s, bit, carry))
  }

  lemma PartialSkip(d: seq<int>, s: nat, sign: int, w: nat, bit: nat, carry: nat, last: int)
    requires w >= 2 && Partial(d, s, sign, w, bit, carry, last) && bit < |d| && Bit(s, bit) == carry
    ensures Partial(d, s, sign, w, bit + 1, carry, last)
  {
    SkipStep(s, bit, carry);
    assert d[bit] == 0;
  }

  lemma PartialWindow(d: seq<int>, s: nat, sign: int, w: nat, bit: nat, carry: nat, last: int, now: nat)
    requires w >= 2 && Partial(d, s, sign, w, bit, carry, last) && bit < |d| && Bit(s, bit) != carry
    requires (sign == 1 || sign == -1) && now == if w > |d| - bit then |d| - bit else w
    ensures var x := Flip(sign, Digit(s, bit, w, now, carry));
      Partial(d[bit := x], s, sign, w, bit + now, NextCarry(s, bit, w, now, carry), bit)
  {
    WindowStep(s, bit, w, now, carry);
    PartialStep(d, s, sign, w, bit, carry, last, now, Digit(s, bit, w, now, carry), NextCarry(s, bit, w, now, carry));
  }

  /** The same for any digit and carry that keep the value. */
  lemma PartialStep(d: seq<int>, s: nat, sign: int, w: nat, bit: nat, carry: nat, last: int, now: nat, x: int,
                    carry': nat)
    requires w >= 2 && Partial(d, s, sign, w, bit, carry, last) && bit < |d| && Bit(s, bit) != carry
    requires (sign == 1 || sign == -1) && now == if w > |d| - bit then |d| - bit else w
    requires IsDigit(x, w) && carry' <= 1 && (carry' == 1 ==> now == w && Bit(s, bit + w - 1) == 1)
    requires Rest(s, bit, carry) + x * Pow2(bit) == Rest(s, bit + now, carry')
    ensures Partial(d[bit := Flip(sign, x)], s, sign, w, bit + now, carry', bit)
  {
    FlipDigit(sign, x, w);
    WindowSpaced(d, w, bit, last, Flip(sign, x), now);
    PrefixExtend(d, bit, now, Flip(sign, x));
    FlipSum(sign, Rest(s, bit, carry), x, Pow2(bit));
  }

  lemma WindowSpaced(d: seq<int>, w: nat, bit: nat, last: int, x: int, now: nat)
    requires w > 0 && Spaced(d, w, bit, last) && bit < |d| && IsDigit(x, w)
    requires now == if w > |d| - bit then |d| - bit else w
    ensures Spaced(d[bit := x], w, bit + now, bit)
  {
    WnafExtend(d, w, bit, last, x);
  }

  lemma WnafExtend(d: seq<int>, w: nat, bit: nat, last: int, x: int)
    requires w > 0 && IsWnaf(d, w) && bit < |d| && -1 <= last < bit && (last == -1 || last + w <= bit)
    requires (forall i :: last < i < |d| ==> d[i] == 0) && IsDigit(x, w)
    ensures IsWnaf(d[bit := x], w)
  {
  }

  lemma PrefixExtend(d: seq<int>, bit: nat, now: nat, x: int)
    requires now > 0 && bit + now <= |d| && forall i :: bit <= i < |d| ==> d[i] == 0
    ensures Prefix(d[bit := x], bit + now) == Prefix(d, bit) + x * Pow2(bit)
  {
    var d' := d[bit := x];
    assert d'[..bit] == d[..bit];
    PrefixSame(d, d', bit);
    PrefixZeros(d', bit + 1, bit + now);
  }

  lemma FlipDigit(sign: int, x: int, w: nat)
    requires w > 0 && IsDigit(x, w)
    ensures IsDigit(Flip(sign, x), w)
  {
  }

  lemma FlipSum(sign: int, x: int, digit: int, p: int)
    ensures Flip(sign, x) + Flip(sign, digit) * p == Flip(sign, x + digit * p)
  {
  }

  lemma PartialDone(d: seq<int>, s: nat, sign: int, w: nat, carry: nat, last: int)
    requires w > 0 && |d| > 0 && Partial(d, s, sign, w, |d|, carry, last) && s < Pow2(|d| - 1)
    ensures carry == 0 && Prefix(d, |d|) == Flip(sign, s)
  {
    SmallLow(s, |d| - 1);
    assert Pow2(|d|) == 2 * Pow2(|d| - 1);
    SmallLow(s, |d|);
  }

  /** At most one digit more than any number of bits that is enough. */
  ghost predicate FewDigits(s: nat, bits: nat) {
    forall k: nat :: s < Pow2(k) ==> bits <= k + 1
  }

  /** A number below 2^k has its bits below k, and a digit is at most one place above a bit. */
  lemma TopDigit(s: nat, last: int)
    requires -1 <= last && (last >= 0 ==> Bit(s, last) == 1 || (last > 0 && Bit(s, last - 1) == 1))
    ensures FewDigits(s, last + 1)
  {
    forall k: nat | s < Pow2(k) ensures last <= k {
      if last > k {
        NoBitAbove(s, k, last);
        NoBitAbove(s, k, last - 1);
      }
    }
  }

  lemma NoBitAbove(s: nat, k: nat, j: nat)
    requires s < Pow2(k) && k <= j
    ensures Bit(s, j) == 0
  {
    Pow2Mono(k, j);
    SmallLow(s, j);
  }

  method Clear(wnaf: array<int>)
    modifies wnaf
    ensures forall j :: 0 <= j < wnaf.Length ==> wnaf[j] == 0
  {
    for i := 0 to wnaf.Length
      invariant forall j :: 0 <= j < i ==> wnaf[j] == 0
    {
      wnaf[i] := 0;
    }
  }

  /** The window of the loop that starts at a bit other than the carry. */
  method SetDigit(wnaf: array<int>, s: nat, sign: int, w: nat, bit: nat, carry: nat, now: nat, ghost last: int)
    returns (carry': nat)
    requires w >= 2 && Partial(wnaf[..], s, sign, w, bit, carry, last) && bit < wnaf.Length && Bit(s, bit) != carry
    requires (sign == 1 || sign == -1) && now == if w > wnaf.Length - bit then wnaf.Length - bit else w
    modifies wnaf
    ensures Partial(wnaf[..], s, sign, w, bit + now, carry', bit)
  {
    PartialWindow(wnaf[..], s, sign, w, bit, carry, last, now);
    var word := GetBits(s, bit, now) + carry;
    carry' := Bit(word, w - 1);
    word := word - carry' * Pow2(w);
    assert word == Digit(s, bit, w, now, carry);
    ghost var d := wnaf[..];
    wnaf[bit] := sign * word;
    assert wnaf[..] == d[bit := Flip(sign, word)];
  }

  /** The loop: all digits of `s`, with the given sign. */
  method Recode(wnaf: array<int>, s: nat, sign: int, w: nat) returns (carry: nat, last: int)
    requires 2 <= w && (sign == 1 || sign == -1)
    modifies wnaf
    ensures Partial(wnaf[..], s, sign, w, wnaf.Length, carry, last)
  {
    Clear(wnaf);
    var len, bit := wnaf.Length, 0;
    carry, last := 0, -1;
    while bit < len
      invariant bit <= len && Partial(wnaf[..], s, sign, w, bit, carry, last)
    {
      if Bit(s, bit) == carry {
        PartialSkip(wnaf[..], s, sign, w, bit, carry, last);
        bit := bit + 1;
      } else {
        var now := if w > len - bit then len - bit else w;
        carry := SetDigit(wnaf, s, sign, w, bit, carry, now, last);
        last, bit := bit, bit + now;
      }
    }
  }

  /** The digits stand for `x` and nothing is carried out, if there are enough of them. */
  ghost predicate Complete(d: seq<int>, magnitude: nat, x: int, carry: nat) {
    |d| > 0 && magnitude < Pow2(|d| - 1) ==> carry == 0 && Prefix(d, |d|) == x
  }

  /** What the loop leaves behind. */
  lemma Recoded(d: seq<int>, s: nat, sign: int, w: nat, carry: nat, last: int)
    requires w > 0 && Partial(d, s, sign, w, |d|, carry, last)
    ensures Complete(d, s, Flip(sign, s), carry) && FewDigits(s, last + 1)
  {
    if |d| > 0 && s < Pow2(|d| - 1) { PartialDone(d, s, sign, w, carry, last); }
    TopDigit(s, last);
  }

  /** The signed digits of a scalar; the number of digits in use is returned, at most one more
      than the bits of the absolute value. If the array is long enough for the number, the digits
      stand for it and nothing is carried out. */
  method EcmultWnaf(wnaf: array<int>, a: nat, w: nat) returns (bits: nat, ghost carryOut: nat)
    requires wnaf.Length <= 256 && a < N && 2 <= w <= 31
    modifies wnaf
    ensures IsWnaf(wnaf[..], w) && bits <= wnaf.Length
    ensures forall i :: bits <= i < wnaf.Length ==> wnaf[i] == 0
    ensures bits > 0 ==> wnaf[bits - 1] != 0
    ensures Complete(wnaf[..], Magnitude(a), Signed(a), carryOut) && FewDigits(Magnitude(a), bits)
  {
    var s, sign := a, 1;
    if Bit(s, 255) == 1 { s, sign := N - s, -1; }
    var carry, last := Recode(wnaf, s, sign, w);
    Recoded(wnaf[..], s, sign, w, carry, last);
    bits, carryOut := last + 1, carry;
  }

  /** The absolute value of a scalar taken as a signed number. */
  function Magnitude(a: nat): nat
    requires a < N
  {
    if Bit(a, 255) == 1 then N - a else a
  }

  /** ... is always short enough for 256 digits. */
  lemma MagnitudeFits(a: nat)
    requires a < N
    ensures Magnitude(a) < Pow2(255)
  {
    OrderBounds();
    TopBit(a, 255);
    assert Pow2(256) == 2 * Pow2(255);
  }
}
