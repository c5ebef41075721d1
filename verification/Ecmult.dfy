/** Double multiplication na*A + ng*G (secp256k1_ecmult in ecmult_impl.h, without the
    endomorphism), over any commutative group in which A and G have the order of secp256k1. */
module Ecmult {
  import opened Wnaf

  const WINDOW_A: nat := 5
  const WINDOW_G: nat := 16

  datatype Group<!P(!new)> = Group(zero: P, add: (P, P) -> P, neg: P -> P) {
    ghost predicate Commutes(x: P, y: P) { add(x, y) == add(y, x) }
    ghost predicate Associates(x: P, y: P, z: P) { add(add(x, y), z) == add(x, add(y, z)) }
    ghost predicate Neutral(x: P) { add(x, zero) == x }
    ghost predicate Inverse(x: P) { add(x, neg(x)) == zero }

    ghost predicate Lawful() {
      && (forall x, y {:trigger Commutes(x, y)} :: Commutes(x, y))
      && (forall x, y, z {:trigger Associates(x, y, z)} :: Associates(x, y, z))
      && (forall x {:trigger Neutral(x)} :: Neutral(x))
      && (forall x {:trigger Inverse(x)} :: Inverse(x))
    }

    /** The multiple k*p. */
    ghost function Times(k: int, p: P): P
      decreases if k < 0 then -k else k
    {
      if k == 0 then zero
      else if k > 0 then add(Times(k - 1, p), p)
      else add(Times(k + 1, p), neg(p))
    }
  }

  // ----- multiples -----

  lemma {:induction false} CancelRight<P(!new)>(g: Group<P>, x: P, p: P)
    requires g.Lawful()
    ensures g.add(g.add(x, g.neg(p)), p) == x && g.add(g.add(x, p), g.neg(p)) == x
  {
    assert g.Associates(x, g.neg(p), p) && g.Associates(x, p, g.neg(p));
    assert g.Commutes(g.neg(p), p) && g.Inverse(p) && g.Neutral(x);
  }

  lemma {:induction false} TimesSucc<P(!new)>(g: Group<P>, k: int, p: P)
    requires g.Lawful()
    ensures g.Times(k + 1, p) == g.add(g.Times(k, p), p)
    ensures g.Times(k - 1, p) == g.add(g.Times(k, p), g.neg(p))
  {
    CancelRight(g, g.Times(k + 1, p), p);
    CancelRight(g, g.Times(k - 1, p), p);
  }

  lemma {:induction false} TimesAdd<P(!new)>(g: Group<P>, k: int, l: int, p: P)
    requires g.Lawful()
    ensures g.Times(k + l, p) == g.add(g.Times(k, p), g.Times(l, p))
    decreases if l < 0 then -l else l
  {
    var x := g.Times(k, p);
    if l == 0 {
      assert g.Neutral(x);
    } else if l > 0 {
      TimesAdd(g, k, l - 1, p);
      TimesSucc(g, k + (l - 1), p);
      assert g.Associates(x, g.Times(l - 1, p), p);
    } else {
      TimesAdd(g, k, l + 1, p);
      TimesSucc(g, k + (l + 1), p);
      assert g.Associates(x, g.Times(l + 1, p), g.neg(p));
    }
  }

  lemma {:induction false} TimesNeg<P(!new)>(g: Group<P>, k: int, p: P)
    requires g.Lawful()
    ensures g.Times(-k, p) == g.neg(g.Times(k, p))
  {
    var x, y := g.Times(k, p), g.Times(-k, p);
    TimesAdd(g, k, -k, p);
    CancelRight(g, y, x);
    assert g.Commutes(x, y) && g.Commutes(g.zero, g.neg(x)) && g.Neutral(g.neg(x));
  }

  /** A scalar and its signed reading give the same multiple. */
  lemma {:induction false} TimesSigned<P(!new)>(g: Group<P>, a: nat, p: P)
    requires g.Lawful() && g.Times(N, p) == g.zero && a < N
    ensures g.Times(Signed(a), p) == g.Times(a, p)
  {
    if Bit(a, 255) == 1 {
      TimesAdd(g, a - N, N, p);
      assert g.Neutral(g.Times(a - N, p));
    }
  }

  // ----- the table of odd multiples -----

  /** pre[i] is (2i+1)*a. */
  ghost predicate OddMultiples<P(!new)>(g: Group<P>, pre: seq<P>, a: P) {
    forall i :: 0 <= i < |pre| ==> pre[i] == g.Times(2 * i + 1, a)
  }

  method OddMultiplesTable<P(!new)>(g: Group<P>, n: nat, a: P) returns (pre: seq<P>)
    requires g.Lawful()
    ensures |pre| == n && OddMultiples(g, pre, a)
  {
    var d := g.add(a, a);
    pre := [];
    while |pre| < n
      invariant |pre| <= n && OddMultiples(g, pre, a)
    {
      var i := |pre|;
      if i == 0 {
        assert g.Commutes(g.zero, a) && g.Neutral(a) && g.Times(1, a) == g.add(g.Times(0, a), a);
        pre := [a];
      } else {
        TimesSucc(g, 2 * i - 1, a);
        TimesSucc(g, 2 * i, a);
        assert pre[i - 1] == g.Times(2 * (i - 1) + 1, a);
        assert g.Associates(pre[i - 1], a, a);
        pre := pre + [g.add(pre[i - 1], d)];
      }
    }
  }

  /** ECMULT_TABLE_GET_GE: the multiple for a digit; the index stays inside a table of 2^(w-2). */
  method TableGet<P(!new)>(g: Group<P>, pre: seq<P>, n: int, w: nat, ghost a: P) returns (r: P)
    requires g.Lawful() && w >= 2 && IsDigit(n, w) && |pre| == Pow2(w - 2) && OddMultiples(g, pre, a)
    ensures r == g.Times(n, a)
  {
    assert Pow2(w - 1) == 2 * Pow2(w - 2);
    if n > 0 {
      r := pre[(n - 1) / 2];
      assert 2 * ((n - 1) / 2) + 1 == n;
    } else {
      r := g.neg(pre[(-n - 1) / 2]);
      assert 2 * ((-n - 1) / 2) + 1 == -n;
      TimesNeg(g, -n, a);
    }
  }

  // ----- the double-and-add loop -----

  /** The value of the digits from place `k` on, as seen from that place. */
  function Suffix(d: seq<int>, k: nat): int
    requires k <= |d|
    decreases |d| - k
  {
    if k == |d| then 0 else d[k] + 2 * Suffix(d, k + 1)
  }

  lemma {:induction false} PrefixSuffix(d: seq<int>, k: nat)
    requires k <= |d|
    ensures Suffix(d, 0) == Prefix(d, k) + Pow2(k) * Suffix(d, k)
  {
    if k > 0 {
      PrefixSuffix(d, k - 1);
      Horner(Pow2(k - 1), d[k - 1], Suffix(d, k));
    }
  }

  lemma Horner(p: int, x: int, rest: int)
    ensures p * (x + 2 * rest) == x * p + (2 * p) * rest
  {
  }

  lemma {:induction false} SuffixZeros(d: seq<int>, k: nat)
    requires k <= |d| && forall i :: k <= i < |d| ==> d[i] == 0
    ensures Suffix(d, k) == 0
    decreases |d| - k
  {
    if k < |d| { SuffixZeros(d, k + 1); }
  }

  /** x*a + y*b */
  ghost function Sum<P(!new)>(g: Group<P>, x: int, a: P, y: int, b: P): P {
    g.add(g.Times(x, a), g.Times(y, b))
  }

  lemma {:induction false} Exchange<P(!new)>(g: Group<P>, a: P, b: P, c: P, d: P)
    requires g.Lawful()
    ensures g.add(g.add(a, b), g.add(c, d)) == g.add(g.add(a, c), g.add(b, d))
  {
    assert g.Associates(a, b, g.add(c, d)) && g.Associates(b, c, d) && g.Commutes(b, c);
    assert g.Associates(c, b, d) && g.Associates(a, c, g.add(b, d));
  }

  lemma {:induction false} SumAdd<P(!new)>(g: Group<P>, x: int, y: int, x': int, y': int, a: P, b: P)
    requires g.Lawful()
    ensures g.add(Sum(g, x, a, y, b), Sum(g, x', a, y', b)) == Sum(g, x + x', a, y + y', b)
  {
    Exchange(g, g.Times(x, a), g.Times(y, b), g.Times(x', a), g.Times(y', b));
    TimesAdd(g, x, x', a);
    TimesAdd(g, y, y', b);
  }

  lemma {:induction false} SumOne<P(!new)>(g: Group<P>, x: int, a: P, b: P)
    requires g.Lawful()
    ensures Sum(g, x, a, 0, b) == g.Times(x, a) && Sum(g, 0, a, x, b) == g.Times(x, b)
  {
    assert g.Neutral(g.Times(x, a)) && g.Neutral(g.Times(x, b)) && g.Commutes(g.zero, g.Times(x, b));
  }

  /** One table lookup of the loop: add the digit's multiple, if there is a digit. */
  method AddDigit<P(!new)>(g: Group<P>, r: P, wnaf: array<int>, bits: nat, i: nat, w: nat, pre: seq<P>, ghost p: P)
    returns (r': P)
    requires g.Lawful() && w >= 2 && |pre| == Pow2(w - 2) && OddMultiples(g, pre, p)
    requires i < wnaf.Length && bits <= wnaf.Length && IsWnaf(wnaf[..], w)
    requires forall j :: bits <= j < wnaf.Length ==> wnaf[j] == 0
    ensures r' == g.add(r, g.Times(wnaf[i], p))
  {
    assert wnaf[..][i] == wnaf[i];
    if i < bits && wnaf[i] != 0 {
      var t := TableGet(g, pre, wnaf[i], w, p);
      return g.add(r, t);
    }
    assert wnaf[i] == 0 && g.Neutral(r);
    return r;
  }

  /** Doubling and adding one digit of each number. */
  lemma {:induction false} SumStep<P(!new)>(g: Group<P>, x: int, y: int, d: int, e: int, a: P, b: P)
    requires g.Lawful()
    ensures var r := Sum(g, x, a, y, b);
      g.add(g.add(g.add(r, r), g.Times(d, a)), g.Times(e, b)) == Sum(g, d + 2 * x, a, e + 2 * y, b)
  {
    var r := Sum(g, x, a, y, b);
    SumAdd(g, x, y, x, y, a, b);
    SumAdd(g, 2 * x, 2 * y, d, e, a, b);
    assert x + x == 2 * x && y + y == 2 * y && 2 * x + d == d + 2 * x && 2 * y + e == e + 2 * y;
    assert g.Associates(g.add(r, r), g.Times(d, a), g.Times(e, b));
  }

  /** All digits in use: from a place that covers them the value is that of the whole number. */
  lemma DigitsValue(d: seq<int>, a: nat)
    requires |d| == 256 && Prefix(d, 256) == Signed(a)
    ensures Suffix(d, 0) == Signed(a)
  {
    PrefixSuffix(d, 256);
  }

  method DoubleAndAdd<P(!new)>(g: Group<P>, a: P, gen: P, preA: seq<P>, preG: seq<P>,
                               wnafNa: array<int>, bitsNa: nat, wnafNg: array<int>, bitsNg: nat) returns (r: P)
    requires g.Lawful() && wnafNa.Length == wnafNg.Length == 256 && bitsNa <= 256 && bitsNg <= 256
    requires IsWnaf(wnafNa[..], WINDOW_A) && IsWnaf(wnafNg[..], WINDOW_G)
    requires |preA| == Pow2(WINDOW_A - 2) && OddMultiples(g, preA, a)
    requires |preG| == Pow2(WINDOW_G - 2) && OddMultiples(g, preG, gen)
    requires forall j :: bitsNa <= j < 256 ==> wnafNa[j] == 0
    requires forall j :: bitsNg <= j < 256 ==> wnafNg[j] == 0
    ensures r == Sum(g, Suffix(wnafNa[..], 0), a, Suffix(wnafNg[..], 0), gen)
  {
    ghost var d, e := wnafNa[..], wnafNg[..];
    var i: nat := if bitsNa > bitsNg then bitsNa else bitsNg;
    SuffixZeros(d, i);
    SuffixZeros(e, i);
    SumOne(g, 0, a, gen);
    r := g.zero;
    while i > 0
      invariant i <= 256 && d == wnafNa[..] && e == wnafNg[..]
      invariant r == Sum(g, Suffix(d, i), a, Suffix(e, i), gen)
    {
      SumStep(g, Suffix(d, i), Suffix(e, i), d[i - 1], e[i - 1], a, gen);
      i := i - 1;
      r := g.add(r, r);
      r := AddDigit(g, r, wnafNa, bitsNa, i, WINDOW_A, preA, a);
      r := AddDigit(g, r, wnafNg, bitsNg, i, WINDOW_G, preG, gen);
    }
  }

  /** The 256 signed digits of a scalar. */
  method SignedDigits(a: nat, w: nat) returns (wnaf: array<int>, bits: nat)
    requires a < N && 2 <= w <= 31
    ensures wnaf.Length == 256 && fresh(wnaf) && bits <= 256 && IsWnaf(wnaf[..], w)
    ensures forall j :: bits <= j < 256 ==> wnaf[j] == 0
    ensures Suffix(wnaf[..], 0) == Signed(a)
  {
    MagnitudeFits(a);
    wnaf := new int[256];
    ghost var carry;
    bits, carry := EcmultWnaf(wnaf, a, w);
    DigitsValue(wnaf[..], a);
  }

  /** The whole of secp256k1_ecmult. `preG` is the precomputed table of the generator. */
  method Ecmult<P(!new)>(g: Group<P>, a: P, gen: P, preG: seq<P>, na: nat, ng: nat) returns (r: P)
    requires g.Lawful() && g.Times(N, a) == g.zero && g.Times(N, gen) == g.zero && na < N && ng < N
    requires |preG| == Pow2(WINDOW_G - 2) && OddMultiples(g, preG, gen)
    ensures r == g.add(g.Times(na, a), g.Times(ng, gen))
  {
    var wnafNa, bitsNa := SignedDigits(na, WINDOW_A);
    var preA := OddMultiplesTable(g, Pow2(WINDOW_A - 2), a);
    var wnafNg, bitsNg := SignedDigits(ng, WINDOW_G);
    r := DoubleAndAdd(g, a, gen, preA, preG, wnafNa, bitsNa, wnafNg, bitsNg);
    TimesSigned(g, na, a);
    TimesSigned(g, ng, gen);
  }
}
