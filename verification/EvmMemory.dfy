/** EVM memory and its price (core/vm/memory.go, core/vm/common.go, memoryGasCost of
    core/vm/gas_table.go). Sizes and gas are 64-bit: products and differences wrap. */
module EvmMemory {
  import opened Basics
  import opened JumpDest

  const W64: int := 0x1_0000_0000_0000_0000
  const MAX_MEMORY: int := 0xff_ffff_ffe0

  // ----- word sizes -----

  function ToWordSize(size: nat): nat
    requires size < W64
  {
    if size > W64 - 1 - 31 then (W64 - 1) / 32 + 1 else (size + 31) / 32
  }

  lemma WordSizeCovers(size: nat)
    requires size < W64
    ensures 32 * ToWordSize(size) >= size && 32 * ToWordSize(size) <= size + 31
  {}

  lemma WholeWords(words: nat)
    requires words * 32 < W64
    ensures words * 32 % 32 == 0 && ToWordSize(words * 32) == words
  {}

  // ----- the fee -----

  /** 3 gas per word plus the square of the words over 512 (appendix H of the Ethereum
      Yellow Paper). */
  function Fee(words: nat): nat { 3 * words + words * words / 512 }

  /** The same in 64-bit arithmetic, as memoryGasCost computes it. */
  function Fee64(words: nat): nat {
    (words * 3 % W64 + words * words % W64 / 512) % W64
  }

  /** The 64-bit fee is the fee exactly up to 2^32 - 1 words. The guard on the requested
      size, 0xffffffffe0 bytes, admits up to 2^35 - 1 words. */
  lemma Fee64Exact(words: nat)
    requires 32 * words <= MAX_MEMORY
    ensures Fee64(words) == Fee(words) <==> words < 0x1_0000_0000
  {
    if words < 0x1_0000_0000 {
      SquareBelow(words, 0xffff_ffff);
    } else {
      SquareAbove(words, 0x1_0000_0000);
    }
    FeeOfSquare(words, words * words);
  }

  lemma FeeOfSquare(words: nat, sq: nat)
    requires words < 0x8_0000_0000
    ensures (words * 3 % W64 + sq % W64 / 512) % W64 == 3 * words + sq / 512 <==> sq < W64
  {
    assert words * 3 % W64 == 3 * words;
    if sq >= W64 {
      var q, r := sq / W64, sq % W64;
      assert sq == W64 * q + r && q >= 1;
      assert sq / 512 == W64 / 512 * q + r / 512;
    }
  }

  /** The 64-bit difference of two fees. */
  function Charge(words: nat, newWords: nat): nat {
    (Fee64(newWords) - Fee64(words)) % W64
  }

  lemma SameCharge(words: nat)
    ensures Charge(words, words) == 0
  {
  }

  /** Above that the 64-bit fee falls short, but by less than 2^64. */
  lemma Fee64Short(words: nat)
    requires 0x1_0000_0000 <= words && 32 * words <= MAX_MEMORY
    ensures Fee64(words) < Fee(words) < Fee64(words) + W64
  {
    SquareAbove(words, 0x1_0000_0000);
    SquareBelow(words, 0x7_ffff_ffff);
    ShortSquare(words, words * words);
  }

  lemma ShortSquare(words: nat, sq: nat)
    requires words < 0x8_0000_0000 && W64 <= sq < 512 * (W64 - W64 / 2)
    ensures (words * 3 % W64 + sq % W64 / 512) % W64 < 3 * words + sq / 512
    ensures 3 * words + sq / 512 < (words * 3 % W64 + sq % W64 / 512) % W64 + W64
  {
    var q, r := sq / W64, sq % W64;
    assert sq == W64 * q + r && 1 <= q;
    assert sq / 512 == W64 / 512 * q + r / 512;
  }

  /** The first size with a wrong fee: 2^32 words cost 12884901888 instead of 36028809903865856. */
  lemma FirstWrongFee()
    ensures Fee64(0x1_0000_0000) == 12884901888 && Fee(0x1_0000_0000) == 36028809903865856
  {
  }

  lemma Fee64Range(words: nat)
    ensures 0 <= Fee64(words) < W64
  {}

  lemma SmallMod(x: nat)
    requires x < W64
    ensures x % W64 == x
  {}

  lemma SquareBelow(x: nat, b: nat)
    requires x <= b
    ensures x * x <= b * b
  {}

  lemma SquareAbove(x: nat, b: nat)
    requires x >= b
    ensures x * x >= b * b
  {}

  /** More memory never costs less. */
  lemma FeeMonotone(a: nat, b: nat)
    requires a <= b
    ensures Fee(a) <= Fee(b)
  {
    SquareBelow(a, b);
  }

  // ----- memory -----

  class Memory {
    var store: seq<byte>
    var lastGasCost: nat
    ghost var words: nat     // words paid for
    ghost var charged: int   // sum of the fees charged so far
    ghost var wraps: nat     // how often the difference of two fees wrapped

    /** The last cost is the 64-bit fee of the words paid for, and all fees charged add up to it,
        up to multiples of 2^64. They add up to the true fee exactly up to 2^32 - 1 words. */
    ghost predicate Paid()
      reads this
    {
      && lastGasCost == Fee64(words) && 32 * words <= MAX_MEMORY
      && |store| % 32 == 0 && |store| <= 32 * words
      && charged == lastGasCost + W64 * wraps
      && (charged == Fee(words) <==> words < 0x1_0000_0000)
    }

    ghost predicate Valid()
      reads this
    {
      Paid() && |store| == 32 * words
    }

    constructor ()
      ensures Valid() && words == 0 && store == [] && charged == 0
    {
      store, lastGasCost, words, charged, wraps := [], 0, 0, 0, 0;
    }

    /** memoryGasCost: the price of growing to `newMemSize`; fails above 0xffffffffe0. */
    method GasCost(newMemSize: nat) returns (fee: nat, ok: bool)
      requires Valid() && newMemSize < W64
      modifies this`lastGasCost, this`words, this`charged, this`wraps
      ensures Paid() && ok == (newMemSize <= MAX_MEMORY) && fee < W64
      ensures ok ==> newMemSize <= 32 * words && old(words) <= words
      ensures ok ==> words == old(words) || words == ToWordSize(newMemSize)
      ensures fee == Charge(old(words), words) && charged == old(charged) + fee
      ensures words < 0x1_0000_0000 ==> fee == Fee(words) - Fee(old(words))
      ensures !ok ==> words == old(words)
    {
      ok := newMemSize <= MAX_MEMORY;
      var newWords := if ok then ToWordSize(newMemSize) else 0;
      WordSizeCovers(newMemSize);
      if newWords * 32 > |store| {
        fee := Grow(newWords);
      } else {
        fee := 0;
        SameCharge(words);
      }
    }

    /** The new total in 64-bit arithmetic, less what was charged last. */
    method Grow(newWords: nat) returns (fee: nat)
      requires Paid() && words <= newWords && 32 * newWords <= MAX_MEMORY
      modifies this`lastGasCost, this`words, this`charged, this`wraps
      ensures Paid() && words == newWords && fee < W64 && charged == old(charged) + fee
      ensures fee == Charge(old(words), words)
      ensures words < 0x1_0000_0000 ==> fee == Fee(words) - Fee(old(words))
    {
      var newTotalFee := Fee64(newWords);
      fee := (newTotalFee - lastGasCost) % W64;
      FeeStep(words, newWords);
      Telescoped(words, newWords, charged, wraps);
      wraps := if newTotalFee < lastGasCost then wraps + 1 else wraps;
      lastGasCost, words, charged := newTotalFee, newWords, charged + fee;
    }

    method Resize(size: nat)
      requires Paid() && size % 32 == 0 && size <= 32 * words
      modifies this`store
      ensures |store| == if |old(store)| < size then size else |old(store)|
      ensures |old(store)| <= |store| && store[..|old(store)|] == old(store)
      ensures forall i :: |old(store)| <= i < |store| ==> store[i] == 0
      ensures Paid()
    {
      if |store| < size {
        store := store + seq(size - |store|, _ => 0);
      }
    }

    /** Get returns a copy, empty for an empty range. */
    method Get(offset: int, size: int) returns (cpy: seq<byte>)
      requires size != 0 ==> 0 <= offset && 0 <= size && offset + size <= |store|
      ensures cpy == if size == 0 then [] else store[offset..offset + size]
    {
      if size == 0 { return []; }
      if |store| > offset { return store[offset..offset + size]; }
      return [];
    }

    method Set(offset: nat, size: nat, value: seq<byte>)
      requires size <= |store| && (size > 0 ==> offset + size <= |store|)
      modifies this`store
      ensures |store| == |old(store)|
      ensures var n := if |value| < size then |value| else size;
        if size == 0 then store == old(store)
        else store == old(store[..offset]) + value[..n] + old(store[offset + n..])
    {
      if size > 0 {
        var n := if |value| < size then |value| else size;
        store := store[..offset] + value[..n] + store[offset + n..];
      }
    }
  }

  /** Within the exact range a step charges the difference of the fees. */
  lemma FeeStep(words: nat, newWords: nat)
    requires words <= newWords && 32 * newWords <= MAX_MEMORY
    ensures 0 <= Charge(words, newWords) < W64
    ensures newWords < 0x1_0000_0000 ==>
              Charge(words, newWords) == Fee(newWords) - Fee(words)
  {
    if newWords < 0x1_0000_0000 {
      Fee64Exact(words);
      Fee64Exact(newWords);
      FeeMonotone(words, newWords);
      Fee64Range(newWords);
      SmallMod(Fee(newWords) - Fee(words));
    }
  }

  /** One more charge, exact or wrapped. */
  lemma Telescoped(words: nat, newWords: nat, charged: int, wraps: nat)
    requires words <= newWords && 32 * newWords <= MAX_MEMORY
    requires charged == Fee64(words) + W64 * wraps && (charged == Fee(words) <==> words < 0x1_0000_0000)
    ensures var charged' := charged + Charge(words, newWords);
            var wraps' := if Fee64(newWords) < Fee64(words) then wraps + 1 else wraps;
      && charged' == Fee64(newWords) + W64 * wraps'
      && (charged' == Fee(newWords) <==> newWords < 0x1_0000_0000)
  {
    Fee64Range(words);
    Fee64Range(newWords);
    Wrapped(Fee64(words), Fee64(newWords), wraps);
    if newWords < 0x1_0000_0000 {
      FeeStep(words, newWords);
    } else {
      Fee64Short(newWords);
      NoMultiple(Fee64(newWords), Fee(newWords), if Fee64(newWords) < Fee64(words) then wraps + 1 else wraps);
    }
  }

  lemma Wrapped(x: nat, y: nat, wraps: nat)
    requires x < W64 && y < W64
    ensures x + W64 * wraps + (y - x) % W64 == y + W64 * (if y < x then wraps + 1 else wraps)
  {
    assert (y - x) % W64 == if y < x then y - x + W64 else y - x;
  }

  lemma NoMultiple(x: int, y: int, k: nat)
    requires x < y < x + W64
    ensures x + W64 * k != y
  {
  }
}
