/** Jump-destination analysis (core/vm/analysis.go): the bit vector marks push data, and a
    jump is allowed exactly to the JUMPDEST instructions of section 9.4.3 of the Ethereum
    Yellow Paper. */
module JumpDest {

  import opened Basics

  type Code = seq<byte>

  const PUSH1: byte := 0x60
  const PUSH32: byte := 0x7f
  const JUMPDEST: byte := 0x5b

  // ----- linear decoding of the code -----

  function PushBytes(op: byte): nat {
    if PUSH1 <= op <= PUSH32 then op - PUSH1 + 1 else 0
  }

  /** Where the instruction after the one at `pc` starts. */
  function Next(code: Code, pc: nat): nat
    requires pc < |code|
  {
    pc + 1 + PushBytes(code[pc])
  }

  /** Decoding from instruction `p` meets an instruction at `pc`. */
  predicate StartsFrom(code: Code, p: nat, pc: nat)
    decreases |code| - p
  {
    p == pc || (p < pc && p < |code| && StartsFrom(code, Next(code, p), pc))
  }

  predicate IsStart(code: Code, pc: nat) { StartsFrom(code, 0, pc) }

  /** `q` is an argument byte of the push instruction at `p`. */
  predicate ArgumentOf(code: Code, p: nat, q: nat) {
    p < |code| && IsStart(code, p) && p < q < Next(code, p)
  }

  predicate IsData(code: Code, q: nat) {
    exists p | 0 <= p < q :: ArgumentOf(code, p, q)
  }

  lemma {:induction false} StartsTrans(code: Code, p: nat, q: nat, r: nat)
    requires StartsFrom(code, p, q) && StartsFrom(code, q, r)
    ensures StartsFrom(code, p, r) && p <= q <= r
    decreases |code| - p
  {
    StartsLe(code, q, r);
    if p != q { StartsTrans(code, Next(code, p), q, r); }
  }

  lemma {:induction false} StartsLe(code: Code, p: nat, q: nat)
    requires StartsFrom(code, p, q)
    ensures p <= q
  {}

  /** The instruction after a start is a start. */
  lemma NextIsStart(code: Code, pc: nat)
    requires pc < |code| && IsStart(code, pc)
    ensures IsStart(code, Next(code, pc))
  {
    assert StartsFrom(code, pc, Next(code, pc));
    StartsTrans(code, 0, pc, Next(code, pc));
  }

  /** Of two starts the later one is past the whole earlier instruction. */
  lemma {:induction false} StartsOrdered(code: Code, s: nat, p: nat, q: nat)
    requires StartsFrom(code, s, p) && StartsFrom(code, s, q) && p < q && p < |code|
    ensures Next(code, p) <= q
    decreases |code| - s
  {
    if s == p {
      StartsLe(code, Next(code, p), q);
    } else {
      StartsOrdered(code, Next(code, s), p, q);
    }
  }

  /** Every position of the code is an instruction or push data, never both. */
  lemma StartXorData(code: Code, q: nat)
    ensures IsStart(code, q) ==> !IsData(code, q)
    ensures q < |code| && !IsStart(code, q) ==> IsData(code, q)
  {
    if IsStart(code, q) {
      forall p | 0 <= p < q ensures !ArgumentOf(code, p, q) {
        if ArgumentOf(code, p, q) { StartsOrdered(code, 0, p, q); }
      }
    } else if q < |code| {
      var p := Enclosing(code, 0, q);
    }
  }

  lemma {:induction false} Enclosing(code: Code, s: nat, q: nat) returns (p: nat)
    requires s <= q < |code| && IsStart(code, s) && !StartsFrom(code, s, q)
    ensures p < q && ArgumentOf(code, p, q)
    decreases |code| - s
  {
    NextIsStart(code, s);
    if q < Next(code, s) { p := s; } else { p := Enclosing(code, Next(code, s), q); }
  }

  // ----- bits -----

  /** 0x80 >> k */
  function Mask(k: int): bv8
    requires 0 <= k < 8
  {
    if k == 0 then 0x80 else if k == 1 then 0x40 else if k == 2 then 0x20 else if k == 3 then 0x10
    else if k == 4 then 0x08 else if k == 5 then 0x04 else if k == 6 then 0x02 else 0x01
  }

  /** 0xFF >> k */
  function Low(k: int): bv8
    requires 0 <= k < 8
  {
    if k == 0 then 0xff else if k == 1 then 0x7f else if k == 2 then 0x3f else if k == 3 then 0x1f
    else if k == 4 then 0x0f else if k == 5 then 0x07 else if k == 6 then 0x03 else 0x01
  }

  predicate Bit(b: bv8, k: int)
    requires 0 <= k < 8
  {
    b & Mask(k) != 0
  }

  lemma SetMask(b: bv8, j: int, k: int)
    requires 0 <= j < 8 && 0 <= k < 8
    ensures Bit(b | Mask(j), k) == (Bit(b, k) || k == j)
  {
    if j == 0 {} else if j == 1 {} else if j == 2 {} else if j == 3 {}
    else if j == 4 {} else if j == 5 {} else if j == 6 {} else {}
  }

  lemma SetLow(b: bv8, j: int, k: int)
    requires 0 <= j < 8 && 0 <= k < 8
    ensures Bit(b | Low(j), k) == (Bit(b, k) || k >= j)
    ensures Bit(b | !Low(j), k) == (Bit(b, k) || k < j)
  {
    if j == 0 {} else if j == 1 {} else if j == 2 {} else if j == 3 {}
    else if j == 4 {} else if j == 5 {} else if j == 6 {} else {}
  }

  /** The bit of position `q`. */
  predicate BitAt(bits: seq<bv8>, q: int)
    requires 0 <= q < 8 * |bits|
  {
    Bit(bits[q / 8], q % 8)
  }

  method Or(bits: array<bv8>, i: nat, v: bv8)
    requires i < bits.Length
    modifies bits
    ensures bits[..] == old(bits[..])[i := old(bits[i]) | v]
  {
    bits[i] := bits[i] | v;
  }

  /** bitvec.set */
  method Set(bits: array<bv8>, pos: nat)
    requires pos < 8 * bits.Length
    modifies bits
    ensures forall q :: 0 <= q < 8 * bits.Length ==> BitAt(bits[..], q) == (old(BitAt(bits[..], q)) || q == pos)
  {
    var i, j := pos / 8, pos % 8;
    Or(bits, i, Mask(j));
    forall q | 0 <= q < 8 * bits.Length
      ensures BitAt(bits[..], q) == (old(BitAt(bits[..], q)) || q == pos)
    {
      if q / 8 == i { SetMask(old(bits[i]), j, q % 8); }
    }
  }

  /** bitvec.set8 */
  method Set8(bits: array<bv8>, pos: nat)
    requires pos + 8 < 8 * bits.Length
    modifies bits
    ensures forall q :: 0 <= q < 8 * bits.Length ==>
              BitAt(bits[..], q) == (old(BitAt(bits[..], q)) || pos <= q < pos + 8)
  {
    var i, j := pos / 8, pos % 8;
    ghost var s := bits[..];
    Or(bits, i, Low(j));
    Or(bits, i + 1, !Low(j));
    forall q | 0 <= q < 8 * bits.Length ensures BitAt(bits[..], q) == (BitAt(s, q) || pos <= q < pos + 8) {
      Set8Bit(s, pos, q);
    }
  }

  lemma Set8At(s: seq<bv8>, i: nat, j: nat, m: nat, n: nat)
    requires i + 1 < |s| && m < |s| && j < 8 && n < 8
    ensures Bit(s[i := s[i] | Low(j)][i + 1 := s[i + 1] | !Low(j)][m], n) ==
            (Bit(s[m], n) || 8 * i + j <= 8 * m + n < 8 * i + j + 8)
  {
    if m == i {
      SetLow(s[i], j, n);
    } else if m == i + 1 {
      SetLow(s[i + 1], j, n);
    }
  }

  lemma Set8Bit(s: seq<bv8>, pos: nat, q: nat)
    requires pos + 8 < 8 * |s| && q < 8 * |s|
    ensures var i, j := pos / 8, pos % 8;
            BitAt(s[i := s[i] | Low(j)][i + 1 := s[i + 1] | !Low(j)], q) == (BitAt(s, q) || pos <= q < pos + 8)
  {
    var i, j := pos / 8, pos % 8;
    Set8At(s, i, j, q / 8, q % 8);
  }

  /** A bit vector that marks exactly the push data of `code`. */
  ghost predicate Marks(bits: seq<bv8>, code: Code) {
    |bits| == |code| / 8 + 5 && forall q :: 0 <= q < 8 * |bits| ==> BitAt(bits, q) == IsData(code, q)
  }

  /** Inside the instruction at `p` the push data are its argument bytes. */
  lemma DataWithin(code: Code, p: nat, q: nat)
    requires p < |code| && IsStart(code, p) && p <= q < Next(code, p)
    ensures IsData(code, q) <==> p < q
  {
    if p < q {
      assert ArgumentOf(code, p, q);
    } else {
      StartXorData(code, q);
    }
  }

  /** Past the last instruction there is no push data beyond its own arguments. */
  lemma NoDataAfter(code: Code, pc: nat, q: nat)
    requires IsStart(code, pc) && |code| <= pc <= q
    ensures !IsData(code, q)
  {
    forall p | 0 <= p < q ensures !ArgumentOf(code, p, q) {
      if ArgumentOf(code, p, q) { StartsOrdered(code, 0, p, pc); }
    }
  }

  /** codeBitmap (core/vm/analysis.go:66) */
  method CodeBitmap(code: Code) returns (bits: array<bv8>)
    ensures fresh(bits) && Marks(bits[..], code)
  {
    bits := new bv8[|code| / 8 + 1 + 4](_ => 0);
    var pc := 0;
    while pc < |code|
      invariant 0 <= pc <= |code| + 32 && IsStart(code, pc)
      invariant forall q :: 0 <= q < 8 * bits.Length ==> BitAt(bits[..], q) == (q < pc && IsData(code, q))
      decreases |code| + 32 - pc
    {
      var op := code[pc];
      NextIsStart(code, pc);
      ghost var p, before := pc, bits[..];
      pc := pc + 1;
      if PUSH1 <= op <= PUSH32 {
        pc := MarkArgument(bits, pc, op - PUSH1 + 1);
      }
      forall q | 0 <= q < 8 * bits.Length ensures BitAt(bits[..], q) == (q < pc && IsData(code, q)) {
        if p <= q < pc { DataWithin(code, p, q); }
      }
    }
    forall q | 0 <= q < 8 * bits.Length ensures BitAt(bits[..], q) == IsData(code, q) {
      if pc <= q { NoDataAfter(code, pc, q); }
    }
  }

  /** The two inner loops: mark `n` positions from `start`. */
  method MarkArgument(bits: array<bv8>, start: nat, n: nat) returns (pc: nat)
    requires start + n < 8 * bits.Length
    modifies bits
    ensures pc == start + n
    ensures forall q :: 0 <= q < 8 * bits.Length ==>
              BitAt(bits[..], q) == (old(BitAt(bits[..], q)) || start <= q < start + n)
  {
    pc := start;
    var numbits := n;
    while numbits >= 8
      invariant pc + numbits == start + n && start <= pc
      invariant forall q :: 0 <= q < 8 * bits.Length ==>
                  BitAt(bits[..], q) == (old(BitAt(bits[..], q)) || start <= q < pc)
    {
      Set8(bits, pc);
      pc := pc + 8;
      numbits := numbits - 8;
    }
    while numbits > 0
      invariant pc + numbits == start + n && start <= pc
      invariant forall q :: 0 <= q < 8 * bits.Length ==>
                  BitAt(bits[..], q) == (old(BitAt(bits[..], q)) || start <= q < pc)
    {
      Set(bits, pc);
      pc := pc + 1;
      numbits := numbits - 1;
    }
  }

  // ----- allowed destinations -----

  /** The valid jump destinations from position `i` on, as section 9.4.3 of the Ethereum
      Yellow Paper defines them. */
  function ValidDestinations(code: Code, i: nat): set<nat>
    decreases |code| - i
  {
    if i >= |code| then {}
    else if code[i] == JUMPDEST then {i} + ValidDestinations(code, Next(code, i))
    else ValidDestinations(code, Next(code, i))
  }

  lemma {:induction false} DestinationIff(code: Code, i: nat, q: nat)
    ensures q in ValidDestinations(code, i) <==> q < |code| && code[q] == JUMPDEST && StartsFrom(code, i, q)
    decreases |code| - i
  {
    if i < |code| {
      DestinationIff(code, Next(code, i), q);
      if StartsFrom(code, i, q) { StartsLe(code, i, q); }
      if StartsFrom(code, Next(code, i), q) { StartsLe(code, Next(code, i), q); }
    }
  }

  /** destinations: bit vectors by code hash. The hash of a code is symbolic, so the code
      itself stands for it. The table is shared by a contract and the contracts it calls. */
  class Destinations {
    var analysed: map<Code, seq<bv8>>

    ghost predicate Valid()
      reads this
    {
      forall code :: code in analysed ==> Marks(analysed[code], code)
    }

    constructor ()
      ensures Valid()
    {
      analysed := map[];
    }

    /** destinations.has (core/vm/analysis.go:31) */
    method Has(code: Code, dest: nat) returns (ok: bool)
      requires Valid() && |code| < 0x4000_0000_0000_0000
      modifies this
      ensures Valid()
      ensures ok <==> dest in ValidDestinations(code, 0)
      ensures ok ==> dest < |code| && IsStart(code, dest) && code[dest] == JUMPDEST
    {
      DestinationIff(code, 0, dest);
      var udest := dest % 0x1_0000_0000_0000_0000;
      if dest >= 0x4000_0000_0000_0000 || udest >= |code| { return false; }
      if code !in analysed {
        var m := CodeBitmap(code);
        analysed := analysed[code := m[..]];
      }
      var bits := analysed[code];
      StartXorData(code, udest);
      ok := code[udest] == JUMPDEST && !BitAt(bits, udest);
    }
  }
}
