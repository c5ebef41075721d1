/** The interpreter (core/vm/interpreter.go, core/vm/evm.go, core/vm/instructions.go): whole
    runs of a contract together with every call and creation nested in them.

    The account state is not modelled: every answer it gives (a code, a balance check, a
    storage value) is arbitrary, and so is every value an instruction computes. What is
    proved holds for all of them. */
module Evm {
  import opened Basics
  import opened JumpDest
  import opened EvmTable
  import opened EvmMemory

  const MAX_CODE: int := 0x4000_0000_0000_0000

  datatype Error = Nil | ExecutionReverted | CodeStoreOutOfGas | Failed

  class Stack {
    var data: seq<nat>
    constructor ()
      ensures data == []
    {
      data := [];
    }
    method Push(v: nat)
      modifies this
      ensures data == old(data) + [v]
    {
      data := data + [v];
    }
    method Pop() returns (v: nat)
      requires data != []
      modifies this
      ensures old(data) == data + [v]
    {
      v := data[|data| - 1];
      data := data[..|data| - 1];
    }
    /** The in-place update of the item `peek` returns. */
    method SetTop(v: nat)
      requires data != []
      modifies this
      ensures data == old(data)[|old(data)| - 1 := v]
    {
      data := data[|data| - 1 := v];
    }
    function Back(n: nat): nat
      requires n < |data|
      reads this
    {
      data[|data| - n - 1]
    }
    method Swap(n: nat)
      requires 0 < n <= |data|
      modifies this
      ensures |data| == |old(data)| && data[|data| - 1] == old(data)[|old(data)| - n]
      ensures data[|data| - n] == old(data)[|old(data)| - 1]
      ensures forall i :: 0 <= i < |data| - 1 && i != |data| - n ==> data[i] == old(data)[i]
    {
      data := data[|data| - n := data[|data| - 1]][|data| - 1 := data[|data| - n]];
    }
    method Dup(n: nat)
      requires 0 < n <= |data|
      modifies this
      ensures data == old(data) + [old(data)[|old(data)| - n]]
    {
      data := data + [data[|data| - n]];
    }
  }

  class Contract {
    var gas: nat
    const code: Code
    const jumpdests: Destinations
    constructor (code: Code, jumpdests: Destinations, gas: nat)
      ensures this.code == code && this.jumpdests == jumpdests && this.gas == gas
    {
      this.code, this.jumpdests, this.gas := code, jumpdests, gas;
    }
    function GetOp(n: nat): byte {
      if n < |code| then code[n] else 0
    }
    method UseGas(amount: nat) returns (ok: bool)
      modifies this
      ensures ok == (amount <= old(gas)) && gas == old(gas) - (if ok then amount else 0)
    {
      if gas < amount { return false; }
      gas := gas - amount;
      return true;
    }
    /** contract.Gas += returnGas, which never wraps. */
    method AddGas(returned: nat)
      requires gas + returned < W64
      modifies this
      ensures gas == old(gas) + returned
    {
      gas := (gas + returned) % W64;
    }
  }

  // ----- memory an operation asks for -----

  function CalcMemSize(off: nat, len: nat): nat { if len == 0 then 0 else off + len }

  function Max(a: nat, b: nat): nat { if a < b then b else a }

  /** core/vm/memory_table.go */
  function MemorySize(m: Region, s: seq<nat>): nat
    requires RegionWithin(m, |s|)
  {
    match m
    case NoMemory => 0
    case Fixed(off, len) => CalcMemSize(Item(s, off), len)
    case Range(off, size) => CalcMemSize(Item(s, off), Item(s, size))
    case TwoRanges(off, size, off2, size2) =>
      Max(CalcMemSize(Item(s, off), Item(s, size)), CalcMemSize(Item(s, off2), Item(s, size2)))
  }

  function Item(s: seq<nat>, n: nat): nat
    requires n < |s|
  {
    s[|s| - n - 1]
  }

  /** The stack with its top item and the one `n` below exchanged. */
  function Swapped(s: seq<nat>, n: nat): seq<nat>
    requires n < |s|
  {
    s[|s| - 1 := Item(s, n)][|s| - 1 - n := Item(s, 0)]
  }

  // ----- gas forwarded to a call -----

  /** callGas (core/vm/gas.go:42): None when the request does not fit in 64 bits. The
      subtraction of the base cost is unchecked. */
  function CallGasFor(r: Rules, available: nat, base: nat, requested: nat): Option<nat>
    requires available < W64 && base < W64
  {
    var left := (available - base) % W64;
    var cap := left - left / 64;
    if Prices(r).createBySuicide > 0 && (requested >= W64 || cap < requested) then Some(cap)
    else if requested >= W64 then None
    else Some(requested)
  }

  /** When the charge for a call succeeds, the call receives at most what it requested and,
      with EIP-150, at most 63/64 of what is left after the base cost: the unchecked
      subtraction never lets a charge through that the contract cannot pay. */
  lemma CallGasSafe(r: Rules, available: nat, base: nat, requested: nat)
    requires available < W64 && base < W64 && CallGasFor(r, available, base, requested).Some?
    requires base + CallGasFor(r, available, base, requested).value <= available
    ensures var g := CallGasFor(r, available, base, requested).value;
            && g <= requested && base <= available
            && (r.eip150 || r.eip158 ==> g <= (available - base) - (available - base) / 64)
  {
    assert (available - base) % W64 == available - base;
  }

  // ----- gas of an operation -----

  function ByteLen(v: nat): nat { if v == 0 then 0 else 1 + ByteLen(v / 256) }

  /** What is recorded of a run: each instruction fetched, with the stack height, the memory size
      and the memory fees charged in its frame, and each EVM.Call with what decides its fate. */
  datatype Event =
    | Fetched(code: Code, pc: nat, stack: nat, memory: nat, charged: int)
    | Called(value: nat, depth: nat, canTransfer: bool, exists_: bool, precompiled: bool)

  /** Below the end of the code only instructions are fetched, never push data; the stack is
      within its limit, and the fees charged are the fee of the memory exactly below 2^32 words. */
  ghost predicate SafeEvent(e: Event) {
    e.Fetched? ==>
      && (e.pc < |e.code| ==> IsStart(e.code, e.pc))
      && e.stack <= STACK_LIMIT
      && e.memory % 32 == 0 && (e.charged == Fee(e.memory / 32) <==> e.memory / 32 < 0x1_0000_0000)
  }

  class EVM {
    const rules: Rules
    const noRecursion: bool
    var depth: nat
    var callGasTemp: nat
    var readOnly: bool
    var returnData: seq<byte>
    ghost var stateWrites: nat    // storage writes, logs, creations, self-destructs, value transfers
    ghost var trace: seq<Event>   // what happened so far, in all frames

    constructor (rules: Rules, noRecursion: bool)
      ensures this.rules == rules && this.noRecursion == noRecursion
      ensures depth == 0 && !readOnly && trace == [] && stateWrites == 0
    {
      this.rules, this.noRecursion := rules, noRecursion;
      depth, callGasTemp, readOnly, returnData, stateWrites, trace := 0, 0, false, [], 0, [];
    }

    ghost predicate Safe()
      reads this`trace
    {
      forall i :: 0 <= i < |trace| ==> SafeEvent(trace[i])
    }

    /** A call to a missing account that makes the account: it passes the checks on recursion,
        depth and balance, and is not the empty call to an ordinary address that EIP-158 skips. */
    ghost predicate Creates(e: Event) {
      && e.Called? && !(noRecursion && e.depth > 0) && e.depth <= CALL_CREATE_DEPTH && e.canTransfer
      && !e.exists_ && (e.precompiled || !rules.eip158 || e.value != 0)
    }

    ghost function Creations(t: seq<Event>): nat {
      if t == [] then 0 else Creations(t[..|t| - 1]) + if Creates(t[|t| - 1]) then 1 else 0
    }

    lemma CreationsLast(t: seq<Event>, e: Event)
      ensures Creations(t + [e]) == Creations(t) + if Creates(e) then 1 else 0
    {
      assert (t + [e])[..|t|] == t;
    }

    /** Later events create accounts exactly if one of them does. */
    lemma {:induction false} CreationsGrow(t: seq<Event>, t': seq<Event>)
      requires t <= t'
      ensures Creations(t) <= Creations(t')
      ensures Creations(t) < Creations(t') <==> exists i :: |t| <= i < |t'| && Creates(t'[i])
      decreases |t'|
    {
      if |t| < |t'| {
        CreationsGrow(t, t'[..|t'| - 1]);
        assert forall i :: |t| <= i < |t'| - 1 ==> t'[..|t'| - 1][i] == t'[i];
      } else {
        assert t == t';
      }
    }

    /** Since `trace0` and `writes0` the state was written only by calls that created accounts,
        once for each, and no call had a value. */
    ghost predicate Quiet(trace0: seq<Event>, writes0: nat)
      reads this`trace, this`stateWrites
    {
      && trace0 <= trace
      && stateWrites - Creations(trace) == writes0 - Creations(trace0)
      && forall i :: |trace0| <= i < |trace| && trace[i].Called? ==> trace[i].value == 0
    }

    /** What every part of a run keeps: nothing recorded is lost, and a read-only frame is quiet. */
    ghost predicate Grown(trace0: seq<Event>, writes0: nat)
      reads this`trace, this`stateWrites, this`readOnly
    {
      && trace0 <= trace && writes0 <= stateWrites
      && (rules.byzantium && readOnly ==> Quiet(trace0, writes0))
    }

    /** Event `i` is an EVM.Call with this value at this depth. */
    ghost predicate IsCall(i: nat, value: nat, depth: nat)
      reads this`trace
    {
      i < |trace| && trace[i].Called? && trace[i].value == value && trace[i].depth == depth
    }

    /** Some call since `from` created an account. */
    ghost predicate CreatedSince(from: nat)
      reads this`trace
    {
      exists i :: from <= i < |trace| && Creates(trace[i])
    }

    lemma QuietIff(trace0: seq<Event>, writes0: nat)
      requires Quiet(trace0, writes0)
      ensures stateWrites != writes0 <==> CreatedSince(|trace0|)
    {
      CreationsGrow(trace0, trace);
    }

    /** The gas functions of core/vm/gas_table.go. */
    method GasCost(o: Operation, available: nat, stack: Stack, mem: Memory, memorySize: nat)
      returns (gas: nat, ok: bool)
      requires available < W64 && memorySize < W64 && mem.Valid() && LooksWithin(o) && o.pop <= |stack.data|
      requires o.gas.Const? ==> o.gas.gas < W64
      modifies this`callGasTemp, mem`lastGasCost, mem`words, mem`charged, mem`wraps
      ensures mem.Paid() && (ok ==> gas < W64)
      ensures ok && Positive(o.gas) ==> gas > 0
      ensures if ok && ChargesMemory(o.gas)
              then memorySize <= 32 * mem.words && (mem.words == old(mem.words) || mem.words == ToWordSize(memorySize))
              else ok ==> mem.words == old(mem.words)
      ensures ok && (o.gas.CallGas? || o.gas.CallCodeGas?) ==>
                callGasTemp + Prices(rules).calls + (if stack.Back(2) != 0 then CALL_VALUE_TRANSFER_GAS else 0) <= gas
      ensures ok && o.gas.DelegateGas? ==> callGasTemp + Prices(rules).calls <= gas
      ensures ok && (o.gas.CallGas? || o.gas.CallCodeGas? || o.gas.DelegateGas?) && gas <= available ==>
                callGasTemp <= gas && Forwards(rules, available, gas - callGasTemp, callGasTemp)
    {
      match o.gas
      case Const(c) => return c, true;
      case ExpGas => gas, ok := Sum(ByteLen(stack.Back(1)) * Prices(rules).expByte % W64, 10);
      case SStoreGas => var fresh_: bool := *; return if fresh_ then 20000 else 5000, true;
      case SuicideGas =>
        var creates: bool := *;
        if !rules.eip150 { return 0, true; }
        return Prices(rules).suicide + (if creates then Prices(rules).createBySuicide else 0), true;
      case MemoryPlus(_) => gas, ok := MemoryCost(o.gas, stack, mem, memorySize);
      case MemoryWords(_, _, _) => gas, ok := MemoryCost(o.gas, stack, mem, memorySize);
      case LogGas(_) => gas, ok := MemoryCost(o.gas, stack, mem, memorySize);
      case CallGas => gas, ok := CallCost(true, available, stack, mem, memorySize);
      case CallCodeGas => gas, ok := CallCost(false, available, stack, mem, memorySize);
      case DelegateGas => gas, ok := DelegateCost(available, stack, mem, memorySize);
    }

    /** Memory and a price that depends on at most one size on the stack. */
    static method MemoryCost(g: Gas, stack: Stack, mem: Memory, memorySize: nat) returns (gas: nat, ok: bool)
      requires g.MemoryPlus? || g.MemoryWords? || g.LogGas?
      requires memorySize < W64 && mem.Valid()
      requires (g.MemoryWords? ==> g.back < |stack.data|) && (g.LogGas? ==> 1 < |stack.data|)
      modifies mem`lastGasCost, mem`words, mem`charged, mem`wraps
      ensures mem.Paid() && (ok ==> gas < W64) && (ok && Positive(g) ==> gas > 0)
      ensures ok ==> memorySize <= 32 * mem.words
      ensures ok ==> mem.words == old(mem.words) || mem.words == ToWordSize(memorySize)
    {
      if g.LogGas? && stack.Back(1) >= W64 { return 0, false; }
      gas, ok := mem.GasCost(memorySize);
      if !ok { return; }
      match g
      case MemoryPlus(c) => gas, ok := Sum(gas, c);
      case MemoryWords(c, back, perWord) => gas, ok := AddWords(gas, c, stack.Back(back), perWord);
      case LogGas(topics) => gas, ok := AddLog(gas, topics, stack.Back(1));
    }

    /** gasDelegateCall and gasStaticCall. */
    method DelegateCost(available: nat, stack: Stack, mem: Memory, memorySize: nat) returns (gas: nat, ok: bool)
      requires available < W64 && memorySize < W64 && mem.Valid() && 1 <= |stack.data|
      modifies this`callGasTemp, mem`lastGasCost, mem`words, mem`charged, mem`wraps
      ensures mem.Paid() && (ok ==> gas < W64)
      ensures ok ==> memorySize <= 32 * mem.words
      ensures ok ==> mem.words == old(mem.words) || mem.words == ToWordSize(memorySize)
      ensures ok ==> callGasTemp + Prices(rules).calls <= gas
      ensures ok && gas <= available ==>
                callGasTemp <= gas && Forwards(rules, available, gas - callGasTemp, callGasTemp)
    {
      gas, ok := mem.GasCost(memorySize);
      if ok { gas, ok := Sum(gas, Prices(rules).calls); }
      if ok { gas, ok := AddForwarded(gas, available, stack.Back(0)); }
    }

    static method Sum(x: nat, y: nat) returns (gas: nat, ok: bool)
      ensures ok == (x + y < W64) && (ok ==> gas == x + y)
    {
      return (x + y) % W64, x + y < W64;
    }

    static method AddWords(gas: nat, c: nat, size: nat, perWord: nat) returns (total: nat, ok: bool)
      ensures ok ==> gas + c <= total < W64
    {
      total, ok := Sum(gas, c);
      if !ok || size >= W64 { return 0, false; }
      var words := ToWordSize(size) * perWord;
      if words >= W64 { return 0, false; }
      total, ok := Sum(total, words);
    }

    static method AddLog(gas: nat, topics: nat, size: nat) returns (total: nat, ok: bool)
      ensures ok ==> gas + 375 <= total < W64
    {
      total, ok := Sum(gas, 375);
      if ok { total, ok := Sum(total, topics * 375); }
      if !ok || size * 8 >= W64 { return 0, false; }
      total, ok := Sum(total, size * 8);
    }

    /** gasCall and gasCallCode. */
    method CallCost(createsAccount: bool, available: nat, stack: Stack, mem: Memory, memorySize: nat)
      returns (gas: nat, ok: bool)
      requires available < W64 && memorySize < W64 && mem.Valid() && 3 <= |stack.data|
      modifies this`callGasTemp, mem`lastGasCost, mem`words, mem`charged, mem`wraps
      ensures mem.Paid() && (ok ==> gas < W64)
      ensures ok ==> memorySize <= 32 * mem.words
      ensures ok ==> mem.words == old(mem.words) || mem.words == ToWordSize(memorySize)
      ensures ok ==>
                callGasTemp + Prices(rules).calls + (if stack.Back(2) != 0 then CALL_VALUE_TRANSFER_GAS else 0) <= gas
      ensures ok && gas <= available ==>
                callGasTemp <= gas && Forwards(rules, available, gas - callGasTemp, callGasTemp)
    {
      gas := Prices(rules).calls;
      var isNew: bool := *;
      if createsAccount && isNew { gas := gas + CALL_NEW_ACCOUNT_GAS; }
      if stack.Back(2) != 0 { gas := gas + CALL_VALUE_TRANSFER_GAS; }
      var memoryGas, fits := mem.GasCost(memorySize);
      if !fits { return 0, false; }
      gas, ok := Sum(gas, memoryGas);
      if ok { gas, ok := AddForwarded(gas, available, stack.Back(0)); }
    }

    /** The end of every call cost: set callGasTemp and add it. */
    method AddForwarded(base: nat, available: nat, requested: nat) returns (gas: nat, ok: bool)
      requires base < W64 && available < W64
      modifies this`callGasTemp
      ensures ok ==> gas == base + callGasTemp && gas < W64
      ensures ok && gas <= available ==> Forwards(rules, available, base, callGasTemp)
    {
      var g := CallGasFor(rules, available, base, requested);
      if g.None? { return 0, false; }
      callGasTemp := g.value;
      if base + g.value <= available { CallGasSafe(rules, available, base, requested); }
      gas, ok := Sum(base, callGasTemp);
    }

    // ----- execution -----

    /** Instructions that only work on the stack; the values they compute are arbitrary. */
    static method ExecStack(x: Exec, stack: Stack) returns (err: Error)
      requires StackOnly(x) && Takes(x) <= |stack.data|
      modifies stack
      ensures err == Nil ==> |stack.data| + Takes(x) == |old(stack.data)| + Leaves(x)
      ensures err == Nil ==> var rest := |old(stack.data)| - Takes(x); stack.data[..rest] == old(stack.data)[..rest]
      ensures x.OpDup? ==> stack.data == old(stack.data) + [old(stack.Back(x.n - 1))]
      ensures x.OpSwap? ==> stack.data == Swapped(old(stack.data), x.n)
    {
      err := Nil;
      var v: nat := *;
      match x
      case OpStop | OpJumpdest =>
      case OpPopPeek => var _ := stack.Pop(); stack.SetTop(v);
      case OpPop2Push => var _ := stack.Pop(); var _ := stack.Pop(); stack.Push(v);
      case OpPop3Push => var _ := stack.Pop(); var _ := stack.Pop(); var _ := stack.Pop(); stack.Push(v);
      case OpSignExtend =>
        var back := stack.Pop();
        if back < 31 { var _ := stack.Pop(); stack.Push(v); }
      case OpPeek => stack.SetTop(v);
      case OpPushValue | OpPush(_) => stack.Push(v);
      case OpPopPush => var _ := stack.Pop(); stack.Push(v);
      case OpBlockhash =>
        var _ := stack.Pop();
        var known: bool := *;
        if !known { return Failed; }
        stack.Push(v);
      case OpPop => var _ := stack.Pop();
      case OpDup(n) => stack.Dup(n);
      case OpSwap(n) => stack.Swap(n + 1);
    }

    /** Instructions that read or write memory. */
    static method ExecMemory(x: Exec, stack: Stack, mem: Memory, returnData: seq<byte>)
      returns (res: seq<byte>, err: Error)
      requires MemoryOnly(x) && Takes(x) <= |stack.data|
      requires MemorySize(Touches(x), stack.data) <= |mem.store| <= MAX_MEMORY
      modifies stack, mem`store
      ensures err == Nil ==> |stack.data| + Takes(x) == |old(stack.data)| + Leaves(x)
      ensures |mem.store| == |old(mem.store)|
    {
      res, err := [], Nil;
      var v: nat := *;
      var bytes: seq<byte> := *;
      match x
      case OpSha3 =>
        var offset, size := Pop2(stack);
        var _ := ReadRange(mem, offset, size);
        stack.Push(v);
      case OpReturn | OpRevert =>
        var offset, size := Pop2(stack);
        res := ReadRange(mem, offset, size);
      case OpMload =>
        var offset := stack.Pop();
        var _ := ReadRange(mem, offset, 32);
        stack.Push(v);
      case OpMstore =>
        var mStart, _ := Pop2(stack);
        WriteRange(mem, mStart, 32, bytes);
      case OpMstore8 =>
        var off, val := Pop2(stack);
        SmallInt64(off);
        mem.store := mem.store[Int64(off) := val % 256];
      case OpCopy =>
        var memOffset, _, length := Pop3(stack);
        WriteRange(mem, memOffset, length, bytes);
      case OpExtCodeCopy =>
        var _ := stack.Pop();
        var memOffset, _, length := Pop3(stack);
        WriteRange(mem, memOffset, length, bytes);
      case OpReturnDataCopy =>
        var memOffset, dataOffset, length := Pop3(stack);
        var end := dataOffset + length;
        if end >= W64 || |returnData| < end { return [], Failed; }
        WriteRange(mem, memOffset, length, returnData[dataOffset..end]);
      case OpLog(n) =>
        var mStart, mSize := Pop2(stack);
        for i := 0 to n
          modifies stack
          invariant |stack.data| == |old(stack.data)| - 2 - i
        {
          var _ := stack.Pop();
        }
        var _ := ReadRange(mem, mStart, mSize);
    }

    static method Pop2(stack: Stack) returns (x: nat, y: nat)
      requires 2 <= |stack.data|
      modifies stack
      ensures x == old(stack.Back(0)) && y == old(stack.Back(1)) && stack.data == old(stack.data[..|stack.data| - 2])
    {
      x := stack.Pop();
      y := stack.Pop();
    }

    static method Pop3(stack: Stack) returns (x: nat, y: nat, z: nat)
      requires 3 <= |stack.data|
      modifies stack
      ensures x == old(stack.Back(0)) && y == old(stack.Back(1)) && z == old(stack.Back(2))
      ensures stack.data == old(stack.data[..|stack.data| - 3])
    {
      x := stack.Pop();
      y := stack.Pop();
      z := stack.Pop();
    }

    /** memory.Get(offset.Int64(), size.Int64()) */
    static method ReadRange(mem: Memory, offset: nat, size: nat) returns (data: seq<byte>)
      requires CalcMemSize(offset, size) <= |mem.store| <= MAX_MEMORY
      ensures data == if size == 0 then [] else mem.store[offset..offset + size]
    {
      SmallInt64(size);
      if size > 0 { SmallInt64(offset); }
      data := mem.Get(Int64(offset), Int64(size));
    }

    /** memory.Set(offset.Uint64(), size.Uint64(), value) */
    static method WriteRange(mem: Memory, offset: nat, size: nat, value: seq<byte>)
      requires CalcMemSize(offset, size) <= |mem.store| <= MAX_MEMORY
      modifies mem`store
      ensures |mem.store| == |old(mem.store)|
    {
      mem.Set(offset % W64, size % W64, value);
    }

    /** opJump and opJumpi: the destination must be a valid one. */
    static method ExecJump(x: Exec, contract: Contract, stack: Stack, pc: nat) returns (pc': nat, err: Error)
      requires (x.OpJump? || x.OpJumpi?) && Takes(x) <= |stack.data|
      requires contract.jumpdests.Valid() && |contract.code| < MAX_CODE
      modifies stack, contract.jumpdests
      ensures contract.jumpdests.Valid()
      ensures |stack.data| + Takes(x) == |old(stack.data)|
      ensures err == Nil ==> pc' in ValidDestinations(contract.code, 0) || (x.OpJumpi? && pc' == pc + 1)
      ensures err == Nil && !(x.OpJumpi? && pc' == pc + 1) ==> IsStart(contract.code, pc')
    {
      pc', err := pc, Nil;
      var pos := stack.Pop();
      if x.OpJumpi? {
        var cond := stack.Pop();
        if cond == 0 { return pc + 1, Nil; }
      }
      var ok := contract.jumpdests.Has(contract.code, pos);
      if !ok { return pc, Failed; }
      pc' := pos % W64;
    }

    /** opCall, opCallCode, opDelegateCall and opStaticCall. `start` is the gas before the
        charge for this instruction and `budget` bounds the gas of this frame. */
    method ExecCall(x: Exec, contract: Contract, stack: Stack, mem: Memory, ghost start: nat, ghost budget: nat)
      returns (res: seq<byte>)
      requires IsCallKind(x)
      requires Takes(x) <= |stack.data| && MemorySize(Touches(x), stack.data) <= |mem.store| <= MAX_MEMORY
      requires contract.gas + callGasTemp + CallFee(x, stack.data) < start <= budget && start < W64
      requires Safe() && contract.jumpdests.Valid()
      requires rules.byzantium && readOnly && x.OpCall? ==> stack.Back(2) == 0
      modifies this, contract, contract.jumpdests, stack, mem`store
      ensures |stack.data| + Takes(x) == |old(stack.data)| + Leaves(x) && |mem.store| == |old(mem.store)|
      ensures contract.gas < start
      ensures x.OpCall? ==> IsCall(|old(trace)|, old(stack.Back(2)), old(depth))
      ensures Safe() && contract.jumpdests.Valid() && readOnly == old(readOnly) && depth == old(depth)
      ensures Grown(old(trace), old(stateWrites))
      decreases budget, 1
    {
      var gas := callGasTemp;
      var value, inOffset, inSize, retOffset, retSize := PopCall(x, stack);
      var args := ReadRange(mem, inOffset, inSize);
      if value != 0 { gas := gas + CALL_STIPEND; }
      var returnGas, err;
      res, returnGas, err := DoCall(x, contract.jumpdests, gas, value);
      Returned(contract, stack, mem, retOffset, retSize, res, returnGas, err);
    }

    /** What a call leaves behind: a flag on the stack, its output in memory, and its gas. */
    static method Returned(contract: Contract, stack: Stack, mem: Memory, retOffset: nat, retSize: nat,
                           ret: seq<byte>, returnGas: nat, err: Error)
      requires CalcMemSize(retOffset, retSize) <= |mem.store| <= MAX_MEMORY && contract.gas + returnGas < W64
      modifies contract, stack, mem`store
      ensures stack.data == old(stack.data) + [if err == Nil then 1 else 0]
      ensures |mem.store| == |old(mem.store)| && contract.gas == old(contract.gas) + returnGas
    {
      stack.Push(if err == Nil then 1 else 0);
      if err == Nil || err == ExecutionReverted { WriteRange(mem, retOffset, retSize, ret); }
      contract.AddGas(returnGas);
    }

    /** The call parameters; the gas on the stack was already used to set callGasTemp. */
    static method PopCall(x: Exec, stack: Stack)
      returns (value: nat, inOffset: nat, inSize: nat, retOffset: nat, retSize: nat)
      requires IsCallKind(x)
      requires Takes(x) <= |stack.data|
      modifies stack
      ensures |stack.data| == |old(stack.data)| - Takes(x)
      ensures value == if x.OpCall? || x.OpCallCode? then old(stack.Back(2)) else 0
      ensures var m := MemorySize(Touches(x), old(stack.data));
              CalcMemSize(inOffset, inSize) <= m && CalcMemSize(retOffset, retSize) <= m
    {
      ghost var s, k := stack.data, if x.OpCall? || x.OpCallCode? then 3 else 2;
      var _, _ := Pop2(stack);
      value := 0;
      if x.OpCall? || x.OpCallCode? { value := stack.Pop(); }
      inOffset, inSize := Pop2(stack);
      retOffset, retSize := Pop2(stack);
      assert inOffset == Item(s, k) && inSize == Item(s, k + 1);
      assert retOffset == Item(s, k + 2) && retSize == Item(s, k + 3);
    }

    method DoCall(x: Exec, dests: Destinations, gas: nat, value: nat)
      returns (ret: seq<byte>, leftOver: nat, err: Error)
      requires IsCallKind(x)
      requires gas < W64 && Safe() && dests.Valid()
      requires rules.byzantium && readOnly && x.OpCall? ==> value == 0
      modifies this, dests
      ensures leftOver <= gas
      ensures Safe() && dests.Valid() && readOnly == old(readOnly) && depth == old(depth)
      ensures Grown(old(trace), old(stateWrites))
      ensures x.OpCall? ==> IsCall(|old(trace)|, value, old(depth))
      decreases gas, 10
    {
      match x
      case OpCall => ret, leftOver, err := Call(dests, gas, value);
      case OpCallCode => ret, leftOver, err := CallCode(dests, gas, value);
      case OpDelegateCall => ret, leftOver, err := DelegateCall(dests, gas);
      case OpStaticCall => ret, leftOver, err := StaticCall(dests, gas);
    }

    /** EVM.Call (core/vm/evm.go:139), for whatever the state database answers. */
    method Call(dests: Destinations, gas: nat, value: nat) returns (ret: seq<byte>, leftOver: nat, err: Error)
      requires gas < W64 && Safe() && dests.Valid()
      modifies this, dests
      ensures leftOver <= gas
      ensures Safe() && dests.Valid() && readOnly == old(readOnly) && depth == old(depth)
      ensures old(trace) < trace && old(stateWrites) <= stateWrites
      ensures value == 0 ==> Grown(old(trace), old(stateWrites))
      ensures IsCall(|old(trace)|, value, old(depth))
      decreases gas, 9
    {
      var canTransfer: bool, exists_: bool, precompiled: bool := *, *, *;
      ret, leftOver, err := CallAnswered(dests, gas, value, canTransfer, exists_, precompiled);
    }

    /** ... for given answers: whether the caller has the value, whether the account exists, and
        whether the address is a precompiled contract. */
    method CallAnswered(dests: Destinations, gas: nat, value: nat, canTransfer: bool, exists_: bool, precompiled: bool)
      returns (ret: seq<byte>, leftOver: nat, err: Error)
      requires gas < W64 && Safe() && dests.Valid()
      modifies this, dests
      ensures leftOver <= gas
      ensures Safe() && dests.Valid() && readOnly == old(readOnly) && depth == old(depth)
      ensures old(trace) < trace && old(stateWrites) <= stateWrites
      ensures value == 0 ==> Grown(old(trace), old(stateWrites))
      ensures trace[|old(trace)|] == Called(value, old(depth), canTransfer, exists_, precompiled)
      ensures Creates(trace[|old(trace)|]) ==> stateWrites > old(stateWrites)
      decreases gas, 8
    {
      ghost var e := Called(value, depth, canTransfer, exists_, precompiled);
      CreationsLast(trace, e);
      trace := trace + [e];
      if noRecursion && depth > 0 { return [], gas, Nil; }
      if depth > CALL_CREATE_DEPTH { return [], gas, Failed; }
      if !canTransfer { return [], gas, Failed; }
      if !exists_ {
        if !precompiled && rules.eip158 && value == 0 { return [], gas, Nil; }
        stateWrites := stateWrites + 1;
      }
      if value != 0 { stateWrites := stateWrites + 1; }
      ret, leftOver, err := RunCode(dests, gas, precompiled);
    }

    method CallCode(dests: Destinations, gas: nat, value: nat) returns (ret: seq<byte>, leftOver: nat, err: Error)
      requires gas < W64 && Safe() && dests.Valid()
      modifies this, dests
      ensures leftOver <= gas
      ensures Safe() && dests.Valid() && readOnly == old(readOnly) && depth == old(depth)
      ensures Grown(old(trace), old(stateWrites))
      decreases gas, 8
    {
      if noRecursion && depth > 0 { return [], gas, Nil; }
      if depth > CALL_CREATE_DEPTH { return [], gas, Failed; }
      var canTransfer: bool, precompiled: bool := *, *;
      if !canTransfer { return [], gas, Failed; }
      ret, leftOver, err := RunCode(dests, gas, precompiled);
    }

    method DelegateCall(dests: Destinations, gas: nat) returns (ret: seq<byte>, leftOver: nat, err: Error)
      requires gas < W64 && Safe() && dests.Valid()
      modifies this, dests
      ensures leftOver <= gas
      ensures Safe() && dests.Valid() && readOnly == old(readOnly) && depth == old(depth)
      ensures Grown(old(trace), old(stateWrites))
      decreases gas, 8
    {
      if noRecursion && depth > 0 { return [], gas, Nil; }
      if depth > CALL_CREATE_DEPTH { return [], gas, Failed; }
      var precompiled: bool := *;
      ret, leftOver, err := RunCode(dests, gas, precompiled);
    }

    /** EVM.StaticCall (core/vm/evm.go:276): below it the state is written if and only if some call
        makes a missing account. */
    method StaticCall(dests: Destinations, gas: nat) returns (ret: seq<byte>, leftOver: nat, err: Error)
      requires gas < W64 && Safe() && dests.Valid()
      modifies this, dests
      ensures leftOver <= gas
      ensures Safe() && dests.Valid() && readOnly == old(readOnly) && depth == old(depth)
      ensures Grown(old(trace), old(stateWrites)) && (rules.byzantium ==> Quiet(old(trace), old(stateWrites)))
      ensures rules.byzantium ==> (stateWrites != old(stateWrites) <==> CreatedSince(|old(trace)|))
      decreases gas, 8
    {
      if noRecursion && depth > 0 { return [], gas, Nil; }
      if depth > CALL_CREATE_DEPTH { return [], gas, Failed; }
      var wasReadOnly := readOnly;
      readOnly := true;
      var precompiled: bool := *;
      ret, leftOver, err := RunCode(dests, gas, precompiled);
      readOnly := wasReadOnly;
      if rules.byzantium { QuietIff(old(trace), old(stateWrites)); }
    }

    /** What the four calls share (core/vm/evm.go:170-195): run the code stored at the
        address, or a precompiled contract; an error other than a revert consumes all gas. */
    method RunCode(dests: Destinations, gas: nat, precompiled: bool)
      returns (ret: seq<byte>, leftOver: nat, err: Error)
      requires gas < W64 && Safe() && dests.Valid()
      modifies this, dests
      ensures leftOver <= gas
      ensures Safe() && dests.Valid() && readOnly == old(readOnly) && depth == old(depth)
      ensures Grown(old(trace), old(stateWrites))
      decreases gas, 7
    {
      var code: Code :| |code| < MAX_CODE;
      var contract := new Contract(code, dests, gas);
      ret, err := RunContract(contract, precompiled);
      if err != Nil && err != ExecutionReverted { var _ := contract.UseGas(contract.gas); }
      leftOver := contract.gas;
    }

    /** run (core/vm/evm.go:42) */
    method RunContract(contract: Contract, precompiled: bool) returns (ret: seq<byte>, err: Error)
      requires contract.gas < W64 && |contract.code| < MAX_CODE && Safe() && contract.jumpdests.Valid()
      modifies this, contract, contract.jumpdests
      ensures contract.gas <= old(contract.gas)
      ensures Safe() && contract.jumpdests.Valid() && readOnly == old(readOnly) && depth == old(depth)
      ensures Grown(old(trace), old(stateWrites))
      decreases contract.gas, 6
    {
      if precompiled {
        var required: nat, output: seq<byte>, fails: bool := *, *, *;
        var ok := contract.UseGas(required);
        if !ok || fails { return [], Failed; }
        return output, Nil;
      }
      ret, err := Run(contract);
    }

    /** opCreate */
    method ExecCreate(contract: Contract, stack: Stack, mem: Memory, ghost start: nat, ghost budget: nat)
      returns (res: seq<byte>)
      requires 3 <= |stack.data| && MemorySize(Touches(OpCreate), stack.data) <= |mem.store| <= MAX_MEMORY
      requires contract.gas < start <= budget && start < W64
      requires Safe() && contract.jumpdests.Valid() && (rules.byzantium ==> !readOnly)
      modifies this, contract, contract.jumpdests, stack
      ensures |stack.data| == |old(stack.data)| - 2 && contract.gas < start
      ensures Safe() && contract.jumpdests.Valid() && readOnly == old(readOnly) && depth == old(depth)
      ensures Grown(old(trace), old(stateWrites))
      decreases budget, 1
    {
      var value, offset, size := Pop3(stack);
      var input := ReadRange(mem, offset, size);
      var gas := contract.gas;
      if rules.eip150 { gas := gas - gas / 64; }
      var _ := contract.UseGas(gas);
      var ret, returnGas, err := Create(contract.jumpdests, input, gas);
      var addr: nat := *;
      if (rules.homestead && err == CodeStoreOutOfGas) || (err != Nil && err != CodeStoreOutOfGas) {
        stack.Push(0);
      } else {
        stack.Push(addr);
      }
      contract.AddGas(returnGas);
      res := if err == ExecutionReverted then ret else [];
    }

    /** EVM.Create (core/vm/evm.go:316) */
    method Create(dests: Destinations, code: Code, gas: nat) returns (ret: seq<byte>, leftOver: nat, err: Error)
      requires gas < W64 && |code| < MAX_CODE && Safe() && dests.Valid() && (rules.byzantium ==> !readOnly)
      modifies this, dests
      ensures leftOver <= gas
      ensures Safe() && dests.Valid() && readOnly == old(readOnly) && depth == old(depth)
      ensures Grown(old(trace), old(stateWrites))
      decreases gas, 8
    {
      if depth > CALL_CREATE_DEPTH { return [], gas, Failed; }
      var canTransfer: bool, collides: bool, precompiled: bool := *, *, *;
      if !canTransfer { return [], gas, Failed; }
      stateWrites := stateWrites + 1;
      if collides { return [], 0, Failed; }
      var contract := new Contract(code, dests, gas);
      if noRecursion && depth > 0 { return [], gas, Nil; }
      ret, err := RunContract(contract, precompiled);
      var tooBig := rules.eip158 && |ret| > MAX_CODE_SIZE;
      if err == Nil && !tooBig {
        var paid := contract.UseGas(|ret| * CREATE_DATA_GAS % W64);
        if !paid { err := CodeStoreOutOfGas; }
      }
      if tooBig || (err != Nil && (rules.homestead || err != CodeStoreOutOfGas)) {
        if err != ExecutionReverted { var _ := contract.UseGas(contract.gas); }
      }
      if tooBig && err == Nil { err := Failed; }
      leftOver := contract.gas;
    }

    /** Interpreter.Run (core/vm/interpreter.go:105): terminates for every code, because each
        instruction that does not end the run costs gas and nested frames return no more
        than they were given. The abort flag may be set at any time. */
    method Run(contract: Contract) returns (ret: seq<byte>, err: Error)
      requires contract.gas < W64 && |contract.code| < MAX_CODE && Safe() && contract.jumpdests.Valid()
      modifies this, contract, contract.jumpdests
      ensures contract.gas <= old(contract.gas)
      ensures Safe() && contract.jumpdests.Valid() && readOnly == old(readOnly) && depth == old(depth)
      ensures Grown(old(trace), old(stateWrites))
      ensures rules.byzantium && readOnly ==> (stateWrites != old(stateWrites) <==> CreatedSince(|old(trace)|))
      ensures |trace| > |old(trace)| ==> trace[|old(trace)|] == Fetched(contract.code, 0, 0, 0, 0)
      decreases contract.gas, 5
    {
      depth := depth + 1;
      returnData := [];
      if |contract.code| == 0 {
        depth := depth - 1;
        QuietIff(trace, stateWrites);
        return [], Nil;
      }
      var mem := new Memory();
      var stack := new Stack();
      var pc, done := 0, false;
      ret, err := [], Nil;
      ghost var budget := contract.gas;
      var aborted: bool := *;
      while !done && !aborted
        invariant contract.gas <= budget && Safe() && contract.jumpdests.Valid()
        invariant readOnly == old(readOnly) && depth == old(depth) + 1
        invariant Grown(old(trace), old(stateWrites))
        invariant if |trace| == |old(trace)| then pc == 0 && |stack.data| == |mem.store| == mem.charged == 0
                  else trace[|old(trace)|] == Fetched(contract.code, 0, 0, 0, 0)
        invariant !done ==> IsStart(contract.code, pc) && |stack.data| <= STACK_LIMIT && mem.Valid()
        decreases contract.gas, if done then 0 else 1
      {
        done, ret, err, pc := Step(contract, stack, mem, pc, budget);
        aborted := *;
      }
      if !done { ret, err := [], Nil; }
      depth := depth - 1;
      if rules.byzantium && readOnly { QuietIff(old(trace), old(stateWrites)); }
    }

    /** Price the operation, take the gas and grow the memory. */
    method Charge(o: Operation, contract: Contract, stack: Stack, mem: Memory, words: nat) returns (paid: bool)
      requires mem.Valid() && contract.gas < W64 && words * 32 < W64
      requires SoundStack(o) && (o.gas.Const? ==> o.gas.gas < W64) && o.pop <= |stack.data|
      requires o.memory.NoMemory? ==> words == 0
      modifies this`callGasTemp, contract, mem
      ensures contract.gas <= old(contract.gas)
      ensures paid ==> mem.Valid() && words * 32 <= |mem.store| <= MAX_MEMORY
      ensures paid && Positive(o.gas) ==> contract.gas < old(contract.gas)
      ensures paid && (o.gas.CallGas? || o.gas.CallCodeGas?) ==>
                contract.gas + callGasTemp + (if stack.Back(2) != 0 then CALL_VALUE_TRANSFER_GAS else 0)
                < old(contract.gas)
      ensures paid && o.gas.DelegateGas? ==> contract.gas + callGasTemp < old(contract.gas)
    {
      var memorySize := words * 32;
      WholeWords(words);
      var cost, ok := GasCost(o, contract.gas, stack, mem, memorySize);
      if !ok { return false; }
      paid := contract.UseGas(cost);
      if paid && memorySize > 0 { mem.Resize(memorySize); }
    }

    /** One instruction, after it was paid for. */
    method Execute(x: Exec, contract: Contract, stack: Stack, mem: Memory, pc: nat, ghost start: nat, ghost budget: nat)
      returns (res: seq<byte>, err: Error, pc': nat)
      requires Takes(x) <= |stack.data| && MemorySize(Touches(x), stack.data) <= |mem.store| <= MAX_MEMORY
      requires (x.OpDup? ==> x.n > 0) && (x.OpSwap? ==> x.n > 0)
      requires contract.gas <= start <= budget && start < W64 && |contract.code| < MAX_CODE
      requires Safe() && contract.jumpdests.Valid()
      requires IsCallKind(x) ==>
                 contract.gas + callGasTemp + CallFee(x, stack.data) < start
      requires x.OpCreate? ==> contract.gas < start
      requires rules.byzantium && readOnly ==> !Modifies(x) && (x.OpCall? ==> stack.Back(2) == 0)
      modifies this, contract, contract.jumpdests, stack, mem`store
      ensures err == Nil ==> |stack.data| + Takes(x) == |old(stack.data)| + Leaves(x)
      ensures |mem.store| == |old(mem.store)|
      ensures contract.gas <= start && (old(contract.gas) < start ==> contract.gas < start)
      ensures Safe() && contract.jumpdests.Valid() && readOnly == old(readOnly) && depth == old(depth)
      ensures Grown(old(trace), old(stateWrites))
      ensures err == Nil ==> if x.OpJump? || x.OpJumpi? then pc' == pc + 1 || IsStart(contract.code, pc')
                             else pc' == pc + (if x.OpPush? then x.n else 0)
      ensures err == Nil && x.OpJump? ==> IsStart(contract.code, pc')
      ensures x.OpCall? ==> IsCall(|old(trace)|, old(stack.Back(2)), old(depth))
      decreases budget, 2
    {
      res, err, pc' := [], Nil, pc;
      if StackOnly(x) {
        err := ExecStack(x, stack);
        if x.OpPush? { pc' := pc + x.n; }
      } else if MemoryOnly(x) {
        if x.OpLog? { stateWrites := stateWrites + 1; }
        res, err := ExecMemory(x, stack, mem, returnData);
      } else if x.OpJump? || x.OpJumpi? {
        pc', err := ExecJump(x, contract, stack, pc);
      } else if x.OpSstore? {
        var _, _ := Pop2(stack);
        stateWrites := stateWrites + 1;
      } else if x.OpSuicide? {
        var _ := stack.Pop();
        stateWrites := stateWrites + 1;
      } else if x.OpCreate? {
        res := ExecCreate(contract, stack, mem, start, budget);
      } else {
        res := ExecCall(x, contract, stack, mem, start, budget);
      }
    }

    ghost method Record(e: Event)
      requires Safe() && e.Fetched? && SafeEvent(e)
      modifies this`trace
      ensures trace == old(trace) + [e] && Safe() && Grown(old(trace), stateWrites)
    {
      CreationsLast(trace, e);
      trace := trace + [e];
    }

    /** One pass of the interpreter loop (core/vm/interpreter.go:151-224). */
    method Step(contract: Contract, stack: Stack, mem: Memory, pc: nat, ghost budget: nat)
      returns (done: bool, ret: seq<byte>, err: Error, pc': nat)
      requires contract.gas <= budget < W64 && |contract.code| < MAX_CODE && Safe() && contract.jumpdests.Valid()
      requires IsStart(contract.code, pc) && |stack.data| <= STACK_LIMIT && mem.Valid()
      modifies this, contract, contract.jumpdests, stack, mem
      ensures if done then contract.gas <= old(contract.gas) else contract.gas < old(contract.gas)
      ensures Safe() && contract.jumpdests.Valid() && readOnly == old(readOnly) && depth == old(depth)
      ensures Grown(old(trace), old(stateWrites))
      ensures !done ==> IsStart(contract.code, pc') && |stack.data| <= STACK_LIMIT && mem.Valid()
      ensures |trace| > |old(trace)| &&
              trace[|old(trace)|] == Fetched(contract.code, pc, |old(stack.data)|, |old(mem.store)|, old(mem.charged))
      ensures !done && contract.GetOp(pc) == 0xf1 ==>
                |old(stack.data)| > 2 && IsCall(|old(trace)| + 1, old(stack.Back(2)), old(depth))
      decreases budget, 4
    {
      Record(Fetched(contract.code, pc, |stack.data|, |mem.store|, mem.charged));
      var op := contract.GetOp(pc);
      var entry := JumpTable(rules, op);
      if entry.None? { return true, [], Failed, pc; }
      TableSound(rules, op);
      if pc < |contract.code| { NextIsStart(contract.code, pc); }
      done, ret, err, pc' := Perform(op, entry.value, contract, stack, mem, pc, budget);
      assert pc >= |contract.code| ==> done;
    }

    /** The checks before an operation is charged (core/vm/interpreter.go:164-187): the stack, the
        restrictions of a read-only frame, and the memory size in words. */
    method Check(op: byte, o: Operation, stack: Stack) returns (ok: bool, words: nat)
      requires Sound(op, o)
      ensures ok <==> o.pop <= |stack.data| && |stack.data| + o.push - o.pop <= STACK_LIMIT &&
                      (rules.byzantium && readOnly ==> !o.writes && (op == 0xf1 ==> stack.Back(2) == 0)) &&
                      MemorySize(o.memory, stack.data) <= W64 - 32
      ensures ok ==> MemorySize(o.memory, stack.data) <= words * 32 < W64 && (o.memory.NoMemory? ==> words == 0)
    {
      if |stack.data| < o.pop || |stack.data| + o.push - o.pop > STACK_LIMIT { return false, 0; }
      if rules.byzantium && readOnly && (o.writes || (op == 0xf1 && stack.Back(2) != 0)) { return false, 0; }
      var memSize := MemorySize(o.memory, stack.data);
      if memSize >= W64 || ToWordSize(memSize) * 32 >= W64 { return false, 0; }
      WordSizeCovers(memSize);
      return true, ToWordSize(memSize);
    }

    /** The checks and the charge: afterwards the operation can be executed. */
    method Prepare(op: byte, o: Operation, contract: Contract, stack: Stack, mem: Memory) returns (paid: bool)
      requires Sound(op, o) && contract.gas < W64 && mem.Valid()
      modifies this`callGasTemp, contract, mem
      ensures contract.gas <= old(contract.gas)
      ensures paid ==> o.pop <= |stack.data| && |stack.data| + o.push - o.pop <= STACK_LIMIT && mem.Valid()
      ensures paid ==> MemorySize(Touches(o.exec), stack.data) <= |mem.store| <= MAX_MEMORY
      ensures paid && !(o.halts || o.reverts) ==> contract.gas < old(contract.gas)
      ensures paid && IsCallKind(o.exec) ==>
                contract.gas + callGasTemp + CallFee(o.exec, stack.data) < old(contract.gas)
      ensures paid && rules.byzantium && readOnly ==> !Modifies(o.exec) && (o.exec.OpCall? ==> stack.Back(2) == 0)
    {
      var words;
      paid, words := Check(op, o, stack);
      if paid { paid := Charge(o, contract, stack, mem, words); }
    }

    /** The checks of the loop, the charge and the execution of one operation. */
    method Perform(op: byte, o: Operation, contract: Contract, stack: Stack, mem: Memory, pc: nat, ghost budget: nat)
      returns (done: bool, ret: seq<byte>, err: Error, pc': nat)
      requires Sound(op, o)
      requires contract.gas <= budget < W64 && |contract.code| < MAX_CODE && Safe() && contract.jumpdests.Valid()
      requires |stack.data| <= STACK_LIMIT && mem.Valid()
      modifies this, contract, contract.jumpdests, stack, mem
      ensures if done then contract.gas <= old(contract.gas) else contract.gas < old(contract.gas)
      ensures Safe() && contract.jumpdests.Valid() && readOnly == old(readOnly) && depth == old(depth)
      ensures Grown(old(trace), old(stateWrites))
      ensures !done ==> |stack.data| <= STACK_LIMIT && mem.Valid() && !o.halts
      ensures !done ==> pc' == pc + 1 + PushBytes(op) || IsStart(contract.code, pc')
      ensures !done && op == 0xf1 ==> |old(stack.data)| > 2 && IsCall(|old(trace)|, old(stack.Back(2)), old(depth))
      decreases budget, 3
    {
      var paid := Prepare(op, o, contract, stack, mem);
      if !paid { return true, [], Failed, pc; }
      var res;
      res, err, pc' := Execute(o.exec, contract, stack, mem, pc, old(contract.gas), budget);
      done, ret, err, pc' := Conclude(o, res, err, pc');
    }

    /** Whether the run goes on after an operation, and where (core/vm/interpreter.go:209-223). */
    method Conclude(o: Operation, res: seq<byte>, e: Error, pc: nat)
      returns (done: bool, ret: seq<byte>, err: Error, pc': nat)
      modifies this`returnData
      ensures done <==> e != Nil || o.reverts || o.halts
      ensures !done ==> err == Nil && pc' == if o.jumps then pc else pc + 1
    {
      done, ret, err, pc' := true, [], e, pc;
      if o.setsReturnData { returnData := res; }
      if e == Nil {
        if o.reverts { ret, err := res, ExecutionReverted; }
        else if o.halts { ret := res; }
        else {
          done := false;
          if !o.jumps { pc' := pc + 1; }
        }
      }
    }
  }

  /** The writes of read-only frames are real: in the frame of a static call, under Byzantium and
      EIP-158, a CALL of the precompiled contract 1 without value passes the checks, and if there is
      no account at that address, it makes one. */
  method ReadOnlyWrites(dests: Destinations) returns (evm: EVM, allowed: bool)
    requires dests.Valid()
    modifies dests
    ensures evm.rules.byzantium && evm.rules.eip158 && evm.readOnly && allowed && evm.stateWrites > 0
  {
    var rules := Rules(true, true, true, true, false);
    evm := new EVM(rules, false);
    evm.readOnly, evm.depth := true, 1;
    var stack := new Stack();
    stack.data := [0, 0, 0, 0, 0, 1, 3000];
    TableSound(rules, 0xf1);
    var words;
    allowed, words := evm.Check(0xf1, JumpTable(rules, 0xf1).value, stack);
    var _, _, _ := evm.CallAnswered(dests, 3000, stack.Back(2), true, false, true);
  }

  /** What a value transfer adds to the price of a call. */
  function CallFee(x: Exec, s: seq<nat>): nat {
    if (x.OpCall? || x.OpCallCode?) && 2 < |s| && Item(s, 2) != 0 then CALL_VALUE_TRANSFER_GAS else 0
  }

  predicate IsCallKind(x: Exec) {
    x.OpCall? || x.OpCallCode? || x.OpDelegateCall? || x.OpStaticCall?
  }

  predicate StackOnly(x: Exec) {
    match x
    case OpStop | OpJumpdest | OpPopPeek | OpPop2Push | OpPop3Push | OpSignExtend | OpPeek | OpPushValue
       | OpPush(_) | OpPopPush | OpBlockhash | OpPop => true
    case OpDup(n) => n > 0
    case OpSwap(n) => n > 0
    case _ => false
  }

  predicate MemoryOnly(x: Exec) {
    match x
    case OpSha3 | OpReturn | OpRevert | OpMload | OpMstore | OpMstore8 | OpCopy | OpExtCodeCopy
       | OpReturnDataCopy | OpLog(_) => true
    case _ => false
  }

  /** The low 64 bits as a signed number. */
  function Int64(v: nat): int {
    var low := v % W64;
    if low >= W64 / 2 then low - W64 else low
  }

  lemma SmallInt64(v: nat)
    requires v <= MAX_MEMORY
    ensures Int64(v) == v
  {}

  /** The share of gas a paid call may pass on. */
  predicate Forwards(r: Rules, available: nat, base: int, forwarded: nat) {
    0 <= base <= available && forwarded <= available - base &&
    (r.eip150 || r.eip158 ==> forwarded <= (available - base) - (available - base) / 64)
  }
}
