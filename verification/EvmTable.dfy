/** The instruction tables of core/vm/jump_table.go for the four rule sets, next to what
    the instructions of core/vm/instructions.go do with the stack and the memory. */
module EvmTable {
  import opened Basics
  import opened JumpDest

  /** Which protocol changes are active (params.Rules and the instruction set choice). */
  datatype Rules = Rules(homestead: bool, eip150: bool, eip158: bool, byzantium: bool, constantinople: bool)

  // gas prices, vendor/github.com/ethereum/go-ethereum/params
  const CALL_VALUE_TRANSFER_GAS := 9000
  const CALL_NEW_ACCOUNT_GAS := 25000
  const CALL_STIPEND := 2300
  const CREATE_GAS := 32000
  const CREATE_DATA_GAS := 200
  const STACK_LIMIT := 1024
  const CALL_CREATE_DEPTH := 1024
  const MAX_CODE_SIZE := 24576

  datatype GasTable = GasTable(extcodeSize: nat, extcodeCopy: nat, balance: nat, sload: nat, calls: nat,
                               suicide: nat, expByte: nat, createBySuicide: nat)

  function Prices(r: Rules): GasTable {
    if r.eip158 then GasTable(700, 700, 400, 200, 700, 5000, 50, 25000)
    else if r.eip150 then GasTable(700, 700, 400, 200, 700, 5000, 10, 25000)
    else GasTable(20, 20, 20, 50, 40, 0, 10, 0)
  }

  /** Bytes of memory an instruction needs; numbers are positions from the stack top. */
  datatype Region =
    | NoMemory
    | Fixed(offset: nat, length: nat)
    | Range(offset: nat, size: nat)
    | TwoRanges(offset: nat, size: nat, offset2: nat, size2: nat)

  datatype Gas =
    | Const(gas: nat)
    | MemoryPlus(gas: nat)
    | MemoryWords(gas: nat, back: nat, perWord: nat)
    | LogGas(topics: nat)
    | ExpGas
    | SStoreGas
    | SuicideGas
    | CallGas
    | CallCodeGas
    | DelegateGas

  /** The instructions, grouped by what they do with the stack. */
  datatype Exec =
    | OpStop
    | OpPopPeek       // pop one, overwrite the top: ADD SUB DIV LT GT SLT SGT EQ OR XOR BYTE SHL SHR
    | OpPop2Push      // MUL SDIV MOD SMOD EXP AND SAR
    | OpPop3Push      // ADDMOD MULMOD
    | OpSignExtend
    | OpPeek          // overwrite the top: NOT ISZERO BALANCE EXTCODESIZE
    | OpPushValue     // environment values, PC, MSIZE, GAS
    | OpPopPush       // CALLDATALOAD SLOAD
    | OpBlockhash
    | OpPop
    | OpSha3
    | OpCopy          // CALLDATACOPY CODECOPY
    | OpExtCodeCopy
    | OpReturnDataCopy
    | OpMload
    | OpMstore
    | OpMstore8
    | OpSstore
    | OpJump
    | OpJumpi
    | OpJumpdest
    | OpPush(n: nat)
    | OpDup(n: nat)
    | OpSwap(n: nat)
    | OpLog(n: nat)
    | OpCreate
    | OpCall
    | OpCallCode
    | OpDelegateCall
    | OpStaticCall
    | OpReturn
    | OpRevert
    | OpSuicide

  /** Items an instruction takes from the stack, or looks at. */
  function Takes(x: Exec): nat {
    match x
    case OpStop | OpPushValue | OpJumpdest | OpPush(_) => 0
    case OpPeek | OpPopPush | OpBlockhash | OpPop | OpMload | OpJump | OpSuicide => 1
    case OpPopPeek | OpPop2Push | OpSignExtend | OpSha3 | OpMstore | OpMstore8 | OpSstore | OpJumpi
       | OpReturn | OpRevert => 2
    case OpPop3Push | OpCopy | OpReturnDataCopy | OpCreate => 3
    case OpExtCodeCopy => 4
    case OpDelegateCall | OpStaticCall => 6
    case OpCall | OpCallCode => 7
    case OpDup(n) => n
    case OpSwap(n) => n + 1
    case OpLog(n) => n + 2
  }

  /** Items it leaves in their place. */
  function Leaves(x: Exec): nat {
    match x
    case OpStop | OpJumpdest | OpPop | OpJump | OpSuicide | OpMstore | OpMstore8 | OpSstore | OpJumpi
       | OpReturn | OpRevert | OpCopy | OpReturnDataCopy | OpExtCodeCopy | OpLog(_) => 0
    case OpPopPeek | OpPop2Push | OpPop3Push | OpSignExtend | OpPeek | OpPushValue | OpPopPush | OpBlockhash
       | OpSha3 | OpMload | OpPush(_) | OpCreate | OpCall | OpCallCode | OpDelegateCall | OpStaticCall => 1
    case OpDup(n) => n + 1
    case OpSwap(n) => n + 1
  }

  /** The memory it reads or writes. */
  function Touches(x: Exec): Region {
    match x
    case OpSha3 | OpReturn | OpRevert | OpLog(_) => Range(0, 1)
    case OpCopy | OpReturnDataCopy => Range(0, 2)
    case OpExtCodeCopy => Range(1, 3)
    case OpMload | OpMstore => Fixed(0, 32)
    case OpMstore8 => Fixed(0, 1)
    case OpCreate => Range(1, 2)
    case OpCall | OpCallCode => TwoRanges(5, 6, 3, 4)
    case OpDelegateCall | OpStaticCall => TwoRanges(4, 5, 2, 3)
    case _ => NoMemory
  }

  /** It changes the state when it runs, whatever its arguments. */
  predicate Modifies(x: Exec) {
    x.OpSstore? || x.OpLog? || x.OpCreate? || x.OpSuicide?
  }

  datatype Operation = Operation(exec: Exec, gas: Gas, pop: nat, push: nat, memory: Region,
                                 halts: bool, jumps: bool, writes: bool, reverts: bool, setsReturnData: bool)


  function Plain(exec: Exec, gas: nat, pop: nat, push: nat): Option<Operation> {
    Some(Operation(exec, Const(gas), pop, push, NoMemory, false, false, false, false, false))
  }

  function WithMemory(exec: Exec, gas: Gas, pop: nat, push: nat, memory: Region): Option<Operation> {
    Some(Operation(exec, gas, pop, push, memory, false, false, false, false, false))
  }

  function CallOp(exec: Exec, gas: Gas, pop: nat, memory: Region): Option<Operation> {
    Some(Operation(exec, gas, pop, 1, memory, false, false, false, false, true))
  }

  /** Arithmetic and comparison, 0x00 to 0x1d. */
  function Arithmetic(r: Rules, op: byte): Option<Operation> {
    if op == 0x00 then Some(Operation(OpStop, Const(0), 0, 0, NoMemory, true, false, false, false, false))
    else if op == 0x01 then Plain(OpPopPeek, 3, 2, 1)                    // ADD
    else if op == 0x02 then Plain(OpPop2Push, 5, 2, 1)                   // MUL
    else if op == 0x03 then Plain(OpPopPeek, 3, 2, 1)                    // SUB
    else if op == 0x04 then Plain(OpPopPeek, 5, 2, 1)                    // DIV
    else if 0x05 <= op <= 0x07 then Plain(OpPop2Push, 5, 2, 1)           // SDIV MOD SMOD
    else if 0x08 <= op <= 0x09 then Plain(OpPop3Push, 8, 3, 1)           // ADDMOD MULMOD
    else if op == 0x0a then
      Some(Operation(OpPop2Push, ExpGas, 2, 1, NoMemory, false, false, false, false, false))
    else if op == 0x0b then Plain(OpSignExtend, 5, 2, 1)
    else if 0x10 <= op <= 0x14 then Plain(OpPopPeek, 3, 2, 1)            // LT GT SLT SGT EQ
    else if op == 0x15 then Plain(OpPeek, 3, 1, 1)                       // ISZERO
    else if op == 0x16 then Plain(OpPop2Push, 3, 2, 1)                   // AND
    else if 0x17 <= op <= 0x18 then Plain(OpPopPeek, 3, 2, 1)            // OR XOR
    else if op == 0x19 then Plain(OpPeek, 3, 1, 1)                       // NOT
    else if op == 0x1a then Plain(OpPopPeek, 3, 2, 1)                    // BYTE
    else if 0x1b <= op <= 0x1c && r.constantinople then Plain(OpPopPeek, 3, 2, 1)   // SHL SHR
    else if op == 0x1d && r.constantinople then Plain(OpPop2Push, 3, 2, 1)          // SAR
    else None
  }

  /** Hashing, environment and block values, 0x20 to 0x45. */
  function Environment(r: Rules, op: byte): Option<Operation> {
    if op == 0x20 then WithMemory(OpSha3, MemoryWords(30, 1, 6), 2, 1, Range(0, 1))
    else if op == 0x31 then Plain(OpPeek, Prices(r).balance, 1, 1)       // BALANCE
    else if op == 0x35 then Plain(OpPopPush, 3, 1, 1)                    // CALLDATALOAD
    else if op == 0x37 || op == 0x39 then                                // CALLDATACOPY CODECOPY
      WithMemory(OpCopy, MemoryWords(3, 2, 3), 3, 0, Range(0, 2))
    else if op == 0x3b then Plain(OpPeek, Prices(r).extcodeSize, 1, 1)   // EXTCODESIZE
    else if op == 0x3c then
      WithMemory(OpExtCodeCopy, MemoryWords(Prices(r).extcodeCopy, 3, 3), 4, 0, Range(1, 3))
    else if op == 0x3d then                                              // RETURNDATASIZE
      if r.byzantium || r.constantinople then Plain(OpPushValue, 2, 0, 1) else None
    else if op == 0x3e then
      if r.byzantium || r.constantinople then
        WithMemory(OpReturnDataCopy, MemoryWords(3, 2, 3), 3, 0, Range(0, 2))
      else None
    else if 0x30 <= op <= 0x3a then Plain(OpPushValue, 2, 0, 1)          // ADDRESS .. GASPRICE
    else if op == 0x40 then Plain(OpBlockhash, 20, 1, 1)
    else if 0x41 <= op <= 0x45 then Plain(OpPushValue, 2, 0, 1)          // COINBASE .. GASLIMIT
    else None
  }

  /** Memory, storage and control flow, 0x50 to 0x5b. */
  function Control(r: Rules, op: byte): Option<Operation> {
    if op == 0x50 then Plain(OpPop, 2, 1, 0)
    else if op == 0x51 then WithMemory(OpMload, MemoryPlus(3), 1, 1, Fixed(0, 32))
    else if op == 0x52 then WithMemory(OpMstore, MemoryPlus(3), 2, 0, Fixed(0, 32))
    else if op == 0x53 then WithMemory(OpMstore8, MemoryPlus(3), 2, 0, Fixed(0, 1))
    else if op == 0x54 then Plain(OpPopPush, Prices(r).sload, 1, 1)      // SLOAD
    else if op == 0x55 then
      Some(Operation(OpSstore, SStoreGas, 2, 0, NoMemory, false, false, true, false, false))
    else if op == 0x56 then Some(Operation(OpJump, Const(8), 1, 0, NoMemory, false, true, false, false, false))
    else if op == 0x57 then Some(Operation(OpJumpi, Const(10), 2, 0, NoMemory, false, true, false, false, false))
    else if 0x58 <= op <= 0x5a then Plain(OpPushValue, 2, 0, 1)          // PC MSIZE GAS
    else if op == 0x5b then Plain(OpJumpdest, 1, 0, 0)
    else None
  }

  /** Logs and calls, 0xa0 to 0xff. */
  function Closure(r: Rules, op: byte): Option<Operation> {
    if 0xa0 <= op <= 0xa4 then
      Some(Operation(OpLog(op - 0xa0), LogGas(op - 0xa0), op - 0xa0 + 2, 0, Range(0, 1),
                     false, false, true, false, false))
    else if op == 0xf0 then
      Some(Operation(OpCreate, MemoryPlus(CREATE_GAS), 3, 1, Range(1, 2), false, false, true, false, true))
    else if op == 0xf1 then CallOp(OpCall, CallGas, 7, TwoRanges(5, 6, 3, 4))
    else if op == 0xf2 then CallOp(OpCallCode, CallCodeGas, 7, TwoRanges(5, 6, 3, 4))
    else if op == 0xf3 then
      Some(Operation(OpReturn, MemoryPlus(0), 2, 0, Range(0, 1), true, false, false, false, false))
    else if op == 0xf4 && (r.homestead || r.byzantium || r.constantinople) then
      CallOp(OpDelegateCall, DelegateGas, 6, TwoRanges(4, 5, 2, 3))
    else if op == 0xfa && (r.byzantium || r.constantinople) then
      CallOp(OpStaticCall, DelegateGas, 6, TwoRanges(4, 5, 2, 3))
    else if op == 0xfd && (r.byzantium || r.constantinople) then
      Some(Operation(OpRevert, MemoryPlus(0), 2, 0, Range(0, 1), false, false, false, true, true))
    else if op == 0xff then
      Some(Operation(OpSuicide, SuicideGas, 1, 0, NoMemory, true, false, true, false, false))
    else None
  }

  /** JumpTable[op] for the instruction set the rules select; None when it is not valid. */
  function JumpTable(r: Rules, op: byte): Option<Operation> {
    if op <= 0x1d then Arithmetic(r, op)
    else if op <= 0x45 then Environment(r, op)
    else if op <= 0x5b then Control(r, op)
    else if 0x60 <= op <= 0x7f then Plain(OpPush(op - 0x60 + 1), 3, 0, 1)
    else if 0x80 <= op <= 0x8f then Plain(OpDup(op - 0x80 + 1), 3, op - 0x80 + 1, op - 0x80 + 2)
    else if 0x90 <= op <= 0x9f then Plain(OpSwap(op - 0x90 + 1), 3, op - 0x90 + 2, op - 0x90 + 2)
    else Closure(r, op)
  }

  predicate Positive(g: Gas) {
    match g
    case Const(n) => n > 0
    case MemoryPlus(n) => n > 0
    case MemoryWords(n, _, _) => n > 0
    case SuicideGas => false
    case _ => true
  }

  /** The stack items a gas function or a memory size function looks at exist. */
  predicate LooksWithin(o: Operation) {
    && (o.gas.MemoryWords? ==> o.gas.back < o.pop)
    && (o.gas.LogGas? ==> 1 < o.pop)
    && (o.gas.ExpGas? ==> 1 < o.pop)
    && (o.gas.CallGas? || o.gas.CallCodeGas? ==> 2 < o.pop)
    && (o.gas.DelegateGas? ==> 1 < o.pop)
    && RegionWithin(o.memory, o.pop)
  }

  /** The gas functions that charge for memory. */
  predicate ChargesMemory(g: Gas) {
    !g.Const? && !g.ExpGas? && !g.SStoreGas? && !g.SuicideGas?
  }

  predicate RegionWithin(m: Region, n: nat) {
    match m
    case NoMemory => true
    case Fixed(off, _) => off < n
    case Range(off, size) => off < n && size < n
    case TwoRanges(off, size, off2, size2) => off < n && size < n && off2 < n && size2 < n
  }

  /** An entry declares the items its instruction takes and leaves and the memory it
      touches, its gas and memory functions look at items it takes, and whatever touches
      memory is charged for it. */
  predicate SoundStack(o: Operation) {
    && o.pop == Takes(o.exec) && o.push == Leaves(o.exec) && o.memory == Touches(o.exec)
    && LooksWithin(o)
    && (o.memory.NoMemory? <==> !ChargesMemory(o.gas))
  }

  /** Exactly the instructions that modify the state are marked so, exactly the jumps set
      the program counter, and every instruction that does not end the run costs gas. */
  predicate SoundFlow(o: Operation) {
    && o.writes == Modifies(o.exec)
    && o.jumps == (o.exec.OpJump? || o.exec.OpJumpi?)
    && (o.halts || o.reverts || Positive(o.gas))
    && (o.exec.OpReturn? || o.exec.OpRevert? || o.exec.OpStop? || o.exec.OpSuicide? <==> o.halts || o.reverts)
  }

  /** Pushes skip their argument, and the call instructions have their own gas functions. */
  predicate SoundKind(op: byte, o: Operation) {
    && PushBytes(op) == (if o.exec.OpPush? then o.exec.n else 0)
    && (o.exec.OpDup? ==> o.exec.n > 0) && (o.exec.OpSwap? ==> o.exec.n > 0)
    && (o.exec.OpCall? <==> op == 0xf1)
    && (o.exec.OpCall? <==> o.gas.CallGas?) && (o.exec.OpCallCode? <==> o.gas.CallCodeGas?)
    && (o.exec.OpDelegateCall? || o.exec.OpStaticCall? <==> o.gas.DelegateGas?)
    && (o.exec.OpCreate? ==> o.gas == MemoryPlus(CREATE_GAS))
    && (o.gas.Const? ==> o.gas.gas < 0x1_0000)
  }

  predicate Sound(op: byte, o: Operation) {
    SoundStack(o) && SoundFlow(o) && SoundKind(op, o)
  }

  /** Every entry of every instruction set is sound. */
  lemma TableSound(r: Rules, op: byte)
    ensures JumpTable(r, op).Some? ==> Sound(op, JumpTable(r, op).value)
  {
    if 0x00 <= op <= 0x02 { Sound00(r, op); }
    else if 0x03 <= op <= 0x05 { Sound03(r, op); }
    else if 0x06 <= op <= 0x0f { Sound06(r, op); }
    else if 0x10 <= op <= 0x13 { Sound10(r, op); }
    else if 0x14 <= op <= 0x17 { Sound14(r, op); }
    else if 0x18 <= op <= 0x1d { Sound18(r, op); }
    else if 0x1e <= op <= 0x33 { Sound1e(r, op); }
    else if 0x34 <= op <= 0x37 { Sound34(r, op); }
    else if 0x38 <= op <= 0x39 { Sound38(r, op); }
    else if 0x3a <= op <= 0x3b { Sound3a(r, op); }
    else if op == 0x3c { Sound3c(r, op); }
    else if 0x3d <= op <= 0x45 { Sound3d(r, op); }
    else if 0x46 <= op <= 0x51 { Sound46(r, op); }
    else if 0x52 <= op <= 0x54 { Sound52(r, op); }
    else if 0x55 <= op <= 0x57 { Sound55(r, op); }
    else if 0x58 <= op <= 0x5b { Sound58(r, op); }
    else if 0xa0 <= op <= 0xf0 { Sounda0(r, op); }
    else if 0xf1 <= op <= 0xf2 { Soundf1(r, op); }
    else if 0xf3 <= op <= 0xf4 { Soundf3(r, op); }
    else if 0xf5 <= op <= 0xff { Soundf5(r, op); }
  }

  lemma Sound00(r: Rules, op: byte)
    requires 0x00 <= op <= 0x02
    ensures Arithmetic(r, op).Some? ==> Sound(op, Arithmetic(r, op).value)
  {}

  lemma Sound03(r: Rules, op: byte)
    requires 0x03 <= op <= 0x05
    ensures Arithmetic(r, op).Some? ==> Sound(op, Arithmetic(r, op).value)
  {}

  lemma Sound06(r: Rules, op: byte)
    requires 0x06 <= op <= 0x0f
    ensures Arithmetic(r, op).Some? ==> Sound(op, Arithmetic(r, op).value)
  {}

  lemma Sound10(r: Rules, op: byte)
    requires 0x10 <= op <= 0x13
    ensures Arithmetic(r, op).Some? ==> Sound(op, Arithmetic(r, op).value)
  {}

  lemma Sound14(r: Rules, op: byte)
    requires 0x14 <= op <= 0x17
    ensures Arithmetic(r, op).Some? ==> Sound(op, Arithmetic(r, op).value)
  {}

  lemma Sound18(r: Rules, op: byte)
    requires 0x18 <= op <= 0x1d
    ensures Arithmetic(r, op).Some? ==> Sound(op, Arithmetic(r, op).value)
  {}

  lemma Sound1e(r: Rules, op: byte)
    requires 0x1e <= op <= 0x33
    ensures Environment(r, op).Some? ==> Sound(op, Environment(r, op).value)
  {}

  lemma Sound34(r: Rules, op: byte)
    requires 0x34 <= op <= 0x37
    ensures Environment(r, op).Some? ==> Sound(op, Environment(r, op).value)
  {}

  lemma Sound38(r: Rules, op: byte)
    requires 0x38 <= op <= 0x39
    ensures Environment(r, op).Some? ==> Sound(op, Environment(r, op).value)
  {}

  lemma Sound3a(r: Rules, op: byte)
    requires 0x3a <= op <= 0x3b
    ensures Environment(r, op).Some? ==> Sound(op, Environment(r, op).value)
  {}

  lemma Sound3c(r: Rules, op: byte)
    requires op == 0x3c
    ensures Environment(r, op).Some? ==> Sound(op, Environment(r, op).value)
  {}

  lemma Sound3d(r: Rules, op: byte)
    requires 0x3d <= op <= 0x45
    ensures Environment(r, op).Some? ==> Sound(op, Environment(r, op).value)
  {}

  lemma Sound46(r: Rules, op: byte)
    requires 0x46 <= op <= 0x51
    ensures Control(r, op).Some? ==> Sound(op, Control(r, op).value)
  {}

  lemma Sound52(r: Rules, op: byte)
    requires 0x52 <= op <= 0x54
    ensures Control(r, op).Some? ==> Sound(op, Control(r, op).value)
  {}

  lemma Sound55(r: Rules, op: byte)
    requires 0x55 <= op <= 0x57
    ensures Control(r, op).Some? ==> Sound(op, Control(r, op).value)
  {}

  lemma Sound58(r: Rules, op: byte)
    requires 0x58 <= op <= 0x5b
    ensures Control(r, op).Some? ==> Sound(op, Control(r, op).value)
  {}

  lemma Sounda0(r: Rules, op: byte)
    requires 0xa0 <= op <= 0xf0
    ensures Closure(r, op).Some? ==> Sound(op, Closure(r, op).value)
  {}

  lemma Soundf1(r: Rules, op: byte)
    requires 0xf1 <= op <= 0xf2
    ensures Closure(r, op).Some? ==> Sound(op, Closure(r, op).value)
  {}

  lemma Soundf3(r: Rules, op: byte)
    requires 0xf3 <= op <= 0xf4
    ensures Closure(r, op).Some? ==> Sound(op, Closure(r, op).value)
  {}

  lemma Soundf5(r: Rules, op: byte)
    requires 0xf5 <= op <= 0xff
    ensures Closure(r, op).Some? ==> Sound(op, Closure(r, op).value)
  {}
}
