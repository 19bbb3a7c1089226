/** The Istanbul instruction table of core/evm/jump_table.go, with the stack bounds of
    core/evm/stack_table.go and the memory functions of core/evm/memory_table.go. */
module EvmTable {
  import opened Bytes
  import opened EvmContract
  import opened Wrappers
  import opened EvmMemory

  const STACK_LIMIT: nat := 1024

  /** Length of a memory range: a stack operand (counted from the top) or a constant. */
  datatype Len = Operand(i: nat) | Fixed(n: nat)

  datatype Range = Range(off: nat, len: Len)

  /** What a copy operation copies from. */
  datatype Source = CallData | OwnCode | OtherCode

  /** What an operation without operands reports about the frame. */
  datatype Observed = ProgramCounter | MemoryLen | GasLeft | CodeLen | InputLen | ReturnLen

  datatype Exec =
    | Compute | MLoad | CallDataLoad | Observe(what: Observed)
    | Halt | Return | Revert | Selfdestruct | Undefined
    | Jump | Jumpi | Push(n: nat) | Dup(n: nat) | Swap(n: nat)
    | Store(n: nat) | Copy(source: Source) | ReturnDataCopy | Sstore | Log
    | Call | CallCode | DelegateCall | StaticCall | Create | Create2

  /** The dynamic gas function. Words charges per word of a length operand. */
  datatype Dyn = NoDyn | MemoryOnly | Words(i: nat, perWord: nat) | LogGas(n: nat) | ExpGas | SstoreGas | CallGas | SelfdestructGas

  datatype Operation = Operation(gas: nat, pops: nat, pushes: nat, ranges: seq<Range>, dyn: Dyn, exec: Exec)

  function MinStack(o: Operation): nat {
    o.pops
  }

  function MaxStack(o: Operation): int {
    STACK_LIMIT + o.pops - o.pushes
  }

  function Simple(gas: nat, pops: nat, pushes: nat): Operation {
    Operation(gas, pops, pushes, [], NoDyn, Compute)
  }

  function Istanbul(op: byte): Operation {
    if op < 0x20 then Arithmetic(op)
    else if op < 0x50 then Environment(op)
    else if op < 0x60 then Flow(op)
    else if op < 0x80 then Operation(3, 0, 1, [], NoDyn, Push(op - 0x5f))
    else if op < 0x90 then Operation(3, op - 0x7f, op - 0x7e, [], NoDyn, Dup(op - 0x7f))
    else if op < 0xa0 then Operation(3, op - 0x8e, op - 0x8e, [], NoDyn, Swap(op - 0x8f))
    else if op < 0xa5 then Operation(0, op - 0x9e, 0, [Range(0, Operand(1))], LogGas(op - 0xa0), Log)
    else System(op)
  }

  function Undef(): Operation {
    Operation(0, 0, 0, [], NoDyn, Undefined)
  }

  function Arithmetic(op: byte): Operation {
    if op == 0x00 then Operation(0, 0, 0, [], NoDyn, Halt)
    else if op == 0x01 || op == 0x03 then Simple(3, 2, 1)
    else if op == 0x02 || 0x04 <= op <= 0x07 || op == 0x0b then Simple(5, 2, 1)
    else if op == 0x08 || op == 0x09 then Simple(8, 3, 1)
    else if op == 0x0a then Operation(0, 2, 1, [], ExpGas, Compute)
    else if 0x10 <= op <= 0x14 || 0x16 <= op <= 0x18 || 0x1a <= op <= 0x1d then Simple(3, 2, 1)
    else if op == 0x15 || op == 0x19 then Simple(3, 1, 1)
    else Undef()
  }

  function Environment(op: byte): Operation {
    if op == 0x20 then Operation(30, 2, 1, [Range(0, Operand(1))], Words(1, 6), Compute)
    else if op == 0x31 || op == 0x3b || op == 0x3f then Simple(700, 1, 1)
    else if op == 0x35 then Operation(3, 1, 1, [], NoDyn, CallDataLoad)
    else if op == 0x36 then Operation(2, 0, 1, [], NoDyn, Observe(InputLen))
    else if op == 0x38 then Operation(2, 0, 1, [], NoDyn, Observe(CodeLen))
    else if op == 0x3d then Operation(2, 0, 1, [], NoDyn, Observe(ReturnLen))
    else if op == 0x37 then Operation(3, 3, 0, [Range(0, Operand(2))], Words(2, 3), Copy(CallData))
    else if op == 0x39 then Operation(3, 3, 0, [Range(0, Operand(2))], Words(2, 3), Copy(OwnCode))
    else if op == 0x3c then Operation(700, 4, 0, [Range(1, Operand(3))], Words(3, 3), Copy(OtherCode))
    else if op == 0x3e then Operation(3, 3, 0, [Range(0, Operand(2))], Words(2, 3), ReturnDataCopy)
    else if 0x30 <= op <= 0x3d || 0x41 <= op <= 0x46 then Simple(2, 0, 1)
    else if op == 0x40 then Simple(20, 1, 1)
    else if op == 0x47 then Simple(5, 0, 1)
    else Undef()
  }

  function Flow(op: byte): Operation {
    if op == 0x50 then Simple(2, 1, 0)
    else if op == 0x51 then Operation(3, 1, 1, [Range(0, Fixed(32))], MemoryOnly, MLoad)
    else if op == 0x52 then Operation(3, 2, 0, [Range(0, Fixed(32))], MemoryOnly, Store(32))
    else if op == 0x53 then Operation(3, 2, 0, [Range(0, Fixed(1))], MemoryOnly, Store(1))
    else if op == 0x54 then Simple(800, 1, 1)
    else if op == 0x55 then Operation(0, 2, 0, [], SstoreGas, Sstore)
    else if op == 0x56 then Operation(8, 1, 0, [], NoDyn, Jump)
    else if op == 0x57 then Operation(10, 2, 0, [], NoDyn, Jumpi)
    else if op == 0x58 then Operation(2, 0, 1, [], NoDyn, Observe(ProgramCounter))
    else if op == 0x59 then Operation(2, 0, 1, [], NoDyn, Observe(MemoryLen))
    else if op == 0x5a then Operation(2, 0, 1, [], NoDyn, Observe(GasLeft))
    else if op == 0x5b then Simple(1, 0, 0)
    else Undef()
  }

  function System(op: byte): Operation {
    if op == 0xf0 then Operation(32000, 3, 1, [Range(1, Operand(2))], MemoryOnly, Create)
    else if op == 0xf1 then Operation(700, 7, 1, [Range(5, Operand(6)), Range(3, Operand(4))], CallGas, Call)
    else if op == 0xf2 then Operation(700, 7, 1, [Range(5, Operand(6)), Range(3, Operand(4))], CallGas, CallCode)
    else if op == 0xf3 then Operation(0, 2, 0, [Range(0, Operand(1))], MemoryOnly, Return)
    else if op == 0xf4 then Operation(700, 6, 1, [Range(4, Operand(5)), Range(2, Operand(3))], CallGas, DelegateCall)
    else if op == 0xf5 then Operation(32000, 4, 1, [Range(1, Operand(2))], Words(2, 6), Create2)
    else if op == 0xfa then Operation(700, 6, 1, [Range(4, Operand(5)), Range(2, Operand(3))], CallGas, StaticCall)
    else if op == 0xfd then Operation(0, 2, 0, [Range(0, Operand(1))], MemoryOnly, Revert)
    else if op == 0xff then Operation(0, 1, 0, [], SelfdestructGas, Selfdestruct)
    else Undef()
  }

  /** The operation ends the frame, one way or another. */
  predicate Ends(o: Operation) {
    o.exec.Halt? || o.exec.Return? || o.exec.Revert? || o.exec.Selfdestruct? || o.exec.Undefined?
  }

  predicate IsCall(o: Operation) {
    o.exec.Call? || o.exec.CallCode? || o.exec.DelegateCall? || o.exec.StaticCall?
  }

  /** Operand n of the stack, counted from the top. */
  function Back(stack: seq<Word>, n: nat): Word
    requires n < |stack|
  {
    stack[|stack| - 1 - n]
  }

  function LenOf(stack: seq<Word>, l: Len): (r: Word)
    requires l.Operand? ==> l.i < |stack|
    requires l.Fixed? ==> l.n <= 32
  {
    if l.Operand? then Back(stack, l.i) else l.n
  }

  predicate RangeOk(o: Operation, r: Range) {
    r.off < o.pops && (r.len.Operand? ==> r.len.i < o.pops) && (r.len.Fixed? ==> r.len.n <= 32)
  }

  /** What the interpreter relies on in every row: operands lie within what is popped,
      ranges come with dynamic gas, and every operation that does not end the frame
      costs at least 1 gas. */
  predicate WellFormed(o: Operation) {
    && o.gas <= 32000 && o.pops <= 17 && o.pushes <= 17
    && (forall r | r in o.ranges :: RangeOk(o, r))
    && |o.ranges| <= 2 && (o.ranges != [] ==> o.dyn != NoDyn)
    && (match o.dyn
        case Words(i, perWord) => i < o.pops && perWord <= 6 && |o.ranges| == 1 && o.ranges[0].len == Operand(i)
        case LogGas(n) => n <= 4 && o.pops == n + 2 && |o.ranges| == 1 && o.ranges[0].len == Operand(1)
        case ExpGas => o.pops == 2 && o.ranges == []
        case SstoreGas => o.pops == 2 && o.ranges == []
        case CallGas => IsCall(o) && o.pops >= 6 && o.gas == 700
        case SelfdestructGas => o.ranges == []
        case _ => true)
    && (IsCall(o) ==> o.dyn == CallGas && |o.ranges| == 2)
    && (!Ends(o) ==> o.gas > 0 || o.dyn.ExpGas? || o.dyn.LogGas? || o.dyn.SstoreGas?)
    && ExecOk(o)
  }

  predicate ExecOk(o: Operation) {
    match o.exec
    case Push(n) => 1 <= n <= 32 && o.pops == 0 && o.pushes == 1
    case Dup(n) => 1 <= n <= 16 && o.pops == n && o.pushes == n + 1
    case Swap(n) => 1 <= n <= 16 && o.pops == n + 1 == o.pushes
    case Jump => o.pops == 1 && o.pushes == 0
    case Jumpi => o.pops == 2 && o.pushes == 0
    case Store(n) => o.pops == 2 && o.pushes == 0 && o.ranges == [Range(0, Fixed(n))] && (n == 1 || n == 32)
    case Copy(_) => o.pushes == 0 && |o.ranges| == 1 && o.ranges[0].off + 2 < o.pops && o.ranges[0].len == Operand(o.ranges[0].off + 2)
    case ReturnDataCopy => o.pops == 3 && o.pushes == 0 && o.ranges == [Range(0, Operand(2))]
    case Sstore => o.pops == 2 && o.pushes == 0
    case Log => o.pushes == 0 && |o.ranges| == 1
    case Call => o.pops == 7 && o.pushes == 1
    case CallCode => o.pops == 7 && o.pushes == 1
    case DelegateCall => o.pops == 6 && o.pushes == 1
    case StaticCall => o.pops == 6 && o.pushes == 1
    case Create => o.pops == 3 && o.pushes == 1 && o.gas == 32000 && o.ranges == [Range(1, Operand(2))]
    case Create2 => o.pops == 4 && o.pushes == 1 && o.gas == 32000 && o.ranges == [Range(1, Operand(2))]
    case Return => |o.ranges| == 1
    case Revert => |o.ranges| == 1
    case Compute => o.pushes <= 1 && |o.ranges| <= 1
    case MLoad => o.pops == 1 == o.pushes && o.ranges == [Range(0, Fixed(32))]
    case CallDataLoad => o.pops == 1 == o.pushes
    case Observe(_) => o.pops == 0 && o.pushes == 1
    case _ => true
  }

  /** Every one of the 256 rows. */
  lemma IstanbulWellFormed(op: byte)
    ensures WellFormed(Istanbul(op))
    ensures Istanbul(op).exec.Push? <==> 0x60 <= op <= 0x7f
    ensures Istanbul(op).exec.Push? ==> Istanbul(op).exec.n == op - 0x5f
  {
    if op < 0x20 {
      ArithmeticRows(op);
    } else if op < 0x50 {
      EnvironmentRows(op);
    } else if op < 0x60 {
      FlowRows(op);
    } else if op >= 0xa5 {
      SystemRows(op);
    }
  }

  lemma ArithmeticRows(op: byte)
    ensures WellFormed(Arithmetic(op)) && !Arithmetic(op).exec.Push?
  {
  }

  lemma EnvironmentRows(op: byte)
    ensures WellFormed(Environment(op)) && !Environment(op).exec.Push?
  {
    if op in {0x20, 0x37, 0x39, 0x3c, 0x3e} {
      RangeRows(op);
    }
  }

  lemma RangeRows(op: byte)
    requires op in {0x20, 0x37, 0x39, 0x3c, 0x3e}
    ensures WellFormed(Environment(op)) && !Environment(op).exec.Push?
  {
  }

  lemma FlowRows(op: byte)
    ensures WellFormed(Flow(op)) && !Flow(op).exec.Push?
  {
    if 0x51 <= op <= 0x53 {
      MemoryRows(op);
    }
  }

  lemma MemoryRows(op: byte)
    requires 0x51 <= op <= 0x53
    ensures WellFormed(Flow(op)) && !Flow(op).exec.Push?
  {
  }

  lemma SystemRows(op: byte)
    ensures WellFormed(System(op)) && !System(op).exec.Push?
  {
    if op == 0xf1 || op == 0xf2 || op == 0xf4 || op == 0xfa {
      CallRows(op);
    }
  }

  lemma CallRows(op: byte)
    requires op == 0xf1 || op == 0xf2 || op == 0xf4 || op == 0xfa
    ensures WellFormed(System(op)) && !System(op).exec.Push?
  {
  }

  /** memorySize: the largest end of the operation's ranges. */
  function MemSize(ranges: seq<Range>, stack: seq<Word>): (r: Option<u64>)
    requires forall g | g in ranges :: g.off < |stack| && (g.len.Operand? ==> g.len.i < |stack|) && (g.len.Fixed? ==> g.len.n <= 32)
    ensures r.Some? ==> forall g | g in ranges :: EndsBy(g, stack, r.value)
  {
    if ranges == [] then Some(0)
    else
      var g := ranges[0];
      var x, y := CalcMemSize(Back(stack, g.off), LenOf(stack, g.len)), MemSize(ranges[1..], stack);
      assert forall h | h in ranges :: h == g || h in ranges[1..];
      if x.None? || y.None? then None else Some(if x.value > y.value then x.value else y.value)
  }

  /** A non-empty range ends at most at end. */
  ghost predicate EndsBy(g: Range, stack: seq<Word>, end: nat)
    requires g.off < |stack| && (g.len.Operand? ==> g.len.i < |stack|) && (g.len.Fixed? ==> g.len.n <= 32)
  {
    LenOf(stack, g.len) > 0 ==> Back(stack, g.off) + LenOf(stack, g.len) <= end
  }

  /** The size is the least that covers every range, and there is one unless some range
      ends beyond uint64. */
  lemma {:induction false} MemSizeIsLeast(ranges: seq<Range>, stack: seq<Word>, end: u64)
    requires forall g | g in ranges :: g.off < |stack| && (g.len.Operand? ==> g.len.i < |stack|) && (g.len.Fixed? ==> g.len.n <= 32)
    ensures MemSize(ranges, stack).Some? && MemSize(ranges, stack).value <= end <==> forall g | g in ranges :: EndsBy(g, stack, end)
  {
    if ranges != [] {
      var g, rest := ranges[0], ranges[1..];
      MemSizeIsLeast(rest, stack, end);
      assert ranges == [g] + rest;
      assert EndsBy(g, stack, end) <==> var x := CalcMemSize(Back(stack, g.off), LenOf(stack, g.len)); x.Some? && x.value <= end;
    }
  }
}
