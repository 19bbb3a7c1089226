/** The run loop, the operations and nested calls: core/evm/interpreter.go,
    instructions.go and evm.go, with the Istanbul table. */
module EvmInterpreter {
  import opened Bytes
  import opened EvmCode
  import opened EvmContract
  import opened Wrappers
  import opened EvmMemory
  import opened EvmTable
  import opened EvmHost
  import opened EvmGas

  datatype Err =
    | NoErr | StopToken | Reverted | OutOfGas | StackErr | InvalidJump | WriteProtection | ReturnDataErr
    | InvalidOp | GasOverflow | Depth | NonceOverflow | Collision | CodeStore | MaxCodeSize | NoBalance | Precompile

  /** Errors that end a frame, as against those that keep one from starting. */
  predicate InFrame(err: Err) {
    !err.Depth? && !err.NonceOverflow? && !err.Collision? && !err.NoBalance?
  }

  /** What the database holds: storage, code, logs and suicides; which accounts exist;
      and the nonces. */
  datatype World = World(state: int, accounts: int, nonces: map<nat, u64>)

  function Nonce(w: World, a: nat): u64 {
    if a in w.nonces then w.nonces[a] else 0
  }

  /** The same world but for accounts that came into being. */
  predicate Untouched(before: World, after: World) {
    after.state == before.state && after.nonces == before.nonces
  }

  /** What the tracer captures at the head of the run loop. */
  datatype Entry = Entry(pc: nat, op: byte, gas: nat, stackLen: nat, memLen: nat)

  /** What an operation may look at besides the stack. */
  datatype Scope = Scope(code: seq<byte>, input: seq<byte>, pc: nat, store: seq<byte>, gas: nat, returnLen: nat)

  /** How a nested call or creation went: its error, what it returned, the gas that came
      back and the address it was created at. */
  datatype Outcome = Outcome(err: Err, ret: seq<byte>, back: nat, addr: nat)

  const CALL_STIPEND: nat := 2300
  const ADDRESS_RANGE: nat := 0x1_00000000_0000000000000000_0000000000000000

  /** The program counter is at an instruction, or past the code. */
  ghost predicate PcOk(code: seq<byte>, pc: nat) {
    pc >= |code| || IsStart(code, pc)
  }

  /** Every range of the operation lies inside a memory of size bytes. */
  ghost predicate InMemory(o: Operation, stack: seq<Word>, size: nat)
    requires WellFormed(o) && o.pops <= |stack|
  {
    forall g | g in o.ranges :: EndsBy(g, stack, size)
  }

  /** n bytes of data from start on, with zeros behind the end. */
  function Padded(data: seq<byte>, start: nat, n: nat): (r: seq<byte>) {
    seq(n, i requires 0 <= i < n => if start + i < |data| then data[start + i] else 0)
  }

  lemma PaddedInside(data: seq<byte>, start: nat, n: nat)
    requires start + n <= |data|
    ensures Padded(data, start, n) == data[start..start + n]
  {
  }

  /** At most n bytes of data. */
  function Clip(data: seq<byte>, n: nat): seq<byte> {
    if |data| < n then data else data[..n]
  }

  /** after is before with data at off. */
  ghost predicate Written(before: seq<byte>, after: seq<byte>, off: nat, data: seq<byte>) {
    && |after| == |before|
    && forall i | 0 <= i < |after| :: after[i] == if off <= i < off + |data| then data[i - off] else before[i]
  }

  /** Offset and length of a range. */
  ghost function Span(stack: seq<Word>, g: Range): (nat, nat) {
    if g.off < |stack| && (g.len.Operand? ==> g.len.i < |stack|) && (g.len.Fixed? ==> g.len.n <= 32)
    then (Back(stack, g.off), LenOf(stack, g.len)) else (0, 0)
  }

  /** The bytes of a range that lies inside the memory. */
  ghost function InStore(store: seq<byte>, stack: seq<Word>, g: Range): seq<byte> {
    var (off, len) := Span(stack, g);
    if len == 0 || off + len > |store| then [] else store[off..off + len]
  }

  /** Memory size in whole words that the operation needs; out of reach where a range
      ends beyond uint64. */
  function WantedSize(o: Operation, stack: seq<Word>): nat
    requires WellFormed(o) && o.pops <= |stack|
  {
    match MemSize(o.ranges, stack)
    case None => TWO64
    case Some(size) => ToWordSize(size) * 32
  }

  /** The gas pays for the operation, constant part first. */
  ghost predicate Affordable(o: Operation, stack: seq<Word>, rules: Rules, seen: Seen, have: nat, gas: nat)
    requires WellFormed(o) && o.pops <= |stack|
  {
    && o.gas <= gas
    && (o.dyn != NoDyn ==>
          && WantedSize(o, stack) <= MAX_MEM
          && Pays(o, stack, rules, seen, GrowthFee(have, WantedSize(o, stack)), gas - o.gas))
  }

  /** What is charged for it. */
  ghost function Charge(o: Operation, stack: seq<Word>, rules: Rules, seen: Seen, have: nat, gas: nat): nat
    requires WellFormed(o) && o.pops <= |stack| && o.gas <= gas
  {
    o.gas + if o.dyn == NoDyn then 0 else TotalCost(o, stack, rules, seen, GrowthFee(have, WantedSize(o, stack)), gas - o.gas)
  }

  lemma WantedFits(o: Operation, stack: seq<Word>)
    requires WellFormed(o) && o.pops <= |stack|
    ensures WantedSize(o, stack) <= MAX_MEM ==> LengthFits(o, stack) && InMemory(o, stack, WantedSize(o, stack))
  {
    if WantedSize(o, stack) <= MAX_MEM {
      WantedCovers(o, stack);
    }
  }

  lemma WantedCovers(o: Operation, stack: seq<Word>)
    requires WellFormed(o) && o.pops <= |stack| && WantedSize(o, stack) <= MAX_MEM
    ensures LengthFits(o, stack) && InMemory(o, stack, WantedSize(o, stack))
  {
    var size := MemSize(o.ranges, stack).value;
    forall g | g in o.ranges
      ensures EndsBy(g, stack, WantedSize(o, stack))
    {
      assert EndsBy(g, stack, size);
    }
    assert o.dyn.Words? || o.dyn.LogGas? ==> o.ranges[0] in o.ranges;
  }

  lemma InLargerMemory(o: Operation, stack: seq<Word>, small: nat, large: nat)
    requires WellFormed(o) && o.pops <= |stack| && InMemory(o, stack, small) && small <= large
    ensures InMemory(o, stack, large)
  {
    forall g | g in o.ranges
      ensures EndsBy(g, stack, large)
    {
      assert EndsBy(g, stack, small);
    }
  }

  /** A word written big-endian is read back: MLOAD after MSTORE. */
  lemma StoredWordIsLoaded(before: seq<byte>, after: seq<byte>, off: nat, w: Word)
    requires off + 32 <= |before| && Written(before, after, off, ToBE(w, 32))
    ensures FromBE(after[off..off + 32]) == w
  {
    var b := ToBE(w, 32);
    assert after[off..off + 32] == b;
    WholeWord(w, b);
  }

  lemma WholeWord(w: Word, b: seq<byte>)
    requires b == ToBE(w, 32)
    ensures FromBE(b) == w
  {
    FromToBE(w, 32);
    WordBound();
    DivModUnique(w, Pow256(32), 0, w);
  }

  class Evm {
    var world: World
    var depth: nat
    var readOnly: bool
    var returnData: Code
    var callGasTemp: u64
    const rules: Rules

    /** The dynamic gas of an operation: memory expansion, the operation's own part
        and, for calls, the gas handed to the callee. It is within the gas at hand exactly
        when that pays for the operation. */
    method DynamicGas(o: Operation, stack: seq<Word>, mem: Memory, memorySize: u64, gas: u64)
      returns (cost: Option<u64>, ghost seen: Seen)
      requires WellFormed(o) && o.pops <= |stack| && mem.Valid() && memorySize % 32 == 0
      modifies this`callGasTemp, mem`lastGasCost
      ensures cost.Some? && cost.value <= gas <==>
                memorySize <= MAX_MEM && LengthFits(o, stack) && Pays(o, stack, rules, seen, GrowthFee(|mem.store|, memorySize), gas)
      ensures cost.Some? && cost.value <= gas ==>
                && cost.value == TotalCost(o, stack, rules, seen, GrowthFee(|mem.store|, memorySize), gas)
                && mem.lastGasCost == old(mem.lastGasCost) + GrowthFee(|mem.store|, memorySize)
                && (o.dyn.CallGas? ==> callGasTemp == ForCallee(o, stack, rules, gas, GrowthFee(|mem.store|, memorySize) + OwnCost(o, stack, rules, seen)))
    {
      seen := Seen(false, EvmSstore.Slot(0, 0));
      if o.dyn.SstoreGas? && gas <= 2300 {
        return None, seen;
      }
      var fee := mem.MemoryGasCost(memorySize);
      if fee == None {
        return None, seen;
      }
      var extra;
      extra, seen := ExtraGas(o, stack, rules);
      if extra == None {
        return None, seen;
      }
      cost := SafeAdd(fee.value, extra.value);
      if cost.Some? && o.dyn.CallGas? {
        cost := AddCallGas(o, stack, cost.value, gas);
      }
    }

    /** The end of the gas functions of calls: the gas for the callee on top of base. */
    method AddCallGas(o: Operation, stack: seq<Word>, base: u64, gas: u64) returns (cost: Option<u64>)
      requires WellFormed(o) && o.pops <= |stack| && o.dyn.CallGas?
      modifies this`callGasTemp
      ensures cost.Some? && cost.value <= gas <==> base + ForCallee(o, stack, rules, gas, base) <= gas
      ensures cost.Some? && cost.value <= gas ==>
                cost.value == base + callGasTemp && callGasTemp == ForCallee(o, stack, rules, gas, base)
    {
      CallGasIsForCallee(o, stack, rules, gas, base);
      var forCallee := CallGasFor(rules.isEIP150, gas, base, Back(stack, 0));
      if forCallee == None {
        return None;
      }
      callGasTemp := forCallee.value;
      cost := SafeAdd(base, callGasTemp);
    }

    /** Operations on stack and program counter only, and SSTORE. Arithmetic, hashing and
        queries pop their operands and push an answer. */
    method ExecuteStack(o: Operation, pc: nat, stack: seq<Word>, mem: Memory, contract: Contract)
      returns (err: Err, pc': int, stack': seq<Word>)
      requires WellFormed(o) && PcOk(contract.code, pc)
      requires PushLen(contract.GetOp(pc)) == if o.exec.Push? then o.exec.n else 0
      requires contract.Valid() && o.pops <= |stack| <= MaxStack(o)
      requires mem.Valid() && InMemory(o, stack, |mem.store|)
      requires OnStack(o) && pc < |contract.code|
      modifies this`world, contract`analysis, contract.jumpdests
      ensures contract.Valid()
      ensures InFrame(err) && (err == NoErr || StopsWith(o, err))
      ensures readOnly ==> Untouched(old(world), world) && (o.exec.Sstore? ==> err == WriteProtection)
      ensures err == NoErr ==> |stack'| == |stack| - o.pops + o.pushes
      ensures err == NoErr ==> pc' >= -1 && PcOk(contract.code, pc' + 1)
      ensures err == NoErr ==> StackEffect(o, Scope(contract.code, contract.input, pc, mem.store, contract.gas, |returnData|), stack, pc', stack')
    {
      if o.exec.Jump? || o.exec.Jumpi? {
        err, pc', stack' := ExecuteJump(o, pc, stack, contract);
        return;
      }
      AtNext(contract.code, pc);
      err, pc' := NoErr, pc + PushLen(contract.GetOp(pc));
      if o.exec.Push? || o.exec.Dup? || o.exec.Swap? {
        stack' := Shuffle(o, pc, stack, contract.code);
      } else if o.exec.Sstore? {
        stack' := stack[..|stack| - 2];
        if readOnly {
          err := WriteProtection;
        } else {
          var s := AnyState();
          world := world.(state := s);
        }
      } else {
        stack' := Answer(o, pc, stack, mem, contract);
      }
    }

    static predicate OnStack(o: Operation) {
      || o.exec.Compute? || o.exec.MLoad? || o.exec.CallDataLoad? || o.exec.Observe?
      || o.exec.Push? || o.exec.Dup? || o.exec.Swap? || o.exec.Jump? || o.exec.Jumpi? || o.exec.Sstore?
    }

    /** What an operation does to the program counter and the stack, apart from the words
        that arithmetic, hashing and queries compute. */
    static ghost predicate StackEffect(o: Operation, at: Scope, stack: seq<Word>, pc': int, stack': seq<Word>)
      requires WellFormed(o) && o.pops <= |stack| && |stack'| == |stack| - o.pops + o.pushes
    {
      if o.exec.Jump? || o.exec.Jumpi? then JumpEffect(o, at.code, at.pc, stack, pc', stack')
      else
        && pc' == at.pc + (if o.exec.Push? then o.exec.n else 0)
        && if o.exec.Push? || o.exec.Dup? || o.exec.Swap? then Shuffled(o, at.code, at.pc, stack, stack') else Answered(o, at, stack, stack')
    }

    static ghost predicate JumpEffect(o: Operation, code: seq<byte>, pc: nat, stack: seq<Word>, pc': int, stack': seq<Word>)
      requires WellFormed(o) && o.pops <= |stack| && (o.exec.Jump? || o.exec.Jumpi?)
    {
      && (if o.exec.Jump? || Back(stack, 1) != 0 then pc' + 1 == Back(stack, 0) && IsDest(code, Back(stack, 0)) else pc' == pc)
      && stack' == stack[..|stack| - o.pops]
    }

    static ghost predicate Shuffled(o: Operation, code: seq<byte>, pc: nat, stack: seq<Word>, stack': seq<Word>)
      requires WellFormed(o) && o.pops <= |stack| && |stack'| == |stack| - o.pops + o.pushes
      requires o.exec.Push? || o.exec.Dup? || o.exec.Swap?
    {
      var n := |stack|;
      match o.exec
      case Push(k) => stack'[..n] == stack && stack'[n] == FromBE(Padded(code, pc + 1, k))
      case Dup(k) => stack'[..n] == stack && stack'[n] == Back(stack, k - 1)
      case Swap(k) =>
        && Back(stack', 0) == Back(stack, k) && Back(stack', k) == Back(stack, 0)
        && forall i | 0 <= i < n && i != n - 1 && i != n - 1 - k :: stack'[i] == stack[i]
    }

    static ghost predicate Answered(o: Operation, at: Scope, stack: seq<Word>, stack': seq<Word>)
      requires WellFormed(o) && o.pops <= |stack| && |stack'| == |stack| - o.pops + o.pushes
    {
      && stack'[..|stack| - o.pops] == stack[..|stack| - o.pops]
      && (o.pushes == 1 ==> IsAnswer(o, at, stack, stack'[|stack| - o.pops]))
    }

    static ghost predicate IsAnswer(o: Operation, at: Scope, stack: seq<Word>, w: Word)
      requires WellFormed(o) && o.pops <= |stack|
    {
      match o.exec
      case MLoad => w == FromBE(InStore(at.store, stack, o.ranges[0]))
      case CallDataLoad => w == FromBE(Padded(at.input, Back(stack, 0), 32))
      case Observe(what) => w == Observation(what, at)
      case _ => true
    }

    static function Observation(what: Observed, at: Scope): nat {
      match what
      case ProgramCounter => at.pc
      case MemoryLen => |at.store|
      case GasLeft => at.gas
      case CodeLen => |at.code|
      case InputLen => |at.input|
      case ReturnLen => at.returnLen
    }

    /** The instruction behind the one at pc. */
    static lemma AtNext(code: seq<byte>, pc: nat)
      requires PcOk(code, pc)
      ensures var op := if pc < |code| then code[pc] else 0; PcOk(code, pc + PushLen(op) + 1)
    {
      if pc < |code| {
        VisitsNext(code, 0, pc);
      }
    }

    /** opJump and opJumpi: the loop adds one to the program counter afterwards. */
    method ExecuteJump(o: Operation, pc: nat, stack: seq<Word>, contract: Contract)
      returns (err: Err, pc': int, stack': seq<Word>)
      requires WellFormed(o) && (o.exec.Jump? || o.exec.Jumpi?) && o.pops <= |stack|
      requires contract.Valid() && PcOk(contract.code, pc) && PushLen(contract.GetOp(pc)) == 0
      modifies contract`analysis, contract.jumpdests
      ensures contract.Valid() && InFrame(err) && (err == NoErr || StopsWith(o, err))
      ensures err == NoErr ==> pc' >= -1 && PcOk(contract.code, pc' + 1) && JumpEffect(o, contract.code, pc, stack, pc', stack')
    {
      stack' := stack[..|stack| - o.pops];
      var aborted := AnyBool();
      if aborted {
        return StopToken, pc, stack';
      }
      if o.exec.Jump? || Back(stack, 1) != 0 {
        err, pc' := JumpTo(Back(stack, 0), contract);
      } else {
        AtNext(contract.code, pc);
        err, pc' := NoErr, pc;
      }
    }

    /** The jump itself: it goes to an instruction or fails. */
    method JumpTo(dest: Word, contract: Contract) returns (err: Err, pc': int)
      requires contract.Valid()
      modifies contract`analysis, contract.jumpdests
      ensures contract.Valid() && err in {NoErr, InvalidJump}
      ensures err == NoErr <==> IsDest(contract.code, dest)
      ensures err == NoErr ==> pc' + 1 == dest
    {
      var ok := contract.ValidJumpdest(dest);
      if !ok {
        return InvalidJump, 0;
      }
      err, pc' := NoErr, dest - 1;
    }

    /** PUSH, DUP and SWAP. */
    method Shuffle(o: Operation, pc: nat, stack: seq<Word>, code: seq<byte>) returns (stack': seq<Word>)
      requires WellFormed(o) && o.pops <= |stack| && (o.exec.Push? || o.exec.Dup? || o.exec.Swap?)
      ensures |stack'| == |stack| - o.pops + o.pushes && Shuffled(o, code, pc, stack, stack')
    {
      var n := |stack|;
      match o.exec
      case Push(k) =>
        var w := PushWord(code, pc, k);
        stack' := stack + [w];
      case Dup(k) =>
        stack' := stack + [stack[n - k]];
      case Swap(k) =>
        stack' := stack[n - 1 - k := stack[n - 1]][n - 1 := stack[n - 1 - k]];
    }

    /** makePush and opPush1: the data bytes, padded with zeros past the end of the code. */
    method PushWord(code: seq<byte>, pc: nat, k: nat) returns (w: Word)
      requires k <= 32
      ensures w == FromBE(Padded(code, pc + 1, k))
    {
      var startMin := if pc + 1 < |code| then pc + 1 else |code|;
      var endMin := if startMin + k < |code| then startMin + k else |code|;
      var data := code[startMin..endMin];
      var padded := data + Zeros(k - |data|);
      assert padded == Padded(code, pc + 1, k);
      w := ToWord(padded);
    }

    /** SetBytes for up to 32 bytes. */
    static method ToWord(b: seq<byte>) returns (w: Word)
      requires |b| <= 32
      ensures w == FromBE(b)
    {
      FromBEBound(b);
      Pow256Mono(|b|, 32);
      WordBound();
      w := FromBE(b);
    }

    /** Operations that answer with at most one word. */
    method Answer(o: Operation, pc: nat, stack: seq<Word>, mem: Memory, contract: Contract) returns (stack': seq<Word>)
      requires WellFormed(o) && o.pops <= |stack|
      requires pc < |contract.code| && (o.exec.Compute? || o.exec.MLoad? || o.exec.CallDataLoad? || o.exec.Observe?)
      requires mem.Valid() && InMemory(o, stack, |mem.store|)
      ensures |stack'| == |stack| - o.pops + o.pushes
      ensures Answered(o, Scope(contract.code, contract.input, pc, mem.store, contract.gas, |returnData|), stack, stack')
    {
      ghost var at := Scope(contract.code, contract.input, pc, mem.store, contract.gas, |returnData|);
      var w := AnswerWord(o, pc, stack, mem, contract, at);
      var below := stack[..|stack| - o.pops];
      stack' := if o.pushes == 1 then below + [w] else below;
    }

    method AnswerWord(o: Operation, pc: nat, stack: seq<Word>, mem: Memory, contract: Contract, ghost at: Scope) returns (w: Word)
      requires WellFormed(o) && o.pops <= |stack|
      requires pc < |contract.code| && (o.exec.Compute? || o.exec.MLoad? || o.exec.CallDataLoad? || o.exec.Observe?)
      requires mem.Valid() && InMemory(o, stack, |mem.store|)
      requires at == Scope(contract.code, contract.input, pc, mem.store, contract.gas, |returnData|)
      ensures IsAnswer(o, at, stack, w)
    {
      var data: seq<byte> := [];
      if o.ranges != [] {
        data := ReadRange(o, stack, mem, 0);
      }
      if o.exec.MLoad? {
        w := ToWord(data);
      } else if o.exec.CallDataLoad? {
        data := GetData(contract.input, Back(stack, 0), 32);
        w := ToWord(data);
      } else if o.exec.Observe? {
        w := Observe(o.exec.what, pc, mem, contract);
      } else {
        w := AnyWord();
      }
    }

    /** opPc, opMsize, opGas, opCodeSize, opCallDataSize and opReturnDataSize. */
    method Observe(what: Observed, pc: nat, mem: Memory, contract: Contract) returns (w: Word)
      requires pc < |contract.code| && |mem.store| <= MAX_MEM
      ensures w == Observation(what, Scope(contract.code, contract.input, pc, mem.store, contract.gas, |returnData|))
    {
      match what
      case ProgramCounter => w := pc;
      case MemoryLen => w := |mem.store|;
      case GasLeft => w := contract.gas;
      case CodeLen => w := |contract.code|;
      case InputLen => w := |contract.input|;
      case ReturnLen => w := |returnData|;
    }

    /** getData behind Uint64WithOverflow: an offset beyond uint64 is taken as the largest. */
    static method GetData(data: Code, offset: Word, size: nat) returns (r: seq<byte>)
      requires size <= MAX_MEM
      ensures r == Padded(data, offset, size)
    {
      var start := if offset >= TWO64 then TWO64 - 1 else offset;
      if start > |data| {
        start := |data|;
      }
      var end := if start + size > |data| then |data| else start + size;
      r := data[start..end] + Zeros(size - (end - start));
    }

    /** Memory.GetPtr on one of the operation's ranges. */
    method ReadRange(o: Operation, stack: seq<Word>, mem: Memory, k: nat) returns (data: Code)
      requires WellFormed(o) && k < |o.ranges| && o.pops <= |stack| && InMemory(o, stack, |mem.store|)
      requires |mem.store| <= MAX_MEM
      ensures |data| <= MAX_MEM && data == InStore(mem.store, stack, o.ranges[k])
      ensures o.ranges[k].len == Fixed(32) ==> |data| == 32
    {
      var g := o.ranges[k];
      assert RangeOk(o, g);
      var off, len := Back(stack, g.off), LenOf(stack, g.len);
      assert EndsBy(g, stack, |mem.store|);
      if len == 0 {
        return [];
      }
      data := mem.GetPtr(off, len);
    }

    /** Memory.Set on the operation's first range. */
    method WriteRange(o: Operation, stack: seq<Word>, mem: Memory, data: seq<byte>)
      requires WellFormed(o) && o.ranges != [] && o.pops <= |stack| && InMemory(o, stack, |mem.store|)
      requires |mem.store| <= MAX_MEM
      modifies mem`store
      ensures var (off, len) := Span(stack, o.ranges[0]); Written(old(mem.store), mem.store, off, Clip(data, len))
    {
      var g := o.ranges[0];
      assert RangeOk(o, g);
      assert EndsBy(g, stack, |mem.store|);
      var off, len := Back(stack, g.off), LenOf(stack, g.len);
      if len > 0 {
        mem.Set(off, len, data);
      }
    }

    /** Operations that write memory, and LOG. source is what a copy copies from. */
    method ExecuteMemory(o: Operation, stack: seq<Word>, mem: Memory, contract: Contract)
      returns (err: Err, stack': seq<Word>, ghost source: seq<byte>)
      requires WellFormed(o) && o.pops <= |stack| <= MaxStack(o) && OnMemory(o)
      requires mem.Valid() && InMemory(o, stack, |mem.store|)
      modifies this`world, mem`store
      ensures |mem.store| == |old(mem.store)| && stack' == stack[..|stack| - o.pops] && InFrame(err) && (err == NoErr || StopsWith(o, err))
      ensures readOnly ==> Untouched(old(world), world)
      ensures o.exec.Log? ==> (err == if readOnly then WriteProtection else NoErr)
      ensures o.exec.ReturnDataCopy? ==> (err == if Back(stack, 1) + Back(stack, 2) <= |returnData| then NoErr else ReturnDataErr)
      ensures o.exec.Store? || o.exec.Copy? ==> err == NoErr
      ensures err == NoErr ==> MemoryEffect(o, stack, source, old(mem.store), mem.store)
      ensures match o.exec
              case Copy(CallData) => source == contract.input
              case Copy(OwnCode) => source == contract.code
              case ReturnDataCopy => source == returnData
              case _ => true
    {
      stack' := stack[..|stack| - o.pops];
      err, source := NoErr, [];
      match o.exec
      case Store(n) =>
        assert EndsBy(o.ranges[0], stack, |mem.store|);
        if n == 32 {
          mem.Set32(Back(stack, 0), Back(stack, 1));
        } else {
          mem.Set(Back(stack, 0), 1, [Back(stack, 1) % 256]);
        }
      case Copy(from) =>
        source := CopyFrom(o, from, stack, mem, contract);
      case ReturnDataCopy =>
        source := returnData;
        err := CopyReturnData(o, stack, mem);
      case Log =>
        if readOnly {
          return WriteProtection, stack', [];
        }
        var data := ReadRange(o, stack, mem, 0);
        var s := AnyState();
        world := world.(state := s);
    }

    static predicate OnMemory(o: Operation) {
      o.exec.Store? || o.exec.Copy? || o.exec.ReturnDataCopy? || o.exec.Log?
    }

    /** Where the operation writes, and what; nothing else changes. */
    static ghost predicate MemoryEffect(o: Operation, stack: seq<Word>, source: seq<byte>, before: seq<byte>, after: seq<byte>)
      requires WellFormed(o) && o.pops <= |stack| && OnMemory(o)
    {
      if o.exec.Store? then Written(before, after, Back(stack, 0), ToBE(Back(stack, 1), o.exec.n))
      else if o.exec.Log? then after == before
      else
        var (off, len) := Span(stack, o.ranges[0]);
        Written(before, after, off, Padded(source, Back(stack, o.ranges[0].off + 1), len))
    }

    /** opCallDataCopy, opCodeCopy and opExtCodeCopy. */
    method CopyFrom(o: Operation, from: Source, stack: seq<Word>, mem: Memory, contract: Contract) returns (source: Code)
      requires WellFormed(o) && o.pops <= |stack| && o.exec == Copy(from)
      requires mem.Valid() && InMemory(o, stack, |mem.store|)
      modifies mem`store
      ensures MemoryEffect(o, stack, source, old(mem.store), mem.store)
      ensures from == CallData ==> source == contract.input
      ensures from == OwnCode ==> source == contract.code
    {
      var g := o.ranges[0];
      assert EndsBy(g, stack, |mem.store|);
      if from == CallData {
        source := contract.input;
      } else if from == OwnCode {
        source := contract.code;
      } else {
        source := AnyBytes();
      }
      var data := GetData(source, Back(stack, g.off + 1), Back(stack, g.off + 2));
      WriteRange(o, stack, mem, data);
    }

    /** opReturnDataCopy: fails unless the whole range was returned. */
    method CopyReturnData(o: Operation, stack: seq<Word>, mem: Memory) returns (err: Err)
      requires WellFormed(o) && o.pops <= |stack| && o.exec.ReturnDataCopy?
      requires mem.Valid() && InMemory(o, stack, |mem.store|)
      modifies mem`store
      ensures |mem.store| == |old(mem.store)|
      ensures err == if Back(stack, 1) + Back(stack, 2) <= |returnData| then NoErr else ReturnDataErr
      ensures err == NoErr ==> MemoryEffect(o, stack, returnData, old(mem.store), mem.store)
    {
      var start, len := Back(stack, 1), Back(stack, 2);
      if start >= TWO64 || start + len >= TWO64 || |returnData| < start + len {
        return ReturnDataErr;
      }
      var data := returnData[start..start + len];
      PaddedInside(returnData, start, len);
      WriteRange(o, stack, mem, data);
      err := NoErr;
    }

    /** Operations that end the frame. */
    method ExecuteEnd(o: Operation, stack: seq<Word>, mem: Memory) returns (err: Err, ret: Code)
      requires WellFormed(o) && o.pops <= |stack| && Ends(o)
      requires mem.Valid() && InMemory(o, stack, |mem.store|)
      modifies this`world, this`returnData
      ensures StopsWith(o, err) && InFrame(err) && |ret| <= MAX_MEM
      ensures readOnly ==> Untouched(old(world), world)
      ensures o.exec.Selfdestruct? && readOnly ==> err == WriteProtection
      ensures o.exec.Return? || o.exec.Revert? ==> |o.ranges| == 1 && ret == InStore(mem.store, stack, o.ranges[0])
      ensures o.exec.Return? || o.exec.Halt? ==> err == StopToken
      ensures err == Reverted <==> o.exec.Revert?
      ensures returnData == if o.exec.Revert? then ret else old(returnData)
    {
      ret := [];
      match o.exec
      case Return =>
        ret := ReadRange(o, stack, mem, 0);
        err := StopToken;
      case Revert =>
        ret := ReadRange(o, stack, mem, 0);
        returnData := ret;
        err := Reverted;
      case Selfdestruct =>
        if readOnly {
          return WriteProtection, [];
        }
        var s := AnyState();
        world := world.(state := s);
        err := StopToken;
      case Halt =>
        err := StopToken;
      case _ =>
        err := InvalidOp;
    }

    /** Call, CallCode, DelegateCall and StaticCall. No call returns more gas than it
        was given, a failed call leaves the state as it was, and so does every call from a
        static frame and every static call. */
    method CallAddress(kind: Exec, caller: Contract, addr: Word, args: Code, gas: u64, hasValue: bool) returns (ret: Code, left: u64, err: Err)
      requires caller.Valid() && (kind.Call? || kind.CallCode? || kind.DelegateCall? || kind.StaticCall?)
      modifies this, caller.jumpdests
      ensures caller.jumpdests.Valid() && depth == old(depth) && readOnly == old(readOnly)
      ensures left <= gas && err != StopToken
      ensures err != NoErr ==> world == old(world)
      ensures readOnly || kind.StaticCall? ==> Untouched(old(world), world)
      ensures err !in {NoErr, Reverted, Depth, NoBalance} ==> left == 0
      decreases gas, 5
    {
      if depth > 1024 {
        return [], gas, Depth;
      }
      if kind.CallCode? {
        var canTransfer := AnyBool();
        if !canTransfer {
          return [], gas, NoBalance;
        }
      }
      var snapshot := world;
      var isPrecompile := AnyBool();
      if kind.Call? {
        var exists_ := AnyBool();
        if !exists_ {
          if !isPrecompile && !hasValue {
            return [], gas, NoErr;
          }
          var created := AnyState();
          world := world.(accounts := created);
        }
      }
      left := gas;
      if isPrecompile {
        ret, left, err := RunPrecompile(gas);
      } else {
        var codeHash := AnyWord();
        var code := caller.jumpdests.codeOf(codeHash);
        if kind.Call? && |code| == 0 {
          ret, err := [], NoErr;
        } else {
          var contract := new Contract(if kind.Call? || kind.StaticCall? then addr else caller.self, code, args, codeHash, caller.jumpdests, gas);
          var trace, memPaid, memLen;
          ret, err, trace, memPaid, memLen := Run(contract, kind.StaticCall?);
          left := contract.gas;
        }
      }
      if err != NoErr {
        world := snapshot;
        if err != Reverted {
          left := 0;
        }
      }
    }

    /** RunPrecompiledContract. */
    method RunPrecompile(gas: u64) returns (ret: Code, left: u64, err: Err)
      ensures left <= gas && err in {NoErr, Precompile, OutOfGas} && (err == OutOfGas ==> left == 0)
    {
      var gasCost := AnyWord();
      if gas < gasCost {
        return [], 0, OutOfGas;
      }
      left := gas - gasCost;
      ret := AnyBytes();
      var failed := AnyBool();
      err := if failed then Precompile else NoErr;
    }

    /** opCall, opCallCode, opDelegateCall and opStaticCall. */
    method OpCall(o: Operation, stack: seq<Word>, mem: Memory, contract: Contract, ghost cap: nat)
      returns (err: Err, stack': seq<Word>, ghost sub: Outcome)
      requires WellFormed(o) && IsCall(o) && o.pops <= |stack| <= MaxStack(o)
      requires contract.Valid() && mem.Valid() && InMemory(o, stack, |mem.store|)
      requires contract.gas + callGasTemp + (if CallValue(o, stack) != 0 then CALL_STIPEND else 0) <= cap < TWO64
      modifies this, mem`store, contract, contract.jumpdests
      ensures contract.Valid() && |mem.store| == |old(mem.store)| && contract.gas <= cap
      ensures depth == old(depth) && readOnly == old(readOnly)
      ensures err == if readOnly && o.exec.Call? && CallValue(o, stack) != 0 then WriteProtection else NoErr
      ensures err == NoErr ==>
                && stack' == stack[..|stack| - o.pops] + [if sub.err == NoErr then 1 else 0]
                && Returned(o, stack, sub.err, sub.ret, old(mem.store), mem.store)
                && returnData == sub.ret
                && contract.gas == old(contract.gas) + sub.back
                && sub.back <= old(callGasTemp) + (if CallValue(o, stack) != 0 then CALL_STIPEND else 0)
                && (sub.err !in {NoErr, Reverted, Depth, NoBalance} ==> sub.back == 0)
                && (sub.err != NoErr ==> world == old(world))
      ensures readOnly || o.exec.StaticCall? ==> Untouched(old(world), world)
      decreases cap, 6
    {
      stack', sub := stack[..|stack| - o.pops], Outcome(NoErr, [], 0, 0);
      var gas := callGasTemp;
      var hasValue := CallValue(o, stack) != 0;
      var args := ReadRange(o, stack, mem, 1);
      if readOnly && hasValue && o.exec.Call? {
        err := WriteProtection;
        return;
      }
      if hasValue {
        gas := gas + CALL_STIPEND;
      }
      var ret, returnGas, suberr := CallAddress(o.exec, contract, Back(stack, 1) % ADDRESS_RANGE, args, gas, hasValue);
      stack' := stack' + [if suberr == NoErr then 1 else 0];
      WriteResult(o, stack, mem, suberr, ret);
      contract.gas := contract.gas + returnGas;
      returnData := ret;
      err, sub := NoErr, Outcome(suberr, ret, returnGas, 0);
    }

    /** What a call returned is in the result range, as far as it reaches there, unless
        the call failed otherwise than by REVERT. */
    static ghost predicate Returned(o: Operation, stack: seq<Word>, err: Err, ret: seq<byte>, before: seq<byte>, after: seq<byte>)
      requires o.ranges != []
    {
      var (off, len) := Span(stack, o.ranges[0]);
      Written(before, after, off, if err == NoErr || err == Reverted then Clip(ret, len) else [])
    }

    method WriteResult(o: Operation, stack: seq<Word>, mem: Memory, err: Err, ret: Code)
      requires WellFormed(o) && o.ranges != [] && o.pops <= |stack| && InMemory(o, stack, |mem.store|)
      requires |mem.store| <= MAX_MEM
      modifies mem`store
      ensures Returned(o, stack, err, ret, old(mem.store), mem.store)
    {
      if err == NoErr || err == Reverted {
        WriteRange(o, stack, mem, ret);
      }
    }

    /** opCreate and opCreate2. */
    method OpCreate(o: Operation, stack: seq<Word>, mem: Memory, contract: Contract, ghost cap: nat)
      returns (err: Err, stack': seq<Word>, ghost sub: Outcome)
      requires WellFormed(o) && (o.exec.Create? || o.exec.Create2?) && o.pops <= |stack| <= MaxStack(o)
      requires contract.Valid() && mem.Valid() && InMemory(o, stack, |mem.store|)
      requires contract.gas <= cap < TWO64
      modifies this, contract, contract.jumpdests
      ensures contract.Valid() && contract.gas <= cap
      ensures depth == old(depth) && readOnly == old(readOnly)
      ensures err == if readOnly then WriteProtection else NoErr
      ensures readOnly ==> Untouched(old(world), world)
      ensures err == NoErr ==>
                && stack' == stack[..|stack| - o.pops] + [if sub.err == NoErr || (sub.err == CodeStore && o.exec.Create? && !rules.isHomestead) then sub.addr else 0]
                && returnData == (if sub.err == Reverted then sub.ret else [])
                && contract.gas == old(contract.gas) - Endowed(o, old(contract.gas)) + sub.back
                && sub.back <= Endowed(o, old(contract.gas))
      decreases cap, 6
    {
      stack', sub := stack, Outcome(NoErr, [], 0, 0);
      if readOnly {
        err := WriteProtection;
        return;
      }
      stack' := stack[..|stack| - o.pops];
      var input := ReadRange(o, stack, mem, 0);
      var gas := Endow(o, contract);
      var addr := AnyWord();
      var res, returnGas, suberr := CreateContract(contract, addr, input, gas);
      var ignored := suberr == CodeStore && o.exec.Create? && !rules.isHomestead;
      stack' := stack' + [if suberr == NoErr || ignored then addr else 0];
      contract.gas := contract.gas + returnGas;
      returnData := if suberr == Reverted then res else [];
      err, sub := NoErr, Outcome(suberr, res, returnGas, addr);
    }

    method Endow(o: Operation, contract: Contract) returns (gas: u64)
      modifies contract`gas
      ensures gas == Endowed(o, old(contract.gas)) && contract.gas == old(contract.gas) - gas
    {
      gas := contract.gas;
      if rules.isEIP150 || o.exec.Create2? {
        gas := gas - gas / 64;
      }
      var ok := contract.UseGas(gas);
    }

    /** Gas that goes to the creation: all but a 64th from EIP-150 on. */
    ghost function Endowed(o: Operation, gas: nat): nat {
      if rules.isEIP150 || o.exec.Create2? then gas - gas / 64 else gas
    }

    /** create: a failed creation keeps none of the gas unless it reverted, and all that is
        left of it is the caller's nonce, one higher. */
    method CreateContract(caller: Contract, addr: Word, input: Code, gas: u64) returns (ret: Code, left: u64, err: Err)
      requires caller.Valid()
      modifies this, caller.jumpdests
      ensures caller.jumpdests.Valid() && depth == old(depth) && readOnly == old(readOnly)
      ensures left <= gas
      ensures err !in {NoErr, Reverted, Depth, NonceOverflow, CodeStore} ==> left == 0
      ensures err == CodeStore && rules.isHomestead ==> left == 0
      ensures err == Depth <==> old(depth) > 1024
      ensures err == NonceOverflow <==> old(depth) <= 1024 && Nonce(old(world), caller.self) == TWO64 - 1
      ensures err == Depth || err == NonceOverflow ==> world == old(world) && left == gas
      ensures err !in {NoErr, Depth, NonceOverflow} && (rules.isHomestead || err != CodeStore) ==>
                world == Raised(old(world), caller.self)
      decreases gas, 5
    {
      if depth > 1024 {
        return [], gas, Depth;
      }
      if Nonce(world, caller.self) == TWO64 - 1 {
        return [], gas, NonceOverflow;
      }
      world := Raised(world, caller.self);
      var hasCode := AnyBool();
      if hasCode || Nonce(world, addr) != 0 {
        return [], 0, Collision;
      }
      var snapshot := world;
      CreateAccount(addr);
      var contract := new Contract(addr, input, [], caller.jumpdests.hashOf(input), caller.jumpdests, gas);
      ret, err := Deploy(contract);
      if err != NoErr && (rules.isHomestead || err != CodeStore) {
        world := snapshot;
        if err != Reverted {
          var used := contract.UseGas(contract.gas);
        }
      }
      left := contract.gas;
    }

    /** The world with the nonce of an account one higher. */
    static function Raised(w: World, a: nat): World
      requires Nonce(w, a) < TWO64 - 1
    {
      w.(nonces := w.nonces[a := Nonce(w, a) + 1])
    }

    method CreateAccount(addr: Word)
      modifies this`world
      ensures world.state == old(world).state
    {
      var created := AnyState();
      world := world.(accounts := created, nonces := if rules.isEIP158 then world.nonces[addr := 1] else world.nonces);
    }

    /** The middle of create: runs the init code and stores what it returns. */
    method Deploy(contract: Contract) returns (ret: Code, err: Err)
      requires contract.Valid()
      modifies this, contract, contract.jumpdests
      ensures contract.Valid() && contract.gas <= old(contract.gas)
      ensures depth == old(depth) && readOnly == old(readOnly)
      ensures InFrame(err) && (err == NoErr && rules.isEIP158 ==> |ret| <= 24576)
      decreases contract.gas, 4, 1
    {
      var trace, memPaid, memLen;
      ret, err, trace, memPaid, memLen := Run(contract, false);
      if err == NoErr && rules.isEIP158 && |ret| > 24576 {
        err := MaxCodeSize;
      }
      if err == NoErr {
        var stored := contract.UseGas(|ret| * 200);
        if stored {
          var s := AnyState();
          world := world.(state := s);
        } else {
          err := CodeStore;
        }
      }
    }

    /** The tracer entries of one frame: in every one the program counter is at an
        instruction and the stack within its limit, and gas falls from entry to entry. */
    static ghost predicate Traced(trace: seq<Entry>, code: seq<byte>, gas: nat) {
      && (forall i | 0 <= i < |trace| :: PcOk(code, trace[i].pc) && trace[i].stackLen <= STACK_LIMIT && trace[i].gas <= gas)
      && (forall i, j | 0 <= i < j < |trace| :: trace[i].gas > trace[j].gas)
    }

    /** The entries are those of a run of the code: it starts at the first byte with all the
        gas, an empty stack and no memory, every entry is for the opcode at its program
        counter, and every next one for the instruction that this one leads to. */
    static ghost predicate Linked(trace: seq<Entry>, code: seq<byte>, gas: nat) {
      && (trace != [] ==> trace[0] == Entry(0, OpAt(code, 0), gas, 0, 0))
      && (forall i | 0 <= i < |trace| :: trace[i].op == OpAt(code, trace[i].pc))
      && (forall i | 0 < i < |trace| :: LeadsTo(trace[i - 1], code, trace[i].pc, trace[i].stackLen, trace[i].memLen))
    }

    static function OpAt(code: seq<byte>, pc: nat): byte {
      if pc < |code| then code[pc] else 0
    }

    /** The instruction goes on to pc' with this many words on the stack and bytes of memory. */
    static ghost predicate LeadsTo(e: Entry, code: seq<byte>, pc': nat, stackLen: nat, memLen: nat) {
      var o := Istanbul(e.op);
      && !Ends(o) && Continues(o, code, e.pc, pc') && stackLen == e.stackLen - o.pops + o.pushes && memLen >= e.memLen
    }

    /** To the next instruction, or to a jump destination. */
    static ghost predicate Continues(o: Operation, code: seq<byte>, pc: nat, pc': nat) {
      || (!o.exec.Jump? && pc' == pc + 1 + if o.exec.Push? then o.exec.n else 0)
      || ((o.exec.Jump? || o.exec.Jumpi?) && IsDest(code, pc'))
    }

    static ghost predicate IsDest(code: seq<byte>, d: nat) {
      d < |code| && code[d] == JUMPDEST && IsStart(code, d)
    }

    /** The instruction can end a frame this way. */
    static ghost predicate StopsWith(o: Operation, err: Err) {
      && err != NoErr
      && (err == StopToken ==> o.exec.Halt? || o.exec.Return? || o.exec.Selfdestruct? || o.exec.Jump? || o.exec.Jumpi?)
      && (err == Reverted ==> o.exec.Revert?) && (err == InvalidJump ==> o.exec.Jump? || o.exec.Jumpi?)
    }

    /** The gas and memory part of one turn: constant gas, dynamic gas, expansion. It
        succeeds exactly when the gas pays for the operation, and takes exactly that. */
    method Prepare(o: Operation, stack: seq<Word>, mem: Memory, contract: Contract) returns (err: Err, fee: nat, ghost seen: Seen)
      requires WellFormed(o) && o.pops <= |stack| && mem.Valid()
      modifies this`callGasTemp, mem, contract`gas
      ensures contract.gas <= old(contract.gas) && err in {NoErr, OutOfGas, GasOverflow}
      ensures err == NoErr <==> Affordable(o, stack, rules, seen, |old(mem.store)|, old(contract.gas))
      ensures err == NoErr ==>
                && contract.gas == old(contract.gas) - Charge(o, stack, rules, seen, |old(mem.store)|, old(contract.gas))
                && mem.Valid() && old(mem.store) <= mem.store && InMemory(o, stack, |mem.store|)
                && fee == mem.lastGasCost - old(mem.lastGasCost)
      ensures err == NoErr && !Ends(o) ==> contract.gas < old(contract.gas)
      ensures err == NoErr && IsCall(o) ==>
                contract.gas + callGasTemp + (if CallValue(o, stack) != 0 then CALL_STIPEND else 0) < old(contract.gas)
    {
      fee, seen := 0, Seen(false, EvmSstore.Slot(0, 0));
      var ok := contract.UseGas(o.gas);
      if !ok {
        err := OutOfGas;
      } else if o.dyn == NoDyn {
        err := NoErr;
      } else {
        err, fee, seen := PrepareDynamic(o, stack, mem, contract);
        OwnCostAtLeast(o, stack, rules, seen);
      }
    }

    /** The part of it for operations with dynamic gas. */
    method PrepareDynamic(o: Operation, stack: seq<Word>, mem: Memory, contract: Contract) returns (err: Err, fee: nat, ghost seen: Seen)
      requires WellFormed(o) && o.pops <= |stack| && mem.Valid()
      modifies this`callGasTemp, mem, contract`gas
      ensures contract.gas <= old(contract.gas) && err in {NoErr, OutOfGas, GasOverflow}
      ensures err == NoErr <==>
                && WantedSize(o, stack) <= MAX_MEM
                && Pays(o, stack, rules, seen, GrowthFee(|old(mem.store)|, WantedSize(o, stack)), old(contract.gas))
      ensures err == NoErr ==>
                && fee == GrowthFee(|old(mem.store)|, WantedSize(o, stack)) == mem.lastGasCost - old(mem.lastGasCost)
                && contract.gas == old(contract.gas) - TotalCost(o, stack, rules, seen, fee, old(contract.gas))
                && mem.Valid() && old(mem.store) <= mem.store && InMemory(o, stack, |mem.store|)
                && (o.dyn.CallGas? ==> callGasTemp == ForCallee(o, stack, rules, old(contract.gas), fee + OwnCost(o, stack, rules, seen)))
    {
      fee, seen := 0, Seen(false, EvmSstore.Slot(0, 0));
      var size := MemSize(o.ranges, stack);
      if size == None || ToWordSize(size.value) * 32 >= TWO64 {
        err := GasOverflow;
        return;
      }
      WantedFits(o, stack);
      var ok;
      ok, fee, seen := Pay(o, stack, mem, contract, ToWordSize(size.value) * 32);
      if ok {
        InLargerMemory(o, stack, WantedSize(o, stack), |mem.store|);
      }
      err := if ok then NoErr else OutOfGas;
    }

    /** Charges for the operation and grows the memory to the size it needs. */
    method Pay(o: Operation, stack: seq<Word>, mem: Memory, contract: Contract, memorySize: u64)
      returns (ok: bool, fee: nat, ghost seen: Seen)
      requires WellFormed(o) && o.pops <= |stack| && mem.Valid() && memorySize % 32 == 0
      modifies this`callGasTemp, mem, contract`gas
      ensures contract.gas <= old(contract.gas)
      ensures ok <==> && memorySize <= MAX_MEM && LengthFits(o, stack)
                      && Pays(o, stack, rules, seen, GrowthFee(|old(mem.store)|, memorySize), old(contract.gas))
      ensures ok ==>
                && fee == GrowthFee(|old(mem.store)|, memorySize) == mem.lastGasCost - old(mem.lastGasCost)
                && contract.gas == old(contract.gas) - TotalCost(o, stack, rules, seen, fee, old(contract.gas))
                && mem.Valid() && old(mem.store) <= mem.store && |mem.store| >= memorySize
                && (o.dyn.CallGas? ==> callGasTemp == ForCallee(o, stack, rules, old(contract.gas), fee + OwnCost(o, stack, rules, seen)))
    {
      fee := 0;
      var before := mem.lastGasCost;
      var cost;
      cost, seen := DynamicGas(o, stack, mem, memorySize, contract.gas);
      if cost == None {
        ok := false;
        return;
      }
      ok := contract.UseGas(cost.value);
      if ok {
        mem.Resize(memorySize);
        fee := mem.lastGasCost - before;
      }
    }

    /** One turn of the run loop. Popping from a too short stack, reading or writing
        outside memory and overflowing the gas counter cannot happen: they are the
        preconditions of the operations called here. */
    method Step(pc: nat, stack: seq<Word>, mem: Memory, contract: Contract)
      returns (err: Err, pc': nat, stack': seq<Word>, ret: Code, fee: nat)
      requires contract.Valid() && mem.Valid() && PcOk(contract.code, pc) && |stack| <= STACK_LIMIT
      modifies this, mem, contract, contract.jumpdests
      ensures contract.Valid() && contract.gas <= old(contract.gas)
      ensures depth == old(depth) && readOnly == old(readOnly) && |ret| <= MAX_MEM && InFrame(err)
      ensures readOnly ==> Untouched(old(world), world)
      ensures err == NoErr ==> contract.gas < old(contract.gas) && PcOk(contract.code, pc') && |stack'| <= STACK_LIMIT
      ensures err == NoErr ==> LeadsTo(old(Here(pc, stack, mem, contract)), contract.code, pc', |stack'|, |mem.store|)
      ensures err != NoErr ==> StopsWith(Istanbul(contract.GetOp(pc)), err)
      ensures err in {NoErr, StopToken, Reverted} ==> mem.Valid() && fee == mem.lastGasCost - old(mem.lastGasCost)
      decreases contract.gas, 2
    {
      pc', stack', ret, fee := pc, stack, [], 0;
      var o := Lookup(contract.GetOp(pc));
      if |stack| < MinStack(o) || |stack| > MaxStack(o) {
        return StackErr, pc', stack', ret, fee;
      }
      ghost var gas0 := contract.gas;
      ghost var seen;
      err, fee, seen := Prepare(o, stack, mem, contract);
      if err != NoErr {
        return;
      }
      err, pc', stack', ret := Execute(o, pc, stack, mem, contract, if Ends(o) then gas0 else gas0 - 1);
    }

    /** What the tracer captures before a turn. */
    static ghost function Here(pc: nat, stack: seq<Word>, mem: Memory, contract: Contract): Entry
      reads mem, contract
    {
      Entry(pc, contract.GetOp(pc), contract.gas, |stack|, |mem.store|)
    }

    /** The row of the jump table. */
    method Lookup(op: byte) returns (o: Operation)
      ensures o == Istanbul(op) && WellFormed(o) && PushLen(op) == if o.exec.Push? then o.exec.n else 0
    {
      IstanbulWellFormed(op);
      o := Istanbul(op);
    }

    /** operation.execute, and the step of the program counter after it. */
    method Execute(o: Operation, pc: nat, stack: seq<Word>, mem: Memory, contract: Contract, ghost cap: nat)
      returns (err: Err, pc': nat, stack': seq<Word>, ret: Code)
      requires WellFormed(o) && PushLen(contract.GetOp(pc)) == (if o.exec.Push? then o.exec.n else 0)
      requires contract.Valid() && mem.Valid() && PcOk(contract.code, pc)
      requires o.pops <= |stack| <= MaxStack(o) && InMemory(o, stack, |mem.store|)
      requires contract.gas <= cap < TWO64
      requires pc < |contract.code| || o.exec.Halt?
      requires IsCall(o) ==> contract.gas + callGasTemp + (if CallValue(o, stack) != 0 then CALL_STIPEND else 0) <= cap
      modifies this, mem`store, contract, contract.jumpdests
      ensures contract.Valid() && contract.gas <= cap && mem.Valid()
      ensures depth == old(depth) && readOnly == old(readOnly) && |ret| <= MAX_MEM && InFrame(err)
      ensures readOnly ==> Untouched(old(world), world)
      ensures err == NoErr ==> !Ends(o) && PcOk(contract.code, pc') && |stack'| <= STACK_LIMIT
      ensures err == NoErr ==> Continues(o, contract.code, pc, pc') && |stack'| == |stack| - o.pops + o.pushes
      ensures err != NoErr ==> StopsWith(o, err)
      ensures |mem.store| == |old(mem.store)|
      decreases if Ends(o) then 0 else cap + 1, 1
    {
      pc', ret, stack' := pc, [], stack;
      if Ends(o) {
        err, ret := ExecuteEnd(o, stack, mem);
      } else if OnStack(o) {
        var next;
        err, next, stack' := ExecuteStack(o, pc, stack, mem, contract);
        if err == NoErr {
          pc' := next + 1;
        }
      } else {
        NextOf(contract, pc);
        err, stack' := ExecuteAside(o, stack, mem, contract, cap);
        pc' := pc + 1;
      }
    }

    /** Operations that leave the program counter alone and touch more than the stack. */
    method ExecuteAside(o: Operation, stack: seq<Word>, mem: Memory, contract: Contract, ghost cap: nat)
      returns (err: Err, stack': seq<Word>)
      requires WellFormed(o) && !Ends(o) && !OnStack(o)
      requires contract.Valid() && mem.Valid()
      requires o.pops <= |stack| <= MaxStack(o) && InMemory(o, stack, |mem.store|)
      requires contract.gas <= cap < TWO64
      requires IsCall(o) ==> contract.gas + callGasTemp + (if CallValue(o, stack) != 0 then CALL_STIPEND else 0) <= cap
      modifies this, mem`store, contract, contract.jumpdests
      ensures contract.Valid() && contract.gas <= cap && |mem.store| == |old(mem.store)|
      ensures depth == old(depth) && readOnly == old(readOnly) && InFrame(err) && (err == NoErr || StopsWith(o, err))
      ensures readOnly ==> Untouched(old(world), world)
      ensures err == NoErr ==> |stack'| == |stack| - o.pops + o.pushes
      decreases cap + 1, 0
    {
      ghost var sub, source;
      if IsCall(o) {
        err, stack', sub := OpCall(o, stack, mem, contract, cap);
      } else if OnMemory(o) {
        err, stack', source := ExecuteMemory(o, stack, mem, contract);
      } else {
        err, stack', sub := OpCreate(o, stack, mem, contract, cap);
      }
    }

    static lemma NextOf(contract: Contract, pc: nat)
      requires PcOk(contract.code, pc) && PushLen(contract.GetOp(pc)) == 0
      ensures PcOk(contract.code, pc + 1)
    {
      AtNext(contract.code, pc);
    }

    /** The loop of Run. memPaid is the gas charged for memory over the frame. */
    method RunLoop(contract: Contract) returns (ret: Code, err: Err, trace: seq<Entry>, memPaid: nat, memLen: nat)
      requires contract.Valid()
      modifies this, contract, contract.jumpdests
      ensures contract.Valid() && contract.gas <= old(contract.gas)
      ensures depth == old(depth) && readOnly == old(readOnly) && |ret| <= MAX_MEM && err != NoErr && InFrame(err)
      ensures readOnly ==> Untouched(old(world), world)
      ensures Traced(trace, contract.code, old(contract.gas))
      ensures Linked(trace, contract.code, old(contract.gas)) && EndsTrace(trace, err)
      ensures err in {StopToken, Reverted} ==> memPaid == MemCost(memLen / 32)
      decreases contract.gas, 3
    {
      var mem := new Memory();
      var stack: seq<Word> := [];
      var pc: nat := 0;
      ret, err, trace, memPaid := [], NoErr, [], 0;
      while err == NoErr
        invariant contract.Valid() && fresh(mem) && contract.gas <= old(contract.gas)
        invariant depth == old(depth) && readOnly == old(readOnly) && |ret| <= MAX_MEM && InFrame(err)
        invariant readOnly ==> Untouched(old(world), world)
        invariant err == NoErr ==> mem.Valid() && PcOk(contract.code, pc) && |stack| <= STACK_LIMIT
        invariant err in {NoErr, StopToken, Reverted} ==> mem.Valid() && memPaid == mem.lastGasCost
        invariant if err == NoErr then OnTrace(trace, contract.code, old(contract.gas), Here(pc, stack, mem, contract))
                  else Ran(trace, contract.code, old(contract.gas), err)
        decreases err == NoErr, contract.gas
      {
        ghost var before, here := trace, Here(pc, stack, mem, contract);
        trace := trace + [Entry(pc, contract.GetOp(pc), contract.gas, |stack|, |mem.store|)];
        var fee;
        err, pc, stack, ret, fee := Step(pc, stack, mem, contract);
        if err == NoErr {
          TraceGoesOn(before, contract.code, old(contract.gas), here, Here(pc, stack, mem, contract));
        } else {
          TraceStops(before, contract.code, old(contract.gas), here, err);
        }
        memPaid := memPaid + fee;
      }
      memLen := |mem.store|;
    }

    /** The frame ended at the last entry. */
    static ghost predicate EndsTrace(trace: seq<Entry>, err: Err) {
      trace != [] && StopsWith(Istanbul(trace[|trace| - 1].op), err)
    }

    static ghost predicate Ran(trace: seq<Entry>, code: seq<byte>, gas: nat, err: Err) {
      Traced(trace, code, gas) && Linked(trace, code, gas) && EndsTrace(trace, err)
    }

    /** The entries so far, and the one that comes next. */
    static ghost predicate OnTrace(trace: seq<Entry>, code: seq<byte>, gas: nat, next: Entry) {
      && Traced(trace, code, gas) && Linked(trace, code, gas)
      && PcOk(code, next.pc) && next.stackLen <= STACK_LIMIT && next.gas <= gas && next.op == OpAt(code, next.pc)
      && (forall i | 0 <= i < |trace| :: trace[i].gas > next.gas)
      && if trace == [] then next == Entry(0, OpAt(code, 0), gas, 0, 0)
         else LeadsTo(trace[|trace| - 1], code, next.pc, next.stackLen, next.memLen)
    }

    static lemma TraceGoesOn(trace: seq<Entry>, code: seq<byte>, gas: nat, next: Entry, then_: Entry)
      requires OnTrace(trace, code, gas, next) && LeadsTo(next, code, then_.pc, then_.stackLen, then_.memLen)
      requires PcOk(code, then_.pc) && then_.stackLen <= STACK_LIMIT && then_.gas < next.gas && then_.op == OpAt(code, then_.pc)
      ensures OnTrace(trace + [next], code, gas, then_)
    {
      OneMore(trace, code, gas, next);
    }

    static lemma TraceStops(trace: seq<Entry>, code: seq<byte>, gas: nat, next: Entry, err: Err)
      requires OnTrace(trace, code, gas, next) && StopsWith(Istanbul(next.op), err)
      ensures Ran(trace + [next], code, gas, err)
    {
      OneMore(trace, code, gas, next);
    }

    static lemma OneMore(trace: seq<Entry>, code: seq<byte>, gas: nat, next: Entry)
      requires OnTrace(trace, code, gas, next)
      ensures Traced(trace + [next], code, gas) && Linked(trace + [next], code, gas)
    {
    }

    /** Gas that falls at every entry bounds the number of entries. */
    static lemma {:induction false} TraceLength(trace: seq<Entry>, code: seq<byte>, gas: nat)
      requires Traced(trace, code, gas)
      ensures |trace| <= gas + 1
    {
      if |trace| > 1 {
        assert trace[0].gas > trace[1].gas;
        TraceLength(trace[1..], code, trace[1].gas);
      }
    }

    /** Run: executes a frame to its end. It terminates whatever the code does, because
        every turn that goes on costs gas and every nested frame gets less gas than its
        caller had. */
    method Run(contract: Contract, asStatic: bool)
      returns (ret: Code, err: Err, trace: seq<Entry>, memPaid: nat, memLen: nat)
      requires contract.Valid()
      modifies this, contract, contract.jumpdests
      ensures contract.Valid() && contract.gas <= old(contract.gas)
      ensures depth == old(depth) && readOnly == old(readOnly)
      ensures |ret| <= MAX_MEM && err != StopToken && InFrame(err)
      ensures readOnly || asStatic ==> Untouched(old(world), world)
      ensures Traced(trace, contract.code, old(contract.gas)) && |trace| <= old(contract.gas) + 1
      ensures Linked(trace, contract.code, old(contract.gas))
      ensures if contract.code == [] then trace == [] && err == NoErr else EndsTrace(trace, if err == NoErr then StopToken else err)
      ensures err in {NoErr, Reverted} ==> memPaid == MemCost(memLen / 32)
      decreases contract.gas, 4, 0
    {
      depth := depth + 1;
      var entered := asStatic && !readOnly;
      if entered {
        readOnly := true;
      }
      returnData := [];
      if |contract.code| == 0 {
        ret, err, trace, memPaid, memLen := [], NoErr, [], 0, 0;
      } else {
        ret, err, trace, memPaid, memLen := RunLoop(contract);
        TraceLength(trace, contract.code, old(contract.gas));
      }
      if err == StopToken {
        err := NoErr;
      }
      if entered {
        readOnly := false;
      }
      depth := depth - 1;
    }
  }
}
