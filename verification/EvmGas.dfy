/** What the state database, the block context, the arithmetic on words and the
    precompiles answer. Callers learn nothing about the answers, so what is proved about
    them holds whatever the answers are. */
module EvmHost {
  import opened Bytes
  import opened EvmContract

  method AnyWord() returns (w: Word) {
    w :| w >= 0;
  }

  method AnyBool() returns (b: bool) {
    b :| b || !b;
  }

  method AnyBytes() returns (b: Code) {
    b :| |b| >= 0;
  }

  method AnyState() returns (s: int) {
    s :| s == s;
  }
}

/** Dynamic gas: core/evm/gas_table.go and callGas of core/evm/gas.go. */
module EvmGas {
  import opened Bytes
  import opened EvmContract
  import opened Wrappers
  import opened EvmMemory
  import opened EvmTable
  import opened EvmHost
  import opened EvmSstore

  datatype Rules = Rules(isEIP150: bool, isEIP158: bool, isHomestead: bool)

  /** What the gas functions learn from the state: whether the account must be paid for
      as a new one, and the slot that is stored to. */
  datatype Seen = Seen(isNew: bool, slot: Slot)

  /** (BitLen() + 7) / 8. */
  function ByteLen(n: nat): nat {
    if n == 0 then 0 else 1 + ByteLen(n / 256)
  }

  lemma WordBound()
    ensures Pow256(32) == 0x1_0000000000000000_0000000000000000_0000000000000000_0000000000000000
  {
    assert Pow256(8) == TWO64;
    Pow256Add(8, 8);
    Pow256Add(16, 16);
  }

  lemma {:induction false} ByteLenBound(n: nat, k: nat)
    requires n < Pow256(k)
    ensures ByteLen(n) <= k
  {
    if n > 0 {
      ByteLenBound(n / 256, k - 1);
    }
  }

  /** The value that a call hands over. */
  function CallValue(o: Operation, stack: seq<Word>): Word
    requires WellFormed(o) && o.pops <= |stack|
  {
    if o.exec.Call? || o.exec.CallCode? then Back(stack, 2) else 0
  }

  /** The part of the gas that comes neither from memory nor from the callee, in
      unbounded arithmetic (Appendix G of the Yellow Paper, EIP-2200). */
  function OwnCost(o: Operation, stack: seq<Word>, rules: Rules, seen: Seen): nat
    requires WellFormed(o) && o.pops <= |stack|
  {
    match o.dyn
    case Words(i, perWord) => perWord * ((Back(stack, i) + 31) / 32)
    case LogGas(n) => 375 + 375 * n + 8 * Back(stack, 1)
    case ExpGas => 10 + 50 * ByteLen(Back(stack, 1))
    case SstoreGas => Clauses(EIP2200, seen.slot.original, seen.slot.current, Back(stack, 1)).0
    case CallGas => (if o.exec.Call? && seen.isNew then 25000 else 0) + (if CallValue(o, stack) != 0 then 9000 else 0)
    case SelfdestructGas => if !rules.isEIP150 then 0 else if seen.isNew then 30000 else 5000
    case _ => 0
  }

  /** Gas for the callee out of what is left when base is paid: at most all but a 64th of
      it (EIP-150), or what is asked for. */
  function ForCallee(o: Operation, stack: seq<Word>, rules: Rules, gas: nat, base: nat): nat
    requires WellFormed(o) && o.pops <= |stack|
  {
    if !o.dyn.CallGas? then 0
    else
      var asked := Back(stack, 0);
      var left := if base <= gas then gas - base else 0;
      if rules.isEIP150 && left - left / 64 < asked then left - left / 64 else asked
  }

  /** The dynamic gas of an operation that finds gas and grows memory at the given fee. */
  function TotalCost(o: Operation, stack: seq<Word>, rules: Rules, seen: Seen, fee: nat, gas: nat): nat
    requires WellFormed(o) && o.pops <= |stack|
  {
    fee + OwnCost(o, stack, rules, seen) + ForCallee(o, stack, rules, gas, fee + OwnCost(o, stack, rules, seen))
  }

  /** gas pays for the operation, and for a store it is above the sentry of EIP-2200. */
  predicate Pays(o: Operation, stack: seq<Word>, rules: Rules, seen: Seen, fee: nat, gas: nat)
    requires WellFormed(o) && o.pops <= |stack|
  {
    (o.dyn.SstoreGas? ==> gas > 2300) && TotalCost(o, stack, rules, seen, fee, gas) <= gas
  }

  /** Fee for a memory of have bytes to grow to want bytes. */
  function GrowthFee(have: nat, want: nat): nat {
    MemCostMono(have / 32, if want > have then want / 32 else have / 32);
    MemCost((if want > have then want else have) / 32) - MemCost(have / 32)
  }

  lemma OwnCostAtLeast(o: Operation, stack: seq<Word>, rules: Rules, seen: Seen)
    requires WellFormed(o) && o.pops <= |stack|
    ensures o.dyn.ExpGas? || o.dyn.LogGas? || o.dyn.SstoreGas? ==> OwnCost(o, stack, rules, seen) >= 1
    ensures o.dyn.CallGas? && CallValue(o, stack) != 0 ==> OwnCost(o, stack, rules, seen) >= 9000
  {
  }

  function SafeAdd(a: u64, b: u64): (r: Option<u64>)
    ensures r == if a + b < TWO64 then Some(a + b) else None
  {
    if a + b >= TWO64 then None else Some(a + b)
  }

  function SafeMul(a: u64, b: u64): Option<u64> {
    if a * b >= TWO64 then None else Some(a * b)
  }

  /** The length operand that a gas function reads is a uint64. */
  predicate LengthFits(o: Operation, stack: seq<Word>)
    requires WellFormed(o) && o.pops <= |stack|
  {
    match o.dyn
    case Words(i, _) => Back(stack, i) < TWO64
    case LogGas(_) => Back(stack, 1) < TWO64
    case _ => true
  }

  /** The gas functions without memory and callee: they fail exactly where a length is no
      uint64 or the cost is none. */
  method ExtraGas(o: Operation, stack: seq<Word>, rules: Rules) returns (gas: Option<u64>, ghost seen: Seen)
    requires WellFormed(o) && o.pops <= |stack|
    ensures gas.Some? <==> LengthFits(o, stack) && OwnCost(o, stack, rules, seen) < TWO64
    ensures gas.Some? ==> gas.value == OwnCost(o, stack, rules, seen)
  {
    var isNew := false;
    var original, current := 0, 0;
    match o.dyn {
      case Words(i, perWord) =>
        gas := WordGas(Back(stack, i), perWord);
      case LogGas(n) =>
        gas := LogDataGas(Back(stack, 1), n);
      case ExpGas =>
        WordBound();
        ByteLenBound(Back(stack, 1), 32);
        gas := Some(ByteLen(Back(stack, 1)) * 50 + 10);
      case SstoreGas =>
        current := AnyWord();
        original := AnyWord();
        gas := Some(Clauses(EIP2200, original, current, Back(stack, 1)).0);
      case CallGas =>
        isNew := NewAccount(rules, CallValue(o, stack) != 0);
        gas := Some((if o.exec.Call? && isNew then 25000 else 0) + (if CallValue(o, stack) != 0 then 9000 else 0));
      case SelfdestructGas =>
        var hasBalance := AnyBool();
        isNew := NewAccount(rules, hasBalance);
        gas := Some(if rules.isEIP150 then (if isNew then 5000 + 25000 else 5000) else 0);
      case _ =>
        gas := Some(0);
    }
    seen := Seen(isNew, Slot(original, current));
  }

  /** From EIP-158 on only an account that gets value counts as new. */
  method NewAccount(rules: Rules, transfersValue: bool) returns (isNew: bool)
    ensures rules.isEIP158 && !transfersValue ==> !isNew
  {
    var missing := AnyBool();
    isNew := if rules.isEIP158 then transfersValue && missing else missing;
  }

  /** The per-word part of memoryCopierGas, gasKeccak256 and gasCreate2. */
  method WordGas(length: Word, perWord: nat) returns (gas: Option<u64>)
    requires perWord <= 6
    ensures gas == if length < TWO64 then Some(perWord * ((length + 31) / 32)) else None
  {
    if length >= TWO64 {
      return None;
    }
    gas := SafeMul(ToWordSize(length), perWord);
  }

  /** The part of makeGasLog behind memory. */
  method LogDataGas(size: Word, n: nat) returns (gas: Option<u64>)
    requires n <= 4
    ensures gas.Some? <==> size < TWO64 && 375 + 375 * n + 8 * size < TWO64
    ensures gas.Some? ==> gas.value == 375 + 375 * n + 8 * size
  {
    if size >= TWO64 {
      return None;
    }
    var cost := size * 8 + 375 + n * 375;
    gas := if cost >= TWO64 then None else Some(cost);
  }

  /** callGas, with the wrap-around of availableGas - base. */
  function CallGasFor(isEip150: bool, availableGas: u64, base: u64, callCost: Word): Option<u64> {
    var left := (availableGas - base) % TWO64;
    var gas := left - left / 64;
    if isEip150 && (callCost >= TWO64 || gas < callCost) then Some(gas)
    else if callCost >= TWO64 then None
    else Some(callCost)
  }

  /** Where the total is within the gas at hand, callGas is what the callee may get; where
      it is not, the wrapped figure does not make the total look affordable. */
  lemma CallGasIsForCallee(o: Operation, stack: seq<Word>, rules: Rules, gas: u64, base: u64)
    requires WellFormed(o) && o.pops <= |stack| && o.dyn.CallGas?
    ensures var r, c := CallGasFor(rules.isEIP150, gas, base, Back(stack, 0)), ForCallee(o, stack, rules, gas, base);
            && (base + c <= gas ==> r == Some(c))
            && (r.Some? && base + r.value <= gas ==> r.value == c)
  {
    if base <= gas {
      assert (gas - base) % TWO64 == gas - base;
    }
  }
}
