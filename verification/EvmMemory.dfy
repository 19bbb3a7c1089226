/** Memory and its gas: core/evm/memory.go, memoryGasCost of core/evm/gas_table.go and
    the size functions of core/evm/common.go. */
module EvmMemory {
  import opened Bytes
  import opened EvmContract
  import opened Wrappers

  const MAX_MEM: nat := 0x1FFFFFFFE0

  /** Cost of w words (Yellow Paper, Appendix H.1). */
  function MemCost(w: nat): nat {
    3 * w + w * w / 512
  }

  lemma SquareMono(v: nat, w: nat)
    requires v <= w
    ensures v * v <= w * w
  {
    assert v * v <= v * w <= w * w;
  }

  lemma MemCostMono(v: nat, w: nat)
    requires v <= w
    ensures MemCost(v) <= MemCost(w)
  {
    SquareMono(v, w);
  }

  /** No step of the cost computation leaves uint64 for up to 2^32 - 1 words. */
  lemma MemCostFits(w: nat)
    requires w <= 0xFFFFFFFF
    ensures w * w < TWO64 && 3 * w < TWO64 && MemCost(w) < TWO64
  {
    SquareMono(w, 0xFFFFFFFF);
  }

  function ToWordSize(size: u64): (r: u64)
    ensures r == (size + 31) / 32 && 32 * r >= size && 32 * r < size + 32
  {
    if size > TWO64 - 1 - 31 then (TWO64 - 1) / 32 + 1 else (size + 31) / 32
  }

  /** calcMemSize64: the end of a range, None on uint64 overflow. */
  function CalcMemSize(off: Word, len: Word): (r: Option<u64>)
    ensures r.Some? ==> r.value == if len > 0 then off + len else 0
    ensures r.None? <==> len > 0 && (off >= TWO64 || off + len >= TWO64)
  {
    if len >= TWO64 then None
    else if len == 0 then Some(0)
    else if off >= TWO64 || off + len >= TWO64 then None
    else Some(off + len)
  }

  class Memory {
    var store: seq<byte>
    var lastGasCost: u64

    ghost predicate Valid()
      reads this
    {
      |store| % 32 == 0 && |store| <= MAX_MEM && lastGasCost == MemCost(|store| / 32)
    }

    constructor ()
      ensures Valid() && store == [] && lastGasCost == 0
    {
      store, lastGasCost := [], 0;
    }

    /** memoryGasCost: the fee for growing to newMemSize bytes. */
    method MemoryGasCost(newMemSize: u64) returns (fee: Option<u64>)
      requires Valid() && newMemSize % 32 == 0
      modifies this`lastGasCost
      ensures fee == None <==> newMemSize > MAX_MEM
      ensures fee.Some? ==>
                && lastGasCost == old(lastGasCost) + fee.value
                && lastGasCost == MemCost((if newMemSize > |store| then newMemSize else |store|) / 32)
    {
      if newMemSize == 0 {
        return Some(0);
      }
      if newMemSize > 0x1FFFFFFFE0 {
        return None;
      }
      var newMemSizeWords := ToWordSize(newMemSize);
      if newMemSizeWords * 32 > |store| {
        MemCostFits(newMemSizeWords);
        MemCostMono(|store| / 32, newMemSizeWords);
        var square: u64 := newMemSizeWords * newMemSizeWords;
        var linCoef: u64 := newMemSizeWords * 3;
        var quadCoef: u64 := square / 512;
        var newTotalFee: u64 := linCoef + quadCoef;
        fee := Some(newTotalFee - lastGasCost);
        lastGasCost := newTotalFee;
      } else {
        fee := Some(0);
      }
    }

    method Resize(size: u64)
      modifies this`store
      ensures |store| == if |old(store)| < size then size else |old(store)|
      ensures old(store) <= store && forall i | |old(store)| <= i < |store| :: store[i] == 0
    {
      if |store| < size {
        store := store + Zeros(size - |store|);
      }
    }

    /** Set. The precondition is what the source panics on. */
    method Set(offset: u64, size: u64, value: seq<byte>)
      requires size > 0 ==> offset + size <= |store|
      modifies this`store
      ensures |store| == |old(store)|
      ensures forall i | 0 <= i < |store| ::
                store[i] == if size > 0 && offset <= i < offset + size && i - offset < |value| then value[i - offset] else old(store)[i]
    {
      if size > 0 {
        var n := if |value| < size then |value| else size;
        store := store[..offset] + value[..n] + store[offset + n..];
      }
    }

    /** Set32. The precondition is what the source panics on. */
    method Set32(offset: u64, val: Word)
      requires offset + 32 <= |store|
      modifies this`store
      ensures |store| == |old(store)| && store[offset..offset + 32] == ToBE(val, 32)
      ensures store[..offset] == old(store)[..offset] && store[offset + 32..] == old(store)[offset + 32..]
    {
      store := store[..offset] + ToBE(val, 32) + store[offset + 32..];
    }

    /** GetPtr and GetCopy. The precondition is what slicing needs. */
    method GetPtr(offset: u64, size: u64) returns (r: seq<byte>)
      requires size > 0 ==> offset + size <= |store|
      ensures r == if size == 0 then [] else store[offset..offset + size]
    {
      if size == 0 {
        return [];
      }
      r := store[offset..offset + size];
    }
  }

  /** Expansions to the given word counts, in order, each charging the difference. */
  function Charged(from: nat, sizes: seq<nat>): nat
    decreases |sizes|
  {
    if sizes == [] then 0
    else
      var to := if sizes[0] > from then sizes[0] else from;
      MemCostMono(from, to);
      MemCost(to) - MemCost(from) + Charged(to, sizes[1..])
  }

  function Largest(from: nat, sizes: seq<nat>): (r: nat)
    ensures r >= from
    decreases |sizes|
  {
    if sizes == [] then from else Largest(if sizes[0] > from then sizes[0] else from, sizes[1..])
  }

  /** Memory gas telescopes: the total depends only on the largest size reached. */
  lemma {:induction false} ChargesTelescope(from: nat, sizes: seq<nat>)
    ensures MemCost(from) + Charged(from, sizes) == MemCost(Largest(from, sizes))
    decreases |sizes|
  {
    if sizes != [] {
      ChargesTelescope(if sizes[0] > from then sizes[0] else from, sizes[1..]);
    }
  }
}
