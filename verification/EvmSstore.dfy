/** Net-metered SSTORE: gasSStore (EIP-1283, and the legacy rule) and gasSStoreEIP2200
    of core/evm/gas_table.go, over any number of storage slots. */
module EvmSstore {

  /** A slot's value at the start of the transaction and its value now. */
  datatype Slot = Slot(original: nat, current: nat)

  /** The constants of one net-metering scheme. */
  datatype Scheme = Scheme(base: nat, init: nat, clean: nat, clearRefund: nat, resetRefund: nat, resetClearRefund: nat)

  const EIP1283 := Scheme(200, 20000, 5000, 15000, 4800, 19800)
  const EIP2200 := Scheme(800, 20000, 5000, 15000, 5000 - 800, 20000 - 800)

  /** A reset refunds what the first write cost above a dirty write. */
  predicate Balanced(p: Scheme) {
    p.base + p.resetRefund == p.clean && p.base + p.resetClearRefund == p.init
  }

  lemma BothBalanced()
    ensures Balanced(EIP1283) && Balanced(EIP2200)
  {
  }

  /** What the slot's difference from its original value is worth. */
  function Worth(p: Scheme, original: nat, value: nat): int {
    if value == original then 0
    else if original == 0 then p.init - p.base
    else if value == 0 then p.clean - p.base - p.clearRefund
    else p.clean - p.base
  }

  /** Refund that a slot holds for being cleared. */
  function ClearHeld(p: Scheme, s: Slot): nat {
    if s.original != 0 && s.current == 0 then p.clearRefund else 0
  }

  function SumHeld(p: Scheme, slots: seq<Slot>): nat {
    if slots == [] then 0 else SumHeld(p, slots[..|slots| - 1]) + ClearHeld(p, slots[|slots| - 1])
  }

  lemma {:induction false} SumHeldUpdate(p: Scheme, slots: seq<Slot>, i: nat, s: Slot)
    requires i < |slots|
    ensures SumHeld(p, slots[i := s]) == SumHeld(p, slots) - ClearHeld(p, slots[i]) + ClearHeld(p, s)
    ensures SumHeld(p, slots) >= ClearHeld(p, slots[i])
  {
    var n := |slots| - 1;
    if i == n {
      assert slots[i := s][..n] == slots[..n];
    } else {
      assert slots[i := s][..n] == slots[..n][i := s];
      SumHeldUpdate(p, slots[..n], i, s);
    }
  }

  /** The part of the state database that SSTORE gas works on. */
  class StateDB {
    var slots: seq<Slot>
    var refund: nat

    /** The refund counter covers every slot that is cleared now. */
    ghost predicate Covered(p: Scheme)
      reads this
    {
      refund >= SumHeld(p, slots)
    }

    constructor (originals: seq<nat>, p: Scheme)
      ensures |slots| == |originals| && forall i | 0 <= i < |originals| :: slots[i] == Slot(originals[i], originals[i])
      ensures refund == 0 && Covered(p)
    {
      slots := seq(|originals|, i requires 0 <= i < |originals| => Slot(originals[i], originals[i]));
      refund := 0;
      new;
      NothingHeld(p, slots);
    }

    static lemma {:induction false} NothingHeld(p: Scheme, slots: seq<Slot>)
      requires forall s | s in slots :: s.original == s.current
      ensures SumHeld(p, slots) == 0
    {
      if slots != [] {
        NothingHeld(p, slots[..|slots| - 1]);
      }
    }

    method AddRefund(gas: nat)
      modifies this`refund
      ensures refund == old(refund) + gas
    {
      refund := refund + gas;
    }

    /** SubRefund. The counter must never go below zero. */
    method SubRefund(gas: nat)
      requires refund >= gas
      modifies this`refund
      ensures refund == old(refund) - gas
    {
      refund := refund - gas;
    }

    /** The net-metered gas of storing value, which also moves the refund counter. */
    method GasNet(p: Scheme, i: nat, value: nat) returns (gas: nat)
      requires i < |slots| && Balanced(p) && Covered(p)
      modifies this`refund
      ensures (gas, refund - old(refund)) == Clauses(p, slots[i].original, slots[i].current, value)
      ensures refund >= SumHeld(p, slots[i := Slot(slots[i].original, value)])
    {
      var Slot(original, current) := slots[i];
      SumHeldUpdate(p, slots, i, Slot(original, value));
      if current == value {
        return p.base;
      }
      if original == current {
        if original == 0 {
          return p.init;
        }
        if value == 0 {
          AddRefund(p.clearRefund);
        }
        return p.clean;
      }
      if original != 0 {
        if current == 0 {
          SubRefund(p.clearRefund);
        } else if value == 0 {
          AddRefund(p.clearRefund);
        }
      }
      if original == value {
        if original == 0 {
          AddRefund(p.resetClearRefund);
        } else {
          AddRefund(p.resetRefund);
        }
      }
      gas := p.base;
    }

    /** The gas charge followed by the write. */
    method Store(p: Scheme, i: nat, value: nat) returns (gas: nat)
      requires i < |slots| && Balanced(p) && Covered(p)
      modifies this
      ensures slots == old(slots)[i := Slot(old(slots)[i].original, value)] && Covered(p)
      ensures gas == Clauses(p, old(slots)[i].original, old(slots)[i].current, value).0
      ensures gas - (refund - old(refund)) ==
              p.base + Worth(p, old(slots)[i].original, value) - Worth(p, old(slots)[i].original, old(slots)[i].current)
    {
      gas := GasNet(p, i, value);
      slots := slots[i := Slot(slots[i].original, value)];
    }

    /** The legacy rule, before Constantinople and from Petersburg on: net of refunds a
        store costs 5000 and the change of what the slot's being occupied is worth. Gas
        and refund are determined by that, since only one of them carries the change. */
    method GasLegacy(i: nat, value: nat) returns (gas: nat)
      requires i < |slots|
      modifies this`refund
      ensures gas - (refund - old(refund)) == 5000 + Occupied(value) - Occupied(slots[i].current)
      ensures gas >= 5000 && refund >= old(refund) && (gas == 5000 || refund == old(refund))
    {
      if slots[i].current == 0 && value != 0 {
        gas := 20000;
      } else if slots[i].current != 0 && value == 0 {
        AddRefund(15000);
        gas := 5000;
      } else {
        gas := 5000;
      }
    }

    /** Any sequence of stores to any slots under the legacy rule: what was paid net of
        refunds is 5000 per store and 15000 for each slot more that is occupied. */
    method StoreAllLegacy(writes: seq<(nat, nat)>) returns (paid: int)
      requires forall w | w in writes :: w.0 < |slots|
      modifies this
      ensures slots == Stored(old(slots), writes) && refund >= old(refund)
      ensures paid - (refund - old(refund)) == 5000 * |writes| + TotalOccupied(slots) - TotalOccupied(old(slots))
    {
      paid := 0;
      for k := 0 to |writes|
        invariant slots == Stored(old(slots), writes[..k]) && refund >= old(refund)
        invariant paid - (refund - old(refund)) == 5000 * k + TotalOccupied(slots) - TotalOccupied(old(slots))
      {
        var (i, value) := writes[k];
        StoredSnoc(old(slots), writes, k);
        var gas := GasLegacy(i, value);
        TotalOccupiedUpdate(slots, i, Slot(slots[i].original, value));
        slots := slots[i := Slot(slots[i].original, value)];
        paid := paid + gas;
      }
      assert writes[..|writes|] == writes;
    }

    /** Any sequence of stores to any slots: the refund counter never goes below zero,
        and what was paid net of refunds is a base per store plus, slot by slot, the
        worth of the final value. */
    method StoreAll(p: Scheme, writes: seq<(nat, nat)>) returns (paid: int)
      requires Balanced(p) && Covered(p)
      requires forall w | w in writes :: w.0 < |slots|
      modifies this
      ensures Covered(p) && slots == Stored(old(slots), writes) && paid == GasOf(p, old(slots), writes)
      ensures paid - (refund - old(refund)) == p.base * |writes| + TotalWorth(p, slots) - TotalWorth(p, old(slots))
    {
      paid := 0;
      for k := 0 to |writes|
        invariant Covered(p) && slots == Stored(old(slots), writes[..k]) && paid == GasOf(p, old(slots), writes[..k])
        invariant paid - (refund - old(refund)) == p.base * k + TotalWorth(p, slots) - TotalWorth(p, old(slots))
      {
        var (i, value) := writes[k];
        ghost var before := slots;
        StoredSnoc(old(slots), writes, k);
        GasSnoc(p, old(slots), writes, k);
        var gas := Store(p, i, value);
        TotalWorthUpdate(p, before, i, Slot(before[i].original, value));
        MulSucc(p.base, k);
        paid := paid + gas;
      }
      assert writes[..|writes|] == writes;
    }

    /** Stores mixed with nested calls. A call takes a snapshot of slots and counter and
        goes back to it when it fails, so the gas of a failed call is lost and its refunds
        are void. However the calls nest and whichever fail, the counter never goes below
        zero, and the gas that was not lost, paid, is accounted for as without calls. */
    method RunActs(p: Scheme, acts: seq<Act>) returns (paid: int)
      requires Balanced(p) && Covered(p) && InSlots(acts, |slots|)
      modifies this
      ensures Covered(p) && slots == Acted(old(slots), acts) && paid == KeptGas(p, old(slots), acts)
      ensures paid - (refund - old(refund)) == p.base * Kept(acts) + TotalWorth(p, slots) - TotalWorth(p, old(slots))
      decreases acts
    {
      paid := 0;
      for k := 0 to |acts|
        invariant Covered(p) && slots == Acted(old(slots), acts[..k]) && paid == KeptGas(p, old(slots), acts[..k])
        invariant paid - (refund - old(refund)) == p.base * Kept(acts[..k]) + TotalWorth(p, slots) - TotalWorth(p, old(slots))
      {
        KeptSnoc(p.base, acts, k);
        ActedSnoc(old(slots), acts, k);
        KeptGasSnoc(p, old(slots), acts, k);
        var spent := RunAct(p, acts[k]);
        paid := paid + spent;
      }
      assert acts[..|acts|] == acts;
    }

    method RunAct(p: Scheme, a: Act) returns (paid: int)
      requires Balanced(p) && Covered(p) && InSlots([a], |slots|)
      modifies this
      ensures Covered(p) && slots == ActedOn(old(slots), a) && paid == KeptGasOf(p, old(slots), a)
      ensures paid - (refund - old(refund)) == p.base * KeptBy(a) + TotalWorth(p, slots) - TotalWorth(p, old(slots))
      decreases a
    {
      ghost var before := slots;
      match a
      case Write(i, value) =>
        assert a in [a];
        paid := Store(p, i, value);
        TotalWorthUpdate(p, before, i, Slot(before[i].original, value));
      case Frame(acts, fails) =>
        assert a in [a];
        var snapshot := (slots, refund);
        paid := RunActs(p, acts);
        if fails {
          slots, refund, paid := snapshot.0, snapshot.1, 0;
        }
    }
  }

  /** The slots after the stores. */
  function Stored(slots: seq<Slot>, writes: seq<(nat, nat)>): (r: seq<Slot>)
    ensures |r| == |slots|
  {
    if writes == [] then slots
    else
      var front, (i, value) := Stored(slots, writes[..|writes| - 1]), writes[|writes| - 1];
      SetSlot(front, i, value)
  }

  /** The gas of the stores, one by one. */
  function GasOf(p: Scheme, slots: seq<Slot>, writes: seq<(nat, nat)>): nat {
    if writes == [] then 0
    else
      var k := |writes| - 1;
      GasOf(p, slots, writes[..k]) + GasAt(p, Stored(slots, writes[..k]), writes[k].0, writes[k].1)
  }

  function GasAt(p: Scheme, slots: seq<Slot>, i: nat, value: nat): nat {
    if i < |slots| then Clauses(p, slots[i].original, slots[i].current, value).0 else 0
  }

  function SetSlot(slots: seq<Slot>, i: nat, value: nat): (r: seq<Slot>)
    ensures |r| == |slots|
  {
    if i < |slots| then slots[i := Slot(slots[i].original, value)] else slots
  }

  lemma StoredSnoc(slots: seq<Slot>, writes: seq<(nat, nat)>, k: nat)
    requires k < |writes|
    ensures Stored(slots, writes[..k + 1]) == SetSlot(Stored(slots, writes[..k]), writes[k].0, writes[k].1)
    ensures writes[k] in writes
  {
    assert writes[..k + 1][..k] == writes[..k];
  }

  lemma GasSnoc(p: Scheme, slots: seq<Slot>, writes: seq<(nat, nat)>, k: nat)
    requires k < |writes|
    ensures GasOf(p, slots, writes[..k + 1]) ==
            GasOf(p, slots, writes[..k]) + GasAt(p, Stored(slots, writes[..k]), writes[k].0, writes[k].1)
  {
    assert writes[..k + 1][..k] == writes[..k];
  }

  /** The slots after the acts: what failed calls did is undone. */
  function Acted(slots: seq<Slot>, acts: seq<Act>): (r: seq<Slot>)
    ensures |r| == |slots|
    decreases acts
  {
    if acts == [] then slots else ActedOn(Acted(slots, acts[..|acts| - 1]), acts[|acts| - 1])
  }

  function ActedOn(slots: seq<Slot>, a: Act): (r: seq<Slot>)
    ensures |r| == |slots|
    decreases a
  {
    match a
    case Write(i, value) => SetSlot(slots, i, value)
    case Frame(acts, fails) => if fails then slots else Acted(slots, acts)
  }

  /** The gas that failed calls do not lose. */
  function KeptGas(p: Scheme, slots: seq<Slot>, acts: seq<Act>): nat
    decreases acts
  {
    if acts == [] then 0
    else
      var k := |acts| - 1;
      KeptGas(p, slots, acts[..k]) + KeptGasOf(p, Acted(slots, acts[..k]), acts[k])
  }

  function KeptGasOf(p: Scheme, slots: seq<Slot>, a: Act): nat
    decreases a
  {
    match a
    case Write(i, value) => GasAt(p, slots, i, value)
    case Frame(acts, fails) => if fails then 0 else KeptGas(p, slots, acts)
  }

  lemma KeptGasSnoc(p: Scheme, slots: seq<Slot>, acts: seq<Act>, k: nat)
    requires k < |acts|
    ensures KeptGas(p, slots, acts[..k + 1]) == KeptGas(p, slots, acts[..k]) + KeptGasOf(p, Acted(slots, acts[..k]), acts[k])
  {
    assert acts[..k + 1][..k] == acts[..k];
  }

  lemma ActedSnoc(slots: seq<Slot>, acts: seq<Act>, k: nat)
    requires k < |acts|
    ensures Acted(slots, acts[..k + 1]) == ActedOn(Acted(slots, acts[..k]), acts[k])
  {
    assert acts[..k + 1][..k] == acts[..k];
  }

  /** A store, or a nested call that does something and then fails or not. */
  datatype Act = Write(i: nat, value: nat) | Frame(acts: seq<Act>, fails: bool)

  /** Every store is to one of n slots. */
  predicate InSlots(acts: seq<Act>, n: nat) {
    forall a | a in acts :: if a.Write? then a.i < n else InSlots(a.acts, n)
  }

  /** Number of stores outside failed calls. */
  function Kept(acts: seq<Act>): nat {
    if acts == [] then 0 else Kept(acts[..|acts| - 1]) + KeptBy(acts[|acts| - 1])
  }

  function KeptBy(a: Act): nat {
    match a
    case Write(_, _) => 1
    case Frame(acts, fails) => if fails then 0 else Kept(acts)
  }

  lemma KeptSnoc(base: nat, acts: seq<Act>, k: nat)
    requires k < |acts|
    ensures base * Kept(acts[..k + 1]) == base * Kept(acts[..k]) + base * KeptBy(acts[k])
  {
    assert acts[..k + 1][..k] == acts[..k];
  }

  /** What an occupied slot cost above an empty one, under the legacy rule. */
  function Occupied(value: nat): nat {
    if value != 0 then 15000 else 0
  }

  function TotalOccupied(slots: seq<Slot>): nat {
    if slots == [] then 0 else TotalOccupied(slots[..|slots| - 1]) + Occupied(slots[|slots| - 1].current)
  }

  lemma {:induction false} TotalOccupiedUpdate(slots: seq<Slot>, i: nat, s: Slot)
    requires i < |slots|
    ensures TotalOccupied(slots[i := s]) == TotalOccupied(slots) - Occupied(slots[i].current) + Occupied(s.current)
  {
    var n := |slots| - 1;
    if i == n {
      assert slots[i := s][..n] == slots[..n];
    } else {
      assert slots[i := s][..n] == slots[..n][i := s];
      TotalOccupiedUpdate(slots[..n], i, s);
    }
  }

  function TotalWorth(p: Scheme, slots: seq<Slot>): int {
    if slots == [] then 0
    else TotalWorth(p, slots[..|slots| - 1]) + Worth(p, slots[|slots| - 1].original, slots[|slots| - 1].current)
  }

  lemma {:induction false} TotalWorthUpdate(p: Scheme, slots: seq<Slot>, i: nat, s: Slot)
    requires i < |slots|
    ensures TotalWorth(p, slots[i := s]) ==
            TotalWorth(p, slots) - Worth(p, slots[i].original, slots[i].current) + Worth(p, s.original, s.current)
  {
    var n := |slots| - 1;
    if i == n {
      assert slots[i := s][..n] == slots[..n];
    } else {
      assert slots[i := s][..n] == slots[..n][i := s];
      TotalWorthUpdate(p, slots[..n], i, s);
    }
  }

  /** The clauses of EIP-1283 and EIP-2200 for one store: gas, and change of the refund
      counter. */
  function Clauses(p: Scheme, original: nat, current: nat, value: nat): (nat, int) {
    if current == value then (p.base, 0)
    else if original == current then
      if original == 0 then (p.init, 0)
      else (p.clean, if value == 0 then p.clearRefund else 0)
    else
      var cleared: int := if original == 0 then 0
                     else if current == 0 then 0 - p.clearRefund
                     else if value == 0 then p.clearRefund else 0;
      var reset := if original != value then 0 else if original == 0 then p.resetClearRefund else p.resetRefund;
      (p.base, cleared + reset)
  }

  /** Gas minus refunds of a run of stores to one slot. */
  function NetCost(p: Scheme, original: nat, current: nat, values: seq<nat>): int
    decreases |values|
  {
    if values == [] then 0
    else
      var (gas, refund) := Clauses(p, original, current, values[0]);
      gas - refund + NetCost(p, original, values[0], values[1..])
  }

  lemma ClausesAreWorth(p: Scheme, original: nat, current: nat, value: nat)
    requires Balanced(p)
    ensures var (gas, refund) := Clauses(p, original, current, value);
            gas - refund == p.base + Worth(p, original, value) - Worth(p, original, current)
  {
  }

  /** n stores to a slot cost, net of refunds, n times the base plus a function of the
      original, first and last values only. */
  lemma {:induction false} NetCostPathIndependent(p: Scheme, original: nat, current: nat, values: seq<nat>)
    requires Balanced(p) && values != []
    ensures NetCost(p, original, current, values) ==
            p.base * |values| + Worth(p, original, values[|values| - 1]) - Worth(p, original, current)
    decreases |values|
  {
    var rest, last := values[1..], values[|values| - 1];
    NetCostStep(p, original, current, values);
    if rest == [] {
      assert NetCost(p, original, values[0], rest) == 0;
      MulSucc(p.base, 0);
    } else {
      NetCostPathIndependent(p, original, values[0], rest);
      assert rest[|rest| - 1] == last;
      MulSucc(p.base, |rest|);
    }
  }

  lemma NetCostStep(p: Scheme, original: nat, current: nat, values: seq<nat>)
    requires Balanced(p) && values != []
    ensures NetCost(p, original, current, values) ==
            p.base + Worth(p, original, values[0]) - Worth(p, original, current) +
            NetCost(p, original, values[0], values[1..])
  {
    ClausesAreWorth(p, original, current, values[0]);
  }

  lemma MulSucc(b: int, n: nat)
    ensures b * (n + 1) == b + b * n
  {
  }
}
