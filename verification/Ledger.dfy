// The coin ledger: accounts, stakes, pools and blocks (blocks/processTransaction.go,
// blocks/processBlock.go, blocks/blockAccountState.go). Every stored amount is shown to lie
// between 0 and the supply.
module Ledger {
  import opened MapSums
  import opened Rewards
  import opened Transfers
  import opened BlockChecks
  import Approvals
  import S = Staking

  // --- The pools, from outside ---
  // While the maps of a pool are exact it behaves as the pool of its own module; beyond that it
  // may show and drop anything that was put into it.

  method Peek(pool: set<Tx>, asked: set<Tx>, orderly: bool) returns (txs: seq<Tx>)
    requires asked <= pool
    ensures (forall t :: t in txs ==> t in pool) && NoRepeats(txs)
    ensures orderly ==> forall t :: t in txs <==> t in asked
  {
    var todo: set<Tx> :| todo <= pool && (orderly ==> todo == asked);
    ghost var all := todo;
    txs := [];
    while todo != {}
      invariant todo <= all && NoRepeats(txs) && forall t :: t in txs <==> t in all && t !in todo
      decreases todo
    {
      var t :| t in todo;
      todo, txs := todo - {t}, txs + [t];
    }
  }

  // AddTransaction: refuses banned hashes, keeps one transaction for each, and takes a new one in
  // while there is room. A full pool is no longer in order.
  method Admit(pool: set<Tx>, p: Pools, tx: Tx) returns (after: set<Tx>, added: bool, orderly: bool)
    ensures after <= pool + {tx} && (orderly ==> p.orderly)
    ensures p.orderly && tx.hash in p.banned ==> after == pool && !added && orderly
    ensures p.orderly && tx.hash !in p.banned && (exists t :: t in pool && t.hash == tx.hash) ==> after == pool && added && orderly
    ensures Takes(pool, p, tx) ==> after == pool + {tx} && added && orderly
  {
    if !p.orderly {
      after :| after <= pool + {tx};
      added :| added || !added;
      return after, added, false;
    }
    if tx.hash in p.banned {
      return pool, false, true;
    }
    if exists t :: t in pool && t.hash == tx.hash {
      return pool, true, true;
    }
    if |pool| < MAX_TRANSACTION_IN_POOL {
      return pool + {tx}, true, true;
    }
    after :| after <= pool + {tx};
    return after, true, false;
  }

  // The length of a transaction's bytes: its body, which is empty where it could not be written,
  // the signature and the logs with their lengths of four bytes, and an address.
  method LengthOfBytes(tx: Tx) returns (n: nat)
    ensures n >= 28
  {
    var body: nat, signature: nat, logs: nat :| body >= 0 && signature >= 0 && logs >= 0;
    n := body + (4 + signature) + 20 + (4 + logs);
  }

  // --- The ledger ---

  class Ledger {
    var accounts: Accounts
    const stakes: S.StakingAccounts
    var pools: Pools
    const money: Money
    const keyOf: Hash -> int // the first eight bytes of a hash, as a number

    constructor (money: Money, keyOf: Hash -> int)
      ensures Valid() && fresh(stakes) && accounts == map[] && stakes.all == map[]
      ensures this.money == money && this.keyOf == keyOf && pools == Pools({}, {}, {}, true)
    {
      accounts := map[];
      stakes := new S.StakingAccounts();
      pools := Pools({}, {}, {}, true);
      this.money, this.keyOf := money, keyOf;
    }

    ghost predicate Valid()
      reads this, stakes
    {
      && (forall a :: a in accounts ==> accounts[a].balance >= 0)
      && (forall s :: s in stakes.all ==> stakes.all[s].staked >= 0 && stakes.all[s].rewards >= 0)
      && (forall t :: t in pools.escrow ==> Holdable(t))
      && (forall t :: t in pools.multi ==> Holdable(t))
    }

    function Balance(a: Address): int
      reads this`accounts
    {
      BalanceIn(accounts, a)
    }

    // The escrow delay and the number of signatures of an account.
    function Terms(a: Address): (int, nat)
      reads this`accounts
    {
      TermsIn(accounts, a)
    }

    function Signers(a: Address): seq<Address>
      reads this`accounts
    {
      At(accounts, a, NO_ACCOUNT).signers
    }

    // Everything the ledger holds.
    ghost function Total(): int
      reads this`accounts, stakes
    {
      Sum(accounts, BalanceOf) + Sum(stakes.all, S.StakedOf) + Sum(stakes.all, S.RewardsOf)
    }

    method AddBalance(a: Address, x: int) returns (ok: bool)
      requires Valid()
      modifies this`accounts
      ensures Valid()
      ensures ok == (old(Balance(a)) + x >= 0)
      ensures forall b :: Balance(b) == old(Balance(b)) + if ok && b == a then x else 0
      ensures accounts.Keys == old(accounts.Keys) + {a} && forall b :: Terms(b) == old(Terms(b)) && Signers(b) == old(Signers(b))
      ensures Total() == old(Total()) + if ok then x else 0
    {
      var was := At(accounts, a, NO_ACCOUNT);
      SumUpdate(accounts, BalanceOf, a, was, NO_ACCOUNT);
      SumUpdate(accounts, BalanceOf, a, was.(balance := was.balance + x), NO_ACCOUNT);
      if was.balance + x < 0 {
        accounts := accounts[a := was];
        return false;
      }
      accounts := accounts[a := was.(balance := was.balance + x)];
      return true;
    }

    method GetSupplyInAccounts() returns (sum: int)
      ensures sum == Sum(accounts, BalanceOf)
    {
      sum := 0;
      var todo := accounts;
      while todo != map[]
        invariant sum + Sum(todo, BalanceOf) == Sum(accounts, BalanceOf)
        decreases |todo|
      {
        var a :| a in todo;
        SumRemove(todo, BalanceOf, a);
        sum := sum + todo[a].balance;
        todo := todo - {a};
      }
    }

    method GetSupplyInStakedAccounts() returns (staked: int, rewards: int)
      ensures staked == Sum(stakes.all, S.StakedOf) && rewards == Sum(stakes.all, S.RewardsOf)
    {
      staked, rewards := 0, 0;
      var todo := stakes.all;
      while todo != map[]
        invariant staked + Sum(todo, S.StakedOf) == Sum(stakes.all, S.StakedOf)
        invariant rewards + Sum(todo, S.RewardsOf) == Sum(stakes.all, S.RewardsOf)
        decreases |todo|
      {
        var s :| s in todo;
        SumRemove(todo, S.StakedOf, s);
        SumRemove(todo, S.RewardsOf, s);
        staked, rewards := staked + todo[s].staked, rewards + todo[s].rewards;
        todo := todo - {s};
      }
    }

    // Writes an account back with its balance as it was.
    method SetTerms(a: Address, acc: Account)
      requires Valid() && acc.balance == Balance(a)
      modifies this`accounts
      ensures Valid() && Total() == old(Total())
      ensures accounts == old(accounts)[a := acc]
      ensures forall b :: Balance(b) == old(Balance(b))
    {
      SumUpdate(accounts, BalanceOf, a, acc, NO_ACCOUNT);
      accounts := accounts[a := acc];
    }

    // Turns the recipient into an escrow or multi-signature account; no balance changes.
    method ProcessMultiSignAndEscrow(tx: Tx) returns (ok: bool)
      requires Valid()
      modifies this`accounts
      ensures Valid() && Total() == old(Total())
      ensures forall a :: Balance(a) == old(Balance(a))
      ensures ok == TermsAllowed(old(Terms(tx.recipient)), tx)
      ensures ok ==> forall a :: Terms(a) == if a == tx.recipient then NewTerms(old(Terms(a)), tx) else old(Terms(a))
      ensures ok ==> forall a :: Signers(a) == if a == tx.recipient && tx.multiSignNumber > 0 then tx.multiSignAddresses else old(Signers(a))
    {
      var a := tx.recipient;
      var acc := At(accounts, a, NO_ACCOUNT);
      if a !in accounts && a != S.ZERO_ADDRESS {
        SetTerms(a, acc);
      }
      if tx.escrowDelay > 0 {
        if acc.delay > 0 || tx.escrowDelay > MAX_TRANSACTION_DELAY {
          return false;
        }
        acc := acc.(delay := tx.escrowDelay);
        SetTerms(a, acc);
      }
      if tx.multiSignNumber > 0 {
        if acc.multiSign > 0 || tx.multiSignNumber > |tx.multiSignAddresses| {
          return false;
        }
        acc := acc.(multiSign := tx.multiSignNumber, signers := tx.multiSignAddresses);
        SetTerms(a, acc);
      }
      return true;
    }

    // --- Transactions ---

    // The two sides of a transfer; a refused one moves nothing.
    method MoveAmount(tx: Tx) returns (ok: bool)
      requires Valid()
      modifies this`accounts
      ensures Valid()
      ensures ok ==> Total() == old(Total())
      ensures ok ==> forall a :: Balance(a) == old(Balance(a)) + Moved(tx, a)
      ensures tx.amount >= 0 ==> ok == (old(Balance(tx.sender)) >= tx.amount)
      ensures !ok && tx.amount >= 0 ==> Total() == old(Total()) && forall a :: Balance(a) == old(Balance(a))
      ensures forall a :: Terms(a) == old(Terms(a)) && Signers(a) == old(Signers(a))
    {
      ok := AddBalance(tx.sender, -tx.amount);
      if ok {
        ok := AddBalance(tx.recipient, tx.amount);
      }
    }

    // What Stake, Unstake and WithdrawReward write, seen by the sums.
    lemma StakesUpdate(all: map<Slot, S.Account>, s: Slot, acc: S.Account)
      ensures var was := At(all, s, S.NOBODY);
              && Sum(all[s := acc], S.StakedOf) == Sum(all, S.StakedOf) - was.staked + acc.staked
              && Sum(all[s := acc], S.RewardsOf) == Sum(all, S.RewardsOf) - was.rewards + acc.rewards
    {
      SumUpdate(all, S.StakedOf, s, acc, S.NOBODY);
      SumUpdate(all, S.RewardsOf, s, acc, S.NOBODY);
    }

    // The stake, lock or unstake of a transaction, before its sender pays.
    method MoveStake(tx: Tx, height: int) returns (ok: bool)
      requires Valid() && (RouteOf(tx).Locking? || RouteOf(tx).Staking?)
      modifies stakes
      ensures Valid()
      ensures ok ==> Total() == old(Total()) + tx.amount
      ensures ok ==> forall s :: stakes.Get(s).staked == old(stakes.Get(s).staked) + StakeEntry(tx, s)
      ensures ok ==> forall s :: stakes.Get(s).rewards == old(stakes.Get(s).rewards)
    {
      var n := RouteOf(tx).n;
      var s := S.Slot(n, if tx.lockedAmount > 0 then tx.recipient else tx.sender);
      if tx.lockedAmount > 0 {
        if tx.amount < MIN_STAKING_USER {
          return false;
        }
        ok := stakes.Stake(s, tx.amount, height, tx.operational, tx.lockedAmount, tx.release);
      } else if tx.amount >= MIN_STAKING_USER {
        ok := stakes.Stake(s, tx.amount, height, tx.operational, 0, 0);
      } else if tx.amount < 0 {
        var r := stakes.Unstake(s, tx.amount, height);
        ok := r == S.Done;
      } else {
        return false;
      }
      if ok {
        StakesUpdate(old(stakes.all), s, stakes.Get(s));
      }
    }

    method ProcessStaking(tx: Tx, height: int) returns (ok: bool)
      requires Valid() && (RouteOf(tx).Locking? || RouteOf(tx).Staking?)
      modifies this`accounts, stakes
      ensures Valid()
      ensures ok ==> Total() == old(Total()) - tx.fee
      ensures ok ==> forall a :: Balance(a) == old(Balance(a)) + BalanceEntry(tx, false, a)
      ensures ok ==> forall s :: stakes.Get(s).staked == old(stakes.Get(s).staked) + StakeEntry(tx, s)
      ensures ok ==> forall s :: stakes.Get(s).rewards == old(stakes.Get(s).rewards)
    {
      ok := MoveStake(tx, height);
      if ok {
        ok := AddBalance(tx.sender, -tx.fee - tx.amount);
      }
      if ok {
        ok := ProcessMultiSignAndEscrow(tx);
      }
    }

    // A negative amount takes rewards out; a positive one does nothing and costs nothing.
    method ProcessWithdrawal(tx: Tx) returns (ok: bool)
      requires Valid() && RouteOf(tx).Withdrawal?
      modifies this`accounts, stakes
      ensures Valid()
      ensures ok ==> tx.amount != 0 && Total() == old(Total()) - Charged(tx)
      ensures ok ==> forall a :: Balance(a) == old(Balance(a)) + BalanceEntry(tx, false, a)
      ensures ok ==> forall s :: stakes.Get(s).staked == old(stakes.Get(s).staked)
      ensures ok ==> forall s :: stakes.Get(s).rewards == old(stakes.Get(s).rewards) + RewardEntry(tx, s)
    {
      var s := S.Slot(RouteOf(tx).n, tx.sender);
      if !stakes.Present(s) || tx.amount == 0 {
        return false;
      }
      if tx.amount > 0 {
        return true;
      }
      ok := stakes.WithdrawReward(s, tx.amount);
      if ok {
        StakesUpdate(old(stakes.all), s, stakes.Get(s));
        ok := AddBalance(tx.sender, -tx.fee - tx.amount);
      }
    }

    // Puts a transfer into the pools it has to wait in or be counted in.
    method Defer(tx: Tx, height: int) returns (held: bool)
      requires Valid() && Holdable(tx)
      modifies this`pools
      ensures Valid() && pools.banned == old(pools.banned) && (pools.orderly ==> old(pools.orderly))
      ensures held == Held(Terms(tx.sender), tx, height)
      ensures pools.escrow <= old(pools.escrow) + {tx} && pools.multi <= old(pools.multi) + {tx}
      ensures !Delayed(Terms(tx.sender), tx, height) ==> pools.escrow == old(pools.escrow)
      ensures Takes(old(pools.escrow), old(pools), tx) && Takes(old(pools.multi), old(pools), tx) ==>
                && pools.orderly && pools.escrow == old(pools.escrow) + (if Delayed(Terms(tx.sender), tx, height) then {tx} else {})
    {
      var acc := At(accounts, tx.sender, NO_ACCOUNT);
      var pool, added, orderly;
      if acc.delay > 0 && tx.height + acc.delay > height && tx.multiSignTx == 0 {
        pool, added, orderly := Admit(pools.escrow, pools, tx);
        pools := pools.(escrow := pool, orderly := orderly);
        return true;
      }
      if (acc.multiSign > 0 && tx.multiSignTx == 0) || tx.multiSignTx != 0 {
        pool, added, orderly := Admit(pools.multi, pools, tx);
        pools := pools.(multi := pool, orderly := orderly);
      }
      return acc.multiSign > 0 && tx.multiSignTx == 0;
    }

    // A transfer that confirms none succeeds exactly if its sender can pay for it and its terms
    // are allowed.
    method ProcessTransfer(tx: Tx, height: int) returns (ok: bool)
      requires Valid() && Holdable(tx)
      modifies this`accounts, this`pools
      ensures Valid()
      ensures ok ==> Total() == old(Total()) - tx.fee
      ensures ok <==> Affords(old(Balance(tx.sender)), tx, Held(old(Terms(tx.sender)), tx, height)) && TermsAllowed(old(Terms(tx.recipient)), tx)
      ensures ok ==> forall a :: Balance(a) == old(Balance(a)) + BalanceEntry(tx, Held(old(Terms(tx.sender)), tx, height), a)
      ensures ok ==> forall a :: Terms(a) == if a == tx.recipient then NewTerms(old(Terms(a)), tx) else old(Terms(a))
      ensures Deferring(old(pools), pools, old(Terms(tx.sender)), tx, height)
    {
      var held := Defer(tx, height);
      ok := true;
      if !held {
        ok := MoveAmount(tx);
      }
      if ok {
        ok := AddBalance(tx.sender, -tx.fee);
      }
      if ok {
        ok := ProcessMultiSignAndEscrow(tx);
      }
    }

    // Every transaction that succeeds makes exactly its entries, and takes its fee out.
    method ProcessTransaction(tx: Tx, height: int) returns (ok: bool)
      requires Valid() && Sane(tx)
      modifies this`accounts, this`pools, stakes
      ensures Valid()
      ensures ok ==> Total() == old(Total()) - Charged(tx)
      ensures ok ==> forall a :: Balance(a) == old(Balance(a)) + BalanceEntry(tx, Held(old(Terms(tx.sender)), tx, height), a)
      ensures ok ==> forall s :: stakes.Get(s).staked == old(stakes.Get(s).staked) + StakeEntry(tx, s)
      ensures ok ==> forall s :: stakes.Get(s).rewards == old(stakes.Get(s).rewards) + RewardEntry(tx, s)
      ensures RouteOf(tx).Transfer? ==>
                && stakes.all == old(stakes.all) && Deferring(old(pools), pools, old(Terms(tx.sender)), tx, height)
                && (ok <==> Affords(old(Balance(tx.sender)), tx, Held(old(Terms(tx.sender)), tx, height)) && TermsAllowed(old(Terms(tx.recipient)), tx))
                && (ok ==> forall a :: Terms(a) == if a == tx.recipient then NewTerms(old(Terms(a)), tx) else old(Terms(a)))
      ensures !RouteOf(tx).Transfer? ==> pools == old(pools)
    {
      match RouteOf(tx) {
        case Malformed => ok := false;
        case Locking(_) => ok := ProcessStaking(tx, height);
        case Staking(_) => ok := ProcessStaking(tx, height);
        case Withdrawal(_) => ok := ProcessWithdrawal(tx);
        case Foreign => ok := true;
        case Transfer => ok := ProcessTransfer(tx, height);
      }
    }

    // --- Held transfers ---
    // The pools hold nothing but transfers, so the code's branches for delegated accounts are
    // never taken here.

    // RemoveBadTransactionByHash.
    method Forget(hash: Hash)
      requires Valid()
      modifies this`pools
      ensures Valid() && pools == old(pools).(escrow := Without(old(pools.escrow), hash), multi := Without(old(pools.multi), hash),
                                              banned := old(pools.banned) + {hash})
    {
      pools := pools.(escrow := Without(pools.escrow, hash), multi := Without(pools.multi, hash), banned := pools.banned + {hash});
    }

    // Runs the held transfers that are due. It may stop with an error, which the block ignores:
    // whatever was paid by then was paid in full, and nothing else has changed. When none of them
    // is held again they are paid in order, up to the first that its sender does not have.
    method ProcessTransactionsEscrow(height: int) returns (ok: bool, ghost shown: seq<Tx>, ghost paid: seq<Tx>)
      requires Valid()
      modifies this`accounts, this`pools
      ensures Valid() && Total() == old(Total())
      ensures NoRepeats(shown) && (forall t :: t in shown ==> t in old(pools.escrow))
      ensures old(pools.orderly) ==> forall t :: t in shown <==> t in old(pools.escrow) && Due(t, height)
      ensures shown == [] ==> pools == old(pools)
      ensures NoRepeats(paid) && forall t :: t in paid ==> t in shown && t !in pools.escrow && InTime(old(accounts), t, height)
      ensures Paid(old(accounts), accounts, paid)
      ensures pools.escrow <= old(pools.escrow) && pools.multi <= old(pools.multi) + old(pools.escrow)
      ensures PaidInOrder(old(accounts), shown, paid, height)
    {
      var txs := PeekEscrow(height);
      shown := txs;
      ok, paid := RunHeld(txs, height);
    }

    method PeekEscrow(height: int) returns (txs: seq<Tx>)
      ensures NoRepeats(txs) && forall t :: t in txs ==> t in pools.escrow
      ensures pools.orderly ==> forall t :: t in txs <==> t in pools.escrow && Due(t, height)
    {
      txs := Peek(pools.escrow, (set t | t in pools.escrow && Due(t, height)), pools.orderly);
    }

    method RunHeld(txs: seq<Tx>, height: int) returns (ok: bool, ghost paid: seq<Tx>)
      requires Valid() && NoRepeats(txs) && forall t :: t in txs ==> t in pools.escrow
      modifies this`accounts, this`pools
      ensures Valid() && Total() == old(Total())
      ensures txs == [] ==> pools == old(pools)
      ensures NoRepeats(paid) && forall t :: t in paid ==> t in txs && t !in pools.escrow && InTime(old(accounts), t, height)
      ensures Paid(old(accounts), accounts, paid)
      ensures pools.escrow <= old(pools.escrow) && pools.multi <= old(pools.multi) + old(pools.escrow)
      ensures PaidInOrder(old(accounts), txs, paid, height)
    {
      paid := [];
      ghost var m, p := accounts, pools;
      for i := 0 to |txs|
        invariant Valid() && Total() == old(Total()) && HeldSoFar(m, accounts, p, pools, txs, paid, height, i)
        invariant NoneHeld(m, txs, height) ==> paid == txs[..i]
      {
        var tx := txs[i];
        assert tx in p.escrow && txs[..i + 1] == txs[..i] + [tx];
        ghost var before, q := accounts, pools;
        var done, moved := ProcessHeld(tx, height);
        HeldStep(m, before, accounts, p, q, pools, txs, paid, height, i, moved);
        if !done {
          HeldStops(m, before, p, q, txs, paid, height, i);
        }
        if moved {
          paid := paid + [tx];
        }
        if !done {
          PaidFromMore(m, pools, txs, paid, height, i + 1);
          return false, paid;
        }
      }
      PaidFromMore(m, pools, txs, paid, height, |txs|);
      return true, paid;
    }

    method ProcessHeld(tx: Tx, height: int) returns (ok: bool, moved: bool)
      requires Valid() && Holdable(tx)
      modifies this`accounts, this`pools
      ensures Valid() && Total() == old(Total())
      ensures pools.escrow <= old(pools.escrow) && pools.multi <= old(pools.multi) + {tx} && (moved ==> tx !in pools.escrow)
      ensures PaysHeld(old(accounts), accounts, tx, height, moved)
      ensures !Held(Terms(tx.sender), tx, height) ==> ok == moved == (old(Balance(tx.sender)) >= tx.amount)
    {
      var acc := At(accounts, tx.sender, NO_ACCOUNT);
      var pool, added, orderly;
      if acc.delay > 0 && tx.height + acc.delay > height && tx.multiSignTx == 0 {
        return false, false;
      }
      if acc.multiSign > 0 && tx.multiSignTx == 0 {
        pool, added, orderly := Admit(pools.multi, pools, tx);
        pools := pools.(multi := pool, orderly := orderly);
        if added {
          pools := pools.(escrow := Without(pools.escrow, tx.hash));
        }
        return true, false;
      }
      if tx.multiSignTx != 0 {
        pool, added, orderly := Admit(pools.multi, pools, tx);
        pools := pools.(multi := pool, orderly := orderly);
      }
      moved := PayHeld(tx);
      return moved, moved;
    }

    // Takes a held transfer out of the escrow pool and pays it, or bans it.
    method PayHeld(tx: Tx) returns (moved: bool)
      requires Valid() && Holdable(tx)
      modifies this`accounts, this`pools
      ensures Valid() && Total() == old(Total())
      ensures pools.escrow <= old(pools.escrow) && pools.multi <= old(pools.multi) && tx !in pools.escrow
      ensures moved == (old(Balance(tx.sender)) >= tx.amount) && MovesOnly(old(accounts), accounts, tx, moved)
    {
      pools := pools.(escrow := Without(pools.escrow, tx.hash));
      moved := MoveAmount(tx);
      forall a
        ensures BalanceIn(accounts, a) == BalanceIn(old(accounts), a) + (if moved then Moved(tx, a) else 0)
        ensures TermsIn(accounts, a) == TermsIn(old(accounts), a)
      {
        assert Balance(a) == old(Balance(a)) + (if moved then Moved(tx, a) else 0) && Terms(a) == old(Terms(a));
      }
      if !moved {
        Forget(tx.hash);
      }
    }

    // Runs the transfer that a confirming transaction points at, once it has its signatures.
    method ProcessTransactionsMultiSign(tx: Tx, height: int) returns (ok: bool, ghost shown: seq<Tx>, ghost paid: seq<Tx>)
      requires Valid()
      modifies this`accounts, this`pools
      ensures Valid() && Total() == old(Total())
      ensures tx.multiSignTx == 0 ==> ok && paid == [] && pools == old(pools) && accounts == old(accounts)
      ensures NoRepeats(shown) && forall t :: t in shown ==> t in old(pools.multi)
      ensures tx.multiSignTx != 0 && old(pools.orderly) ==>
                forall t :: t in shown <==> t in old(pools.multi) && keyOf(MainOf(t)) == keyOf(tx.multiSignTx)
      ensures tx.multiSignTx != 0 ==>
                var main := MainIn(shown, tx.multiSignTx);
                && (ok, paid) == Outcome(main, shown, old(Balance(main.sender)), old(Terms(main.sender)), old(Signers(main.sender)), height)
                && (forall a :: Signers(a) == if a == main.sender && Counts(main, shown, old(Terms(a)), height)
                                              then Approvals.Struck(Approvals.All(old(Signers(a))), Confirmers(shown, main)).cells
                                              else old(Signers(a)))
      ensures forall a :: Balance(a) == old(Balance(a)) + MovedAll(paid, a)
      ensures forall a :: Terms(a) == old(Terms(a))
      ensures pools.escrow <= old(pools.escrow) && pools.multi <= old(pools.multi)
    {
      shown, paid := [], [];
      if tx.multiSignTx == 0 {
        ok := true;
        return;
      }
      var txs := Peek(pools.multi, (set t | t in pools.multi && keyOf(MainOf(t)) == keyOf(tx.multiSignTx)), pools.orderly);
      shown := txs;
      var main := FindMain(txs, tx.multiSignTx);
      var length := LengthOfBytes(main);
      if length == 0 || height - main.height > MAX_TRANSACTION_IN_MULTISIG_POOL {
        pools := pools.(multi := set t | t in pools.multi && t !in txs);
        ok := false;
        return;
      }
      ok, paid := PayMain(main, txs, height);
    }

    // The approvals are counted.
    static predicate Counts(main: Tx, shown: seq<Tx>, terms: (int, nat), height: int) {
      height - main.height <= MAX_TRANSACTION_IN_MULTISIG_POOL && |shown| >= terms.1
    }

    // What becomes of the transfer: it is refused after a week, waits for its signatures and for
    // approvals by as many of the signers, is refused before its delay is over, and is then paid
    // if its sender has the amount.
    static function Outcome(main: Tx, shown: seq<Tx>, balance: int, terms: (int, nat), signers: seq<Address>, height: int): (bool, seq<Tx>) {
      if height - main.height > MAX_TRANSACTION_IN_MULTISIG_POOL then (false, [])
      else if |shown| < terms.1 || |multiset(signers) * multiset(Confirmers(shown, main))| < terms.1 then (true, [])
      else if !Ripe(terms, main, height) then (false, [])
      else if balance >= main.amount then (true, [main])
      else (false, [])
    }

    // Pays the transfer once it is signed by enough and its delay is over.
    method PayMain(main: Tx, txs: seq<Tx>, height: int) returns (ok: bool, ghost paid: seq<Tx>)
      requires Valid() && Holdable(main) && height - main.height <= MAX_TRANSACTION_IN_MULTISIG_POOL
      modifies this`accounts, this`pools
      ensures Valid() && Total() == old(Total())
      ensures (ok, paid) == Outcome(main, txs, old(Balance(main.sender)), old(Terms(main.sender)), old(Signers(main.sender)), height)
      ensures forall a :: Signers(a) == if a == main.sender && Counts(main, txs, old(Terms(a)), height)
                                        then Approvals.Struck(Approvals.All(old(Signers(a))), Confirmers(txs, main)).cells
                                        else old(Signers(a))
      ensures forall a :: Balance(a) == old(Balance(a)) + MovedAll(paid, a)
      ensures forall a :: Terms(a) == old(Terms(a))
      ensures pools.escrow <= old(pools.escrow) && pools.multi <= old(pools.multi)
    {
      paid := [];
      var acc := At(accounts, main.sender, NO_ACCOUNT);
      if |txs| < acc.multiSign {
        return true, paid;
      }
      var approvals := CountApprovals(main, txs);
      if approvals < acc.multiSign {
        return true, paid;
      }
      if acc.delay > 0 && main.height + acc.delay > height {
        return false, paid;
      }
      ok, paid := PayNow(main);
    }

    method PayNow(main: Tx) returns (ok: bool, ghost paid: seq<Tx>)
      requires Valid() && Holdable(main)
      modifies this`accounts, this`pools
      ensures Valid() && Total() == old(Total())
      ensures ok == (old(Balance(main.sender)) >= main.amount) && paid == if ok then [main] else []
      ensures forall a :: Balance(a) == old(Balance(a)) + MovedAll(paid, a)
      ensures forall a :: Terms(a) == old(Terms(a)) && Signers(a) == old(Signers(a))
      ensures pools.escrow <= old(pools.escrow) && pools.multi <= old(pools.multi)
    {
      paid := [];
      pools := pools.(multi := Without(pools.multi, main.hash));
      ok := MoveAmount(main);
      if ok {
        MovedSnoc([], main);
        paid := [main];
      } else {
        Forget(main.hash);
      }
    }

    // Counting takes signers out of the stored list.
    method CountApprovals(main: Tx, txs: seq<Tx>) returns (n: nat)
      requires Valid()
      modifies this`accounts
      ensures Valid() && Total() == old(Total())
      ensures n == |multiset(old(Signers(main.sender))) * multiset(Confirmers(txs, main))|
      ensures forall a :: Balance(a) == old(Balance(a)) && Terms(a) == old(Terms(a))
      ensures forall a :: Signers(a) == if a == main.sender then Approvals.Struck(Approvals.All(old(Signers(a))), Confirmers(txs, main)).cells
                                        else old(Signers(a))
    {
      var acc := At(accounts, main.sender, NO_ACCOUNT);
      var cells;
      n, cells := Approvals.Count(acc.signers, Confirmers(txs, main));
      if main.sender in accounts {
        SetTerms(main.sender, acc.(signers := cells));
      }
    }

    // --- Rewards ---

    method Pay(s: Slot, x: int) returns (ok: bool)
      requires Valid() && s.table < 256
      modifies stakes
      ensures Valid() && ok == (Present(old(stakes.all), s) && x >= 0)
      ensures stakes.all == if ok then Credit(old(stakes.all), s, x) else old(stakes.all)
    {
      ok := stakes.Reward(s, x);
    }

    // One share for each staker; rest is what is left for the operator.
    method PayStakers(n: nat, addresses: seq<Address>, balances: seq<int>, shares: seq<int>, reward: int)
      returns (rest: int)
      requires Valid() && n < 256 && |addresses| == |balances| == |shares|
      requires forall i :: 0 <= i < |addresses| ==> S.Slot(n, addresses[i]) in stakes.all
      requires forall i :: 0 <= i < |shares| ==> shares[i] >= 0 && (balances[i] <= 0 ==> shares[i] == 0)
      modifies stakes
      ensures Valid()
      ensures rest == reward - SumOf(shares)
      ensures stakes.all == CreditAll(old(stakes.all), n, addresses, shares)
    {
      rest := reward;
      for i := 0 to |addresses|
        invariant Valid()
        invariant rest == reward - SumOf(shares[..i])
        invariant stakes.all == CreditAll(old(stakes.all), n, addresses[..i], shares[..i])
        invariant old(stakes.all).Keys <= stakes.all.Keys
      {
        assert shares[..i + 1][..i] == shares[..i] && addresses[..i + 1][..i] == addresses[..i];
        if balances[i] > 0 {
          rest := rest - shares[i];
          var paid := Pay(S.Slot(n, addresses[i]), shares[i]);
        } else {
          assert stakes.all == Credit(stakes.all, S.Slot(n, addresses[i]), 0);
        }
      }
      assert shares[..|addresses|] == shares && addresses[..|addresses|] == addresses;
    }

    // Pays the parts, and what the shares leave over to the operator.
    method PayOut(n: nat, operator: Address, reward: nat, part: int,
                  addresses: seq<Address>, balances: seq<int>, shares: seq<int>) returns (ok: bool)
      requires Valid() && n < 256 && |addresses| == |balances| == |shares|
      requires forall i :: 0 <= i < |addresses| ==> S.Slot(n, addresses[i]) in stakes.all
      requires forall i :: 0 <= i < |shares| ==> shares[i] >= 0 && (balances[i] <= 0 ==> shares[i] == 0)
      requires part >= 0 && SumOf(shares) <= reward - part
      modifies stakes
      ensures Valid() && ok == Present(old(stakes.all), S.Slot(n, operator))
      ensures ok ==> stakes.all == Split(old(stakes.all), n, operator, reward, part, addresses, shares)
      ensures !ok ==> stakes.all == old(stakes.all)
    {
      var slot := S.Slot(n, operator);
      ok := Pay(slot, part);
      if ok {
        var rest := PayStakers(n, addresses, balances, shares, reward - part);
        if rest > 0 {
          CreditAllKeeps(Credit(old(stakes.all), slot, part), n, addresses, shares);
          ok := Pay(slot, rest);
        }
      }
    }

    // The split of a block's reward: a part for the operator, a share for every staker, and the
    // remainder of the rounding for the operator. It fails only for the reasons listed: the
    // shares never add up to more than the reward.
    method PayRewards(n: nat, operator: Address, reward: nat, perMille: int)
      returns (ok: bool, ghost part: int, ghost addresses: seq<Address>, ghost shares: seq<int>)
      requires Valid() && Fair(money) && n < 256 && reward <= MAX_REWARD
      modifies stakes
      ensures Valid()
      ensures ok == (&& Sum(With(old(stakes.all), n), S.StakedOf) > 0 && perMille <= 500
                     && money.part(reward, perMille) >= 0 && Present(old(stakes.all), S.Slot(n, operator)))
      ensures ok ==> Shared(money, With(old(stakes.all), n), reward - part, addresses, shares)
      ensures ok ==> stakes.all == Split(old(stakes.all), n, operator, reward, part, addresses, shares)
      ensures part == money.part(reward, perMille)
      ensures Total() == old(Total()) + if ok then reward else 0
    {
      var was := With(stakes.all, n);
      var fine, cut, staked, balances, amounts := Plan(money, was, reward, perMille);
      part, addresses, shares := cut, staked, amounts;
      ok := false;
      if fine {
        ok := PayOut(n, operator, reward, cut, staked, balances, amounts);
        if ok {
          SplitSums(old(stakes.all), n, operator, reward, part, addresses, shares);
        }
      }
    }

    // --- Blocks ---

    // The part of the check for delegated accounts.
    method CheckStakes(txs: seq<Tx>, i: nat, sums: map<Address, (int, int)>)
      returns (ok: bool, after: map<Address, (int, int)>)
      requires i < |txs| && TracksSums(sums, stakes.all, txs, i)
      ensures TracksSums(after, stakes.all, txs, i + 1)
      ensures ok <==> (Delegates(txs[i]) ==>
                         && FirstOf(txs, i + 1, txs[i].sender) <= i
                         && var (amount, fee) := SumsOf(stakes.all, txs, i + 1, txs[i].sender);
                            CheckStakingTransaction(accounts, stakes.all, txs[i], amount, fee))
    {
      var tx := txs[i];
      ok, after := true, sums;
      SumsStep(sums, stakes.all, txs, i);
      if Delegates(tx) {
        var acc := stakes.Get(S.Slot(RouteOf(tx).n, tx.sender));
        var sum := At(sums, tx.sender, (acc.staked, acc.rewards));
        sum := (sum.0 + tx.amount, sum.1 + tx.fee);
        after := sums[tx.sender := sum];
        ok := CheckStakingTransaction(accounts, stakes.all, tx, sum.0, sum.1);
      }
    }

    // The loop of CheckBlockTransfers. The transaction that fails is taken out of the pools, but
    // for a lock without a proper delegated account.
    method CheckTransactions(txs: seq<Tx>) returns (ok: bool, totalFee: int)
      requires Valid()
      modifies this`pools
      ensures Valid() && pools.escrow <= old(pools.escrow) && pools.multi <= old(pools.multi) && (ok ==> pools == old(pools))
      ensures ok ==> totalFee == Fees(txs)
      ensures ok <==> Passed(accounts, stakes.all, txs, |txs|)
    {
      ok, totalFee := true, 0;
      var left: map<Address, int> := map[];
      var sums: map<Address, (int, int)> := map[];
      for i := 0 to |txs|
        invariant Valid() && pools == old(pools)
        invariant ok && totalFee == Fees(txs[..i])
        invariant TracksBalances(left, accounts, txs, i) && TracksSums(sums, stakes.all, txs, i)
        invariant Passed(accounts, stakes.all, txs, i)
      {
        var tx := txs[i];
        FeesStep(txs, i);
        PassedStep(accounts, stakes.all, txs, i);
        totalFee := totalFee + tx.fee;
        if RouteOf(tx).Malformed? {
          return false, 0;
        }
        ok, sums := CheckStakes(txs, i, sums);
        if !ok || !Known(accounts, tx.sender) || !ConfirmsOnly(tx) {
          Forget(tx.hash);
          return false, 0;
        }
        var balance := At(left, tx.sender, BalanceIn(accounts, tx.sender)) - (tx.fee + tx.amount);
        BalancesStep(left, accounts, txs, i, balance);
        left := left[tx.sender := balance];
        if balance < 0 {
          Forget(tx.hash);
          return false, 0;
        }
      }
      assert txs[..|txs|] == txs;
    }

    // And the supply is the last one and the reward.
    method CheckBlockTransfers(block: Block, lastSupply: int) returns (ok: bool, reward: int, totalFee: int)
      requires Valid()
      modifies this`pools
      ensures Valid() && pools.escrow <= old(pools.escrow) && pools.multi <= old(pools.multi) && (ok ==> pools == old(pools))
      ensures ok ==> totalFee == Fees(block.txs)
      ensures reward == money.rewardAfter(lastSupply)
      ensures ok <==> block.supply == lastSupply + reward && Passed(accounts, stakes.all, block.txs, |block.txs|)
    {
      reward := money.rewardAfter(lastSupply);
      ok, totalFee := CheckTransactions(block.txs);
      ok := ok && lastSupply + reward == block.supply;
    }

    // A transaction of a block, followed by the multi-signature transfer it completes. One that
    // fails is taken out of the pools.
    method ProcessOne(tx: Tx, height: int) returns (ok: bool)
      requires Valid() && Sane(tx)
      modifies this`accounts, this`pools, stakes
      ensures Valid()
      ensures ok ==> Total() == old(Total()) - Charged(tx)
      ensures pools.escrow <= old(pools.escrow) + {tx}
      ensures Ordinary(tx) ==>
                && stakes.all == old(stakes.all)
                && (ok <==> Passes(old(accounts), tx, height))
                && (ok ==> Makes(old(accounts), accounts, tx, height))
                && (ok ==> Deferring(old(pools), pools, old(Terms(tx.sender)), tx, height))
    {
      if tx.height > height {
        Forget(tx.hash);
        return false;
      }
      ok := ProcessTransaction(tx, height);
      if ok {
        ghost var shown, paid;
        ok, shown, paid := ProcessTransactionsMultiSign(tx, height);
      }
      if !ok {
        Forget(tx.hash);
      } else if Ordinary(tx) {
        assert forall a :: && Balance(a) == old(Balance(a)) + BalanceEntry(tx, Held(old(Terms(tx.sender)), tx, height), a)
                           && Terms(a) == if a == tx.recipient then NewTerms(old(Terms(a)), tx) else old(Terms(a));
      }
    }

    // The transactions of a block. Ordinary transfers are carried out up to the first that does
    // not go through; done is how many are.
    method ProcessAll(txs: seq<Tx>, height: int) returns (ok: bool, ghost done: nat)
      requires Valid() && forall t :: t in txs ==> Sane(t)
      modifies this`accounts, this`pools, stakes
      ensures Valid()
      ensures ok ==> Total() == old(Total()) - ChargedAll(txs)
      ensures done <= |txs| && (ok <==> done == |txs|)
      ensures pools.escrow <= old(pools.escrow) + Firsts(txs, |txs|)
      ensures OrdinaryBlock(txs) ==>
                && stakes.all == old(stakes.all) && AllGoThrough(old(accounts), [], txs, height, done)
                && (done < |txs| ==> !GoesThrough(old(accounts), [], txs, height, done))
                && (ok ==> OnTrack(old(accounts), accounts, txs, height, |txs|))
                && (ok && AllNew(txs, old(pools)) ==> Waiting(old(pools), pools, old(accounts), txs, height, |txs|))
    {
      ghost var m, p, ordinary := accounts, pools, OrdinaryBlock(txs);
      done := 0;
      for i := 0 to |txs|
        invariant done == i && Valid() && Total() == old(Total()) - ChargedAll(txs[..i])
        invariant pools.escrow <= p.escrow + Firsts(txs, i)
        invariant ordinary ==> CarriedOut(m, accounts, p, pools, txs, height, i) && stakes.all == old(stakes.all)
      {
        assert txs[..i + 1][..i] == txs[..i];
        ghost var before, waiting := accounts, pools;
        FirstsGrow(txs, i);
        if ordinary {
          OnTrackStep(m, before, txs, height, i);
        }
        ok := ProcessOne(txs[i], height);
        if !ok {
          return;
        }
        if ordinary {
          CarriedOn(m, before, accounts, p, waiting, pools, txs, height, i);
        }
        done := i + 1;
      }
      assert txs[..|txs|] == txs;
      ok := true;
    }

    // Held transfers, transactions, reward. A block of ordinary transfers fails exactly if one of
    // them does not go through behind the held ones that were paid, or the reward cannot be paid
    // out. One that its senders can cover before the block, as CheckBlockTransfers finds, fails
    // only for the reward, provided none of its senders has a held transfer.
    method ProcessBlockTransfers(block: Block, reward: nat) returns (ok: bool, ghost shown: seq<Tx>, ghost paid: seq<Tx>)
      requires Valid() && Fair(money) && reward <= MAX_REWARD && forall t :: t in block.txs ==> Sane(t)
      modifies this`accounts, this`pools, stakes
      ensures Valid()
      ensures ok ==> Total() == old(Total()) - ChargedAll(block.txs) + reward
      ensures HeldRun(old(accounts), old(pools), shown, paid, block.height)
      ensures pools.escrow <= old(pools.escrow) + Firsts(block.txs, |block.txs|)
      ensures OrdinaryBlock(block.txs) ==>
                && (ok <==> && AllGoThrough(old(accounts), paid, block.txs, block.height, |block.txs|)
                            && RewardDue(money, old(stakes.all), block, reward))
                && (ok ==> forall a :: Balance(a) == Ran(old(accounts), paid, block.txs, block.height, |block.txs|, a))
      ensures && OrdinaryBlock(block.txs) && shown == [] && AllNew(block.txs, old(pools))
              && AllGoThrough(old(accounts), [], block.txs, block.height, |block.txs|) ==>
                Waiting(old(pools), pools, old(accounts), block.txs, block.height, |block.txs|)
      ensures PlainBlockIn(old(accounts), block.txs, block.height) && Apart(block.txs, old(pools.escrow)) ==>
                ok == RewardDue(money, old(stakes.all), block, reward)
    {
      ghost var was, held := accounts, pools.escrow;
      ok, shown, paid := ProcessTransactionsEscrow(block.height);
      ShiftedBlock(was, accounts, paid, block.txs, block.height);
      if PlainBlockIn(was, block.txs, block.height) && Apart(block.txs, held) {
        CoveredGoesThrough(was, paid, held, block.txs, block.height);
      }
      ok := ProcessTransactions(block, reward);
    }

    // The transactions of the block, and its reward.
    method ProcessTransactions(block: Block, reward: nat) returns (ok: bool)
      requires Valid() && Fair(money) && reward <= MAX_REWARD && forall t :: t in block.txs ==> Sane(t)
      modifies this`accounts, this`pools, stakes
      ensures Valid()
      ensures ok ==> Total() == old(Total()) - ChargedAll(block.txs) + reward
      ensures pools.escrow <= old(pools.escrow) + Firsts(block.txs, |block.txs|)
      ensures OrdinaryBlock(block.txs) ==>
                && (ok <==> && AllGoThrough(old(accounts), [], block.txs, block.height, |block.txs|)
                            && RewardDue(money, old(stakes.all), block, reward))
                && (ok ==> OnTrack(old(accounts), accounts, block.txs, block.height, |block.txs|))
      ensures && OrdinaryBlock(block.txs) && AllNew(block.txs, old(pools))
              && AllGoThrough(old(accounts), [], block.txs, block.height, |block.txs|) ==>
                Waiting(old(pools), pools, old(accounts), block.txs, block.height, |block.txs|)
    {
      ghost var done;
      ok, done := ProcessAll(block.txs, block.height);
      ok := ok && Delegated(block.delegated) >= 1 && Delegated(block.delegated) <= 255;
      if ok {
        ghost var part, addresses, shares;
        ok, part, addresses, shares := PayRewards(Delegated(block.delegated), block.operator, reward, block.perMille);
      }
    }

    // What the run of the held transfers shows and pays.
    static ghost predicate HeldRun(m: Accounts, p: Pools, shown: seq<Tx>, paid: seq<Tx>, height: int) {
      && NoRepeats(shown) && (forall t :: t in shown ==> t in p.escrow)
      && (p.orderly ==> forall t :: t in shown <==> t in p.escrow && Due(t, height))
      && NoRepeats(paid) && (forall t :: t in paid ==> t in shown) && PaidInOrder(m, shown, paid, height)
    }

    // A block that is accepted was preceded by a ledger that balances, and leaves one that holds
    // the new supply less the accumulated fees, but for fees that were counted and not charged. A
    // block of ordinary transfers is accepted exactly if it passes the check, every transfer goes
    // through behind the held ones, and the reward can be paid out.
    method CheckBlockAndTransferFunds(block: Block, tip: Tip)
      returns (ok: bool, fee: int, ghost leader: Address, ghost shown: seq<Tx>, ghost paid: seq<Tx>)
      requires Valid() && Fair(money) && 0 <= tip.supply <= MAX_TOTAL_SUPPLY
      requires forall t :: t in block.txs ==> Sane(t)
      modifies this`accounts, this`pools, stakes
      ensures Valid()
      ensures ok ==> fee == tip.fee + Fees(block.txs)
      ensures ok ==> tip.supply <= block.supply == tip.supply + money.rewardAfter(tip.supply) <= MAX_TOTAL_SUPPLY
      ensures ok ==> Checked(money, old(accounts), old(stakes.all), block, tip, leader)
      ensures ok ==> Total() + fee == block.supply + Uncharged(block.txs)
      ensures Delegated(block.delegated) >= 1 && Delegated(block.delegated) <= 255 ==>
                LeaderOf(With(old(stakes.all), Delegated(block.delegated)), leader)
      ensures if Checked(money, old(accounts), old(stakes.all), block, tip, leader)
              then HeldRun(old(accounts), old(pools), shown, paid, block.height) else shown == paid == []
      ensures pools.escrow <= old(pools.escrow) + Firsts(block.txs, |block.txs|)
      ensures OrdinaryBlock(block.txs) ==>
                && (ok <==> Accepts(money, old(accounts), old(stakes.all), block, tip, leader, paid))
                && (ok ==> forall a :: Balance(a) == Ran(old(accounts), paid, block.txs, block.height, |block.txs|, a))
      ensures && OrdinaryBlock(block.txs) && Checked(money, old(accounts), old(stakes.all), block, tip, leader) && shown == []
              && AllNew(block.txs, old(pools)) && AllGoThrough(old(accounts), [], block.txs, block.height, |block.txs|) ==>
                Waiting(old(pools), pools, old(accounts), block.txs, block.height, |block.txs|)
    {
      shown, paid := [], [];
      var reward;
      ok, reward, fee, leader := CheckBlock(block, tip);
      if ok {
        ok, shown, paid := ProcessBlockTransfers(block, reward);
      }
    }

    // The part before anything is carried out.
    method CheckBlock(block: Block, tip: Tip) returns (ok: bool, reward: int, fee: int, ghost leader: Address)
      requires Valid()
      modifies this`pools
      ensures Valid() && pools.escrow <= old(pools.escrow) && pools.multi <= old(pools.multi) && (ok ==> pools == old(pools))
      ensures ok <==> Checked(money, accounts, stakes.all, block, tip, leader)
      ensures ok ==> reward == money.rewardAfter(tip.supply) && fee == tip.fee + Fees(block.txs)
      ensures Delegated(block.delegated) >= 1 && Delegated(block.delegated) <= 255 ==>
                LeaderOf(With(stakes.all, Delegated(block.delegated)), leader)
    {
      reward, fee := 0, 0;
      ok, leader := CheckLeader(block);
      if ok {
        var totalFee;
        ok, reward, totalFee := CheckBlockTransfers(block, tip.supply);
        fee := totalFee + tip.fee;
      }
      if ok {
        ok := CheckSupply(block.supply, reward, tip.fee);
      }
    }

    // The delegated account of the block has enough stake, and is led by the block's operator.
    method CheckLeader(block: Block) returns (ok: bool, leader: Address)
      requires Valid()
      ensures ok <==> LedBy(stakes.all, block, leader)
      ensures Delegated(block.delegated) >= 1 && Delegated(block.delegated) <= 255 ==>
                LeaderOf(With(stakes.all, Delegated(block.delegated)), leader)
    {
      var n := Delegated(block.delegated);
      if n < 1 || n > 255 {
        return false, S.ZERO_ADDRESS;
      }
      var addresses, balances, sum, operator := Collect(With(stakes.all, n));
      return sum >= MIN_STAKING_FOR_NODE && operator == block.operator, operator;
    }

    method CheckSupply(supply: int, reward: int, fee: int) returns (ok: bool)
      ensures ok <==> Sum(accounts, BalanceOf) + Sum(stakes.all, S.StakedOf) + Sum(stakes.all, S.RewardsOf) + reward + fee == supply
    {
      var total := GetSupply();
      ok := total + reward + fee == supply;
    }

    // Balances, stakes and rewards.
    method GetSupply() returns (total: int)
      ensures total == Sum(accounts, BalanceOf) + Sum(stakes.all, S.StakedOf) + Sum(stakes.all, S.RewardsOf)
    {
      var staked, rewarded := GetSupplyInStakedAccounts();
      var held := GetSupplyInAccounts();
      total := held + staked + rewarded;
    }

    // A chain of blocks. A refused block is undone by reloading the accounts and stakes stored
    // after the last accepted one. The verdict on every block is that of CheckBlockAndTransferFunds
    // in the state that the blocks before it lead to.
    method Extend(blocks: seq<Block>, genesis: Tip)
      returns (tip: Tip, ghost accepted: seq<Block>, ghost states: seq<State>, ghost turns: seq<Turn>)
      requires Valid() && Fair(money) && 0 <= genesis.supply <= MAX_TOTAL_SUPPLY
      requires Total() + genesis.fee == genesis.supply
      requires forall b :: b in blocks ==> forall t :: t in b.txs ==> Sane(t)
      modifies this`accounts, this`pools, stakes
      ensures Valid()
      ensures |turns| == |blocks| && |states| == |blocks| + 1
      ensures states[0] == State(old(accounts), old(stakes.all), old(pools.escrow), genesis)
      ensures states[|blocks|] == State(accounts, stakes.all, pools.escrow, tip)
      ensures forall k :: 0 <= k < |blocks| ==> TurnOf(money, states[k], states[k + 1], blocks[k], turns[k])
      ensures accepted == Taken(blocks, turns)
      ensures Booked(Total(), tip, genesis, accepted)
    {
      tip, accepted, turns := genesis, [], [];
      states := [State(accounts, stakes.all, pools.escrow, tip)];
      for k := 0 to |blocks|
        invariant Valid() && Booked(Total(), tip, genesis, accepted)
        invariant Chain(money, states, turns, blocks, k) && states[0] == State(old(accounts), old(stakes.all), old(pools.escrow), genesis)
        invariant states[k] == State(accounts, stakes.all, pools.escrow, tip)
        invariant accepted == Taken(blocks[..k], turns)
      {
        ghost var turn, total, last := Turn(S.ZERO_ADDRESS, [], false), Total(), tip;
        var block := blocks[k];
        assert block in blocks;
        tip, turn := Judge(block, tip);
        ghost var after := State(accounts, stakes.all, pools.escrow, tip);
        ChainStep(money, states, turns, blocks, k, after, turn);
        TakenStep(blocks, turns, k, turn);
        states, turns := states + [after], turns + [turn];
        if turn.ok {
          BookedStep(total, last, Total(), tip, genesis, accepted, block);
          accepted := accepted + [block];
        }
      }
      assert blocks[..|blocks|] == blocks;
    }

    // One block of a chain.
    method Judge(block: Block, tip: Tip) returns (next: Tip, ghost turn: Turn)
      requires Valid() && Fair(money) && 0 <= tip.supply <= MAX_TOTAL_SUPPLY
      requires forall t :: t in block.txs ==> Sane(t)
      modifies this`accounts, this`pools, stakes
      ensures Valid()
      ensures TurnOf(money, State(old(accounts), old(stakes.all), old(pools.escrow), tip), State(accounts, stakes.all, pools.escrow, next), block, turn)
      ensures turn.ok ==> && next.fee == tip.fee + Fees(block.txs) && tip.supply <= next.supply <= MAX_TOTAL_SUPPLY
                          && old(Total()) + tip.fee == tip.supply && Total() + next.fee == next.supply + Uncharged(block.txs)
      ensures !turn.ok ==> next == tip && Total() == old(Total())
    {
      var savedAccounts, savedStakes := accounts, stakes.all;
      ghost var total := Total();
      var ok, fee;
      ghost var leader, shown, paid;
      ok, fee, leader, shown, paid := CheckBlockAndTransferFunds(block, tip);
      turn := Turn(leader, paid, ok);
      if ok {
        next := Tip(block.supply, fee);
      } else {
        next := tip;
        accounts, stakes.all := savedAccounts, savedStakes;
        assert Total() == total;
      }
    }

    // While the books balance, every stored amount lies between 0 and the supply, so it fits in
    // int64.
    lemma AmountsFit(tip: Tip)
      requires Valid() && Total() + tip.fee == tip.supply && tip.fee >= 0
      ensures forall a :: 0 <= Balance(a) <= tip.supply
      ensures forall s :: 0 <= stakes.Get(s).staked <= tip.supply && 0 <= stakes.Get(s).rewards <= tip.supply
    {
      SumBound(accounts, BalanceOf);
      SumBound(stakes.all, S.StakedOf);
      SumBound(stakes.all, S.RewardsOf);
    }
  }

  // --- The split as a function ---

  function Credit(all: map<Slot, S.Account>, s: Slot, x: int): map<Slot, S.Account> {
    all[s := At(all, s, S.NOBODY).(rewards := At(all, s, S.NOBODY).rewards + x)]
  }

  function CreditAll(all: map<Slot, S.Account>, n: nat, addresses: seq<Address>, shares: seq<int>)
    : map<Slot, S.Account>
    requires |addresses| == |shares|
  {
    if addresses == [] then all else
      var k := |addresses| - 1;
      Credit(CreditAll(all, n, addresses[..k], shares[..k]), S.Slot(n, addresses[k]), shares[k])
  }

  function Split(all: map<Slot, S.Account>, n: nat, operator: Address, reward: int, part: int,
                 addresses: seq<Address>, shares: seq<int>): map<Slot, S.Account>
    requires |addresses| == |shares|
  {
    var slot, rest := S.Slot(n, operator), reward - part - SumOf(shares);
    var paid := CreditAll(Credit(all, slot, part), n, addresses, shares);
    if rest > 0 then Credit(paid, slot, rest) else paid
  }

  // The shares of all accounts in m, each listed once.
  ghost predicate Shared(money: Money, m: map<Address, S.Account>, reward: int,
                         addresses: seq<Address>, shares: seq<int>)
  {
    && |addresses| == |shares| && SumOf(shares) <= reward
    && (forall i, j :: 0 <= i < j < |addresses| ==> addresses[i] != addresses[j])
    && (forall a :: a in m <==> a in addresses)
    && (forall i :: 0 <= i < |addresses| && addresses[i] in m ==>
          0 <= shares[i] == ShareOf(money, reward, m[addresses[i]].staked, Sum(m, S.StakedOf)))
  }

  lemma CreditSums(all: map<Slot, S.Account>, s: Slot, x: int)
    ensures Sum(Credit(all, s, x), S.RewardsOf) == Sum(all, S.RewardsOf) + x
    ensures Sum(Credit(all, s, x), S.StakedOf) == Sum(all, S.StakedOf)
  {
    var acc := At(all, s, S.NOBODY);
    SumUpdate(all, S.RewardsOf, s, acc.(rewards := acc.rewards + x), S.NOBODY);
    SumUpdate(all, S.StakedOf, s, acc.(rewards := acc.rewards + x), S.NOBODY);
  }

  lemma {:induction false} CreditAllSums(all: map<Slot, S.Account>, n: nat, addresses: seq<Address>, shares: seq<int>)
    requires |addresses| == |shares|
    ensures Sum(CreditAll(all, n, addresses, shares), S.RewardsOf) == Sum(all, S.RewardsOf) + SumOf(shares)
    ensures Sum(CreditAll(all, n, addresses, shares), S.StakedOf) == Sum(all, S.StakedOf)
  {
    if addresses != [] {
      var k := |addresses| - 1;
      CreditAllSums(all, n, addresses[..k], shares[..k]);
      CreditSums(CreditAll(all, n, addresses[..k], shares[..k]), S.Slot(n, addresses[k]), shares[k]);
    }
  }

  // The split pays out exactly the reward, and leaves the stakes as they were.
  lemma SplitSums(all: map<Slot, S.Account>, n: nat, operator: Address, reward: int, part: int,
                  addresses: seq<Address>, shares: seq<int>)
    requires |addresses| == |shares| && SumOf(shares) <= reward - part
    ensures var after := Split(all, n, operator, reward, part, addresses, shares);
            && Sum(after, S.RewardsOf) == Sum(all, S.RewardsOf) + reward
            && Sum(after, S.StakedOf) == Sum(all, S.StakedOf)
  {
    var slot := S.Slot(n, operator);
    CreditSums(all, slot, part);
    var first := Credit(all, slot, part);
    CreditAllSums(first, n, addresses, shares);
    CreditSums(CreditAll(first, n, addresses, shares), slot, reward - part - SumOf(shares));
  }

  lemma {:induction false} CreditAllAt(all: map<Slot, S.Account>, n: nat, addresses: seq<Address>, shares: seq<int>,
                                       t: Slot, i: nat)
    requires |addresses| == |shares|
    requires forall j, k :: 0 <= j < k < |addresses| ==> addresses[j] != addresses[k]
    ensures var was, now := At(all, t, S.NOBODY), At(CreditAll(all, n, addresses, shares), t, S.NOBODY);
            && (t.table != n || t.owner !in addresses ==> now == was)
            && (i < |addresses| && t == S.Slot(n, addresses[i]) ==> now == was.(rewards := was.rewards + shares[i]))
  {
    if addresses != [] {
      var k := |addresses| - 1;
      CreditAllAt(all, n, addresses[..k], shares[..k], t, i);
    }
  }

  // What the split pays to each account: its share, and to the operator the rest as well.
  lemma SplitAt(all: map<Slot, S.Account>, n: nat, operator: Address, reward: int, part: int,
                addresses: seq<Address>, shares: seq<int>, t: Slot, i: nat)
    requires |addresses| == |shares|
    requires forall j, k :: 0 <= j < k < |addresses| ==> addresses[j] != addresses[k]
    requires t != S.Slot(n, operator)
    ensures var was := At(all, t, S.NOBODY);
            var now := At(Split(all, n, operator, reward, part, addresses, shares), t, S.NOBODY);
            && (t.table != n || t.owner !in addresses ==> now == was)
            && (i < |addresses| && t == S.Slot(n, addresses[i]) ==> now == was.(rewards := was.rewards + shares[i]))
  {
    CreditAllAt(Credit(all, S.Slot(n, operator), part), n, addresses, shares, t, i);
  }

  lemma {:induction false} CreditAllKeeps(all: map<Slot, S.Account>, n: nat, addresses: seq<Address>, shares: seq<int>)
    requires |addresses| == |shares|
    ensures all.Keys <= CreditAll(all, n, addresses, shares).Keys
  {
    if addresses != [] {
      var k := |addresses| - 1;
      CreditAllKeeps(all, n, addresses[..k], shares[..k]);
    }
  }

  // Who gets what. A negative part is refused, as any negative reward.
  method Plan(money: Money, m: map<Address, S.Account>, reward: nat, perMille: int)
    returns (ok: bool, part: int, addresses: seq<Address>, balances: seq<int>, shares: seq<int>)
    requires Fair(money) && reward <= MAX_REWARD
    requires forall a :: a in m ==> m[a].staked >= 0
    ensures part == money.part(reward, perMille)
    ensures ok == (Sum(m, S.StakedOf) > 0 && perMille <= 500 && part >= 0)
    ensures ok ==> Shared(money, m, reward - part, addresses, shares) && |addresses| == |balances|
    ensures ok ==> forall i :: 0 <= i < |shares| ==> shares[i] >= 0 && (balances[i] <= 0 ==> shares[i] == 0)
  {
    var listed, staked, sum, operator := Collect(m);
    addresses, balances := listed, staked;
    part, shares := money.part(reward, perMille), [];
    ok := sum > 0 && perMille <= 500 && part >= 0;
    if ok {
      shares := Shares(money, reward - part, staked, sum);
      SharesAreShared(money, m, reward - part, listed, staked, shares, sum);
    }
  }

  lemma SharesAreShared(money: Money, m: map<Address, S.Account>, reward: int,
                        addresses: seq<Address>, balances: seq<int>, shares: seq<int>, sum: int)
    requires Fair(money) && reward <= MAX_REWARD && sum == Sum(m, S.StakedOf) == SumOf(balances) > 0 && reward >= 0
    requires shares == Shares(money, reward, balances, sum)
    requires |addresses| == |balances|
    requires forall i :: 0 <= i < |addresses| ==> addresses[i] in m && balances[i] == m[addresses[i]].staked >= 0
    requires forall i, j :: 0 <= i < j < |addresses| ==> addresses[i] != addresses[j]
    requires forall a :: a in m ==> a in addresses
    ensures Shared(money, m, reward, addresses, shares)
    ensures forall i :: 0 <= i < |shares| ==> shares[i] >= 0 && (balances[i] <= 0 ==> shares[i] == 0)
  {
    FairShares(money, reward, balances, sum);
  }

  // The list holds exactly the accounts no longer in todo.
  ghost predicate Listed(m: map<Address, S.Account>, todo: map<Address, S.Account>,
                         addresses: seq<Address>, balances: seq<int>)
  {
    && |addresses| == |balances|
    && (forall i :: 0 <= i < |addresses| ==>
          addresses[i] in m && addresses[i] !in todo && balances[i] == m[addresses[i]].staked)
    && (forall i, j :: 0 <= i < j < |addresses| ==> addresses[i] != addresses[j])
    && (forall a :: a in m && a !in todo ==> a in addresses)
  }

  // The operator leads the operational accounts no longer in todo.
  ghost predicate Leads(m: map<Address, S.Account>, todo: map<Address, S.Account>, best: int, operator: Address) {
    && best >= 0
    && (best > 0 ==> operator in m && m[operator].operational && best == m[operator].staked)
    && (forall a :: a in m && a !in todo && m[a].operational ==> m[a].staked <= best)
  }

  lemma ListedStep(m: map<Address, S.Account>, todo: map<Address, S.Account>,
                   addresses: seq<Address>, balances: seq<int>, a: Address)
    requires Listed(m, todo, addresses, balances) && a in todo && a in m
    ensures Listed(m, todo - {a}, addresses + [a], balances + [m[a].staked])
    ensures SumOf(balances + [m[a].staked]) == SumOf(balances) + m[a].staked
  {
    assert (balances + [m[a].staked])[..|balances|] == balances;
  }

  // The accounts in whatever order the map yields them, their sum, and the operator: an
  // operational account with the highest stake.
  method Collect(m: map<Address, S.Account>)
    returns (addresses: seq<Address>, balances: seq<int>, sum: int, operator: Address)
    ensures |addresses| == |balances| && sum == SumOf(balances) == Sum(m, S.StakedOf)
    ensures forall i :: 0 <= i < |addresses| ==> addresses[i] in m && balances[i] == m[addresses[i]].staked
    ensures forall i, j :: 0 <= i < j < |addresses| ==> addresses[i] != addresses[j]
    ensures forall a :: a in m ==> a in addresses
    ensures LeaderOf(m, operator)
  {
    addresses, balances, sum, operator := [], [], 0, S.ZERO_ADDRESS;
    var best := 0;
    var todo := m;
    while todo != map[]
      invariant todo.Keys <= m.Keys && forall a :: a in todo ==> todo[a] == m[a]
      invariant Listed(m, todo, addresses, balances) && Leads(m, todo, best, operator)
      invariant sum == SumOf(balances) && sum + Sum(todo, S.StakedOf) == Sum(m, S.StakedOf)
      decreases |todo|
    {
      var a :| a in todo;
      var sa := todo[a];
      SumRemove(todo, S.StakedOf, a);
      ListedStep(m, todo, addresses, balances, a);
      todo := todo - {a};
      if best < sa.staked && sa.operational {
        best, operator := sa.staked, a;
      }
      sum := sum + sa.staked;
      addresses, balances := addresses + [a], balances + [sa.staked];
    }
  }

  // An operational account with the highest stake, if any has one.
  ghost predicate LeaderOf(m: map<Address, S.Account>, operator: Address) {
    forall a :: a in m && m[a].operational && m[a].staked > 0 ==>
                  operator in m && m[operator].operational && m[a].staked <= m[operator].staked
  }

  // The first transaction with this hash, or a transaction of zeros, which the test on its length
  // does not find out.
  method FindMain(txs: seq<Tx>, hash: Hash) returns (main: Tx)
    ensures main == MainIn(txs, hash)
    ensures (main in txs && main.hash == hash) || (main == NO_TX && forall t :: t in txs ==> t.hash != hash)
  {
    assert txs[0..] == txs;
    for i := 0 to |txs|
      invariant forall t :: t in txs[..i] ==> t.hash != hash
      invariant MainIn(txs, hash) == MainIn(txs[i..], hash)
    {
      assert txs[i..][1..] == txs[i + 1..];
      if txs[i].hash == hash {
        return txs[i];
      }
    }
    return NO_TX;
  }

  // What the held transfers that were shown come to, when none of them is held again: they are
  // paid in order up to the first that its sender does not have.
  ghost predicate PaidInOrder(m: Accounts, shown: seq<Tx>, paid: seq<Tx>, height: int) {
    NoneHeld(m, shown, height) ==>
      && paid <= shown
      && (paid != shown ==> |paid| < |shown| && var next := shown[|paid|]; BalanceIn(m, next.sender) + MovedAll(paid, next.sender) < next.amount)
  }

  ghost predicate NoneHeld(m: Accounts, txs: seq<Tx>, height: int) {
    forall i :: 0 <= i < |txs| ==> !Held(TermsIn(m, txs[i].sender), txs[i], height)
  }

  lemma MovedSnoc(paid: seq<Tx>, tx: Tx)
    ensures forall a :: MovedAll(paid + [tx], a) == MovedAll(paid, a) + Moved(tx, a)
  {
    assert (paid + [tx])[..|paid|] == paid;
  }

  lemma FirstsGrow(txs: seq<Tx>, k: nat)
    requires k < |txs|
    ensures Firsts(txs, k + 1) == Firsts(txs, k) + {txs[k]} && Firsts(txs, k + 1) <= Firsts(txs, |txs|)
    decreases |txs| - k
  {
    if k + 1 < |txs| {
      FirstsGrow(txs, k + 1);
    }
  }

  // The first k transfers were carried out, each of which went through.
  ghost predicate CarriedOut(m: Accounts, now: Accounts, p: Pools, q: Pools, txs: seq<Tx>, height: int, k: nat)
    requires k <= |txs|
  {
    && OnTrack(m, now, txs, height, k) && AllGoThrough(m, [], txs, height, k)
    && (AllNew(txs, p) ==> Waiting(p, q, m, txs, height, k))
  }

  lemma CarriedOn(m: Accounts, before: Accounts, after: Accounts, p: Pools, q: Pools, r: Pools, txs: seq<Tx>, height: int, k: nat)
    requires k < |txs| && CarriedOut(m, before, p, q, txs, height, k)
    requires Passes(before, txs[k], height) && Makes(before, after, txs[k], height)
    requires Deferring(q, r, TermsIn(before, txs[k].sender), txs[k], height)
    ensures CarriedOut(m, after, p, r, txs, height, k + 1)
  {
    OnTrackStep(m, before, txs, height, k);
    OnTrackNext(m, before, after, txs, height, k);
    if AllNew(txs, p) {
      assert TermsIn(before, txs[k].sender) == RanTerms(m, txs, k, txs[k].sender);
      WaitingNext(p, q, r, m, txs, height, k);
    }
  }

  // Nothing but the held transfers in paid was carried out.
  ghost predicate Paid(was: Accounts, now: Accounts, paid: seq<Tx>) {
    forall a :: BalanceIn(now, a) == BalanceIn(was, a) + MovedAll(paid, a) && TermsIn(now, a) == TermsIn(was, a)
  }

  ghost predicate MovesOnly(m: Accounts, now: Accounts, tx: Tx, moved: bool) {
    forall a :: BalanceIn(now, a) == BalanceIn(m, a) + (if moved then Moved(tx, a) else 0) && TermsIn(now, a) == TermsIn(m, a)
  }

  // A held transfer is paid in full or not at all, and not before its delay is over or while it
  // takes signatures.
  ghost predicate PaysHeld(m: Accounts, now: Accounts, tx: Tx, height: int, moved: bool) {
    && MovesOnly(m, now, tx, moved)
    && (moved && tx.multiSignTx == 0 ==> Ripe(TermsIn(m, tx.sender), tx, height) && TermsIn(m, tx.sender).1 == 0)
  }

  // What the first i of the shown transfers came to.
  ghost predicate HeldSoFar(m: Accounts, now: Accounts, p: Pools, q: Pools, txs: seq<Tx>, paid: seq<Tx>, height: int, i: nat)
    requires i <= |txs|
  {
    && PaidFrom(m, q, txs, paid, height, i) && Paid(m, now, paid)
    && q.escrow <= p.escrow && q.multi <= p.multi + p.escrow && (i == 0 ==> q == p)
  }

  // Some of them were paid, each once and out of the pool, and none before its time.
  ghost predicate PaidFrom(m: Accounts, q: Pools, txs: seq<Tx>, paid: seq<Tx>, height: int, i: nat)
    requires i <= |txs|
  {
    NoRepeats(paid) && forall t :: t in paid ==> t in txs[..i] && t !in q.escrow && InTime(m, t, height)
  }

  ghost predicate InTime(m: Accounts, t: Tx, height: int) {
    t.multiSignTx == 0 ==> Ripe(TermsIn(m, t.sender), t, height) && TermsIn(m, t.sender).1 == 0
  }

  lemma HeldStep(m: Accounts, before: Accounts, after: Accounts, p: Pools, q: Pools, r: Pools, txs: seq<Tx>, paid: seq<Tx>,
                 height: int, i: nat, moved: bool)
    requires i < |txs| && NoRepeats(txs) && txs[i] in p.escrow
    requires HeldSoFar(m, before, p, q, txs, paid, height, i) && PaysHeld(before, after, txs[i], height, moved)
    requires r.escrow <= q.escrow && r.multi <= q.multi + {txs[i]} && (moved ==> txs[i] !in r.escrow)
    ensures HeldSoFar(m, after, p, r, txs, if moved then paid + [txs[i]] else paid, height, i + 1)
  {
    MovedSnoc(paid, txs[i]);
    PaidOneMore(m, q, r, txs, paid, height, i, moved);
  }

  lemma PaidOneMore(m: Accounts, q: Pools, r: Pools, txs: seq<Tx>, paid: seq<Tx>, height: int, i: nat, moved: bool)
    requires i < |txs| && NoRepeats(txs) && PaidFrom(m, q, txs, paid, height, i) && r.escrow <= q.escrow
    requires moved ==> txs[i] !in r.escrow && InTime(m, txs[i], height)
    ensures PaidFrom(m, r, txs, if moved then paid + [txs[i]] else paid, height, i + 1)
  {
    assert txs[..i + 1] == txs[..i] + [txs[i]];
    if moved {
      OneMorePaid(txs, paid, i);
    }
  }

  // A transfer that is not held again and not paid is one that its sender does not have.
  lemma HeldStops(m: Accounts, before: Accounts, p: Pools, q: Pools, txs: seq<Tx>, paid: seq<Tx>, height: int, i: nat)
    requires i < |txs| && HeldSoFar(m, before, p, q, txs, paid, height, i) && (NoneHeld(m, txs, height) ==> paid == txs[..i])
    requires !Held(TermsIn(before, txs[i].sender), txs[i], height) ==> BalanceIn(before, txs[i].sender) < txs[i].amount
    ensures PaidInOrder(m, txs, paid, height)
  {
  }

  lemma PaidFromMore(m: Accounts, q: Pools, txs: seq<Tx>, paid: seq<Tx>, height: int, i: nat)
    requires i <= |txs| && PaidFrom(m, q, txs, paid, height, i)
    ensures NoRepeats(paid) && forall t :: t in paid ==> t in txs && t !in q.escrow && InTime(m, t, height)
  {
  }

  lemma OneMorePaid(txs: seq<Tx>, paid: seq<Tx>, i: nat)
    requires i < |txs| && NoRepeats(txs) && NoRepeats(paid) && forall t :: t in paid ==> t in txs[..i]
    ensures NoRepeats(paid + [txs[i]])
  {
    forall j | 0 <= j < |paid|
      ensures paid[j] != txs[i]
    {
      assert paid[j] in paid;
    }
  }

  lemma ShiftedBlock(was: Accounts, now: Accounts, paid: seq<Tx>, txs: seq<Tx>, height: int)
    requires Paid(was, now, paid)
    ensures AllGoThrough(now, [], txs, height, |txs|) <==> AllGoThrough(was, paid, txs, height, |txs|)
    ensures forall a :: Ran(now, [], txs, height, |txs|, a) == Ran(was, paid, txs, height, |txs|, a)
    ensures Deferred(now, txs, height, |txs|) == Deferred(was, txs, height, |txs|)
  {
    forall k | 0 <= k < |txs|
      ensures GoesThrough(now, [], txs, height, k) <==> GoesThrough(was, paid, txs, height, k)
    {
      PaidFirstGoesThrough(was, now, paid, txs, height, k);
    }
    forall a
      ensures Ran(now, [], txs, height, |txs|, a) == Ran(was, paid, txs, height, |txs|, a)
    {
      PaidFirst(was, now, paid, txs, height, |txs|, a);
    }
    PaidFirstDeferred(was, now, paid, txs, height, |txs|);
  }

  // --- Chains ---

  // What a block finds.
  datatype State = State(accounts: Accounts, stakes: Stakes, escrow: set<Tx>, tip: Tip)

  // Who led its delegated account, which held transfers were paid first, and the verdict.
  datatype Turn = Turn(leader: Address, paid: seq<Tx>, ok: bool)

  // A block leads from one state to the next: what is refused changes no account and no stake,
  // what is accepted was checked, and for ordinary transfers the verdict is exact and the balances
  // are those of carrying them out.
  ghost predicate TurnOf(money: Money, s: State, next: State, block: Block, turn: Turn) {
    && (forall t :: t in turn.paid ==> t in s.escrow) && NoRepeats(turn.paid)
    && (1 <= Delegated(block.delegated) <= 255 ==> LeaderOf(With(s.stakes, Delegated(block.delegated)), turn.leader))
    && next.escrow <= s.escrow + Firsts(block.txs, |block.txs|)
    && (!turn.ok ==> next.accounts == s.accounts && next.stakes == s.stakes && next.tip == s.tip)
    && (turn.ok ==> Checked(money, s.accounts, s.stakes, block, s.tip, turn.leader) && next.tip == Tip(block.supply, s.tip.fee + Fees(block.txs)))
    && (OrdinaryBlock(block.txs) ==>
          && (turn.ok <==> Accepts(money, s.accounts, s.stakes, block, s.tip, turn.leader, turn.paid))
          && (turn.ok ==> forall a :: BalanceIn(next.accounts, a) == Ran(s.accounts, turn.paid, block.txs, block.height, |block.txs|, a)))
  }

  ghost predicate Chain(money: Money, states: seq<State>, turns: seq<Turn>, blocks: seq<Block>, k: nat)
    requires k <= |blocks|
  {
    && |turns| == k && |states| == k + 1
    && forall i :: 0 <= i < k ==> TurnOf(money, states[i], states[i + 1], blocks[i], turns[i])
  }

  lemma ChainStep(money: Money, states: seq<State>, turns: seq<Turn>, blocks: seq<Block>, k: nat, after: State, turn: Turn)
    requires k < |blocks| && Chain(money, states, turns, blocks, k) && TurnOf(money, states[k], after, blocks[k], turn)
    ensures Chain(money, states + [after], turns + [turn], blocks, k + 1)
  {
    var s, t := states + [after], turns + [turn];
    forall i | 0 <= i < k + 1
      ensures TurnOf(money, s[i], s[i + 1], blocks[i], t[i])
    {
      if i < k {
        assert s[i] == states[i] && s[i + 1] == states[i + 1] && t[i] == turns[i];
      }
    }
  }

  // The books over a chain: the supply never falls, the fees of the accepted blocks are carried on,
  // and what the ledger holds is off by the uncharged fees of the last of them, none before it
  // having any.
  ghost predicate Booked(total: int, tip: Tip, genesis: Tip, accepted: seq<Block>) {
    && genesis.supply <= tip.supply <= MAX_TOTAL_SUPPLY && tip.fee == genesis.fee + FeesOfAll(accepted)
    && total + tip.fee == tip.supply + Gap(accepted)
    && forall i :: 0 <= i < |accepted| - 1 ==> Uncharged(accepted[i].txs) == 0
  }

  lemma BookedStep(total: int, tip: Tip, total': int, next: Tip, genesis: Tip, accepted: seq<Block>, block: Block)
    requires Booked(total, tip, genesis, accepted) && next.fee == tip.fee + Fees(block.txs)
    requires tip.supply <= next.supply <= MAX_TOTAL_SUPPLY
    requires total + tip.fee == tip.supply && total' + next.fee == next.supply + Uncharged(block.txs)
    ensures Booked(total', next, genesis, accepted + [block])
  {
    var longer, n := accepted + [block], |accepted|;
    assert longer[..n] == accepted && longer[n] == block;
    assert Gap(accepted) == 0;
    forall i | 0 <= i < n
      ensures Uncharged(longer[i].txs) == 0
    {
      assert longer[i] == accepted[i];
    }
  }

  // The blocks with a favourable verdict.
  function Taken(blocks: seq<Block>, turns: seq<Turn>): seq<Block>
    requires |turns| == |blocks|
  {
    if blocks == [] then []
    else
      var k := |blocks| - 1;
      Taken(blocks[..k], turns[..k]) + if turns[k].ok then [blocks[k]] else []
  }

  lemma TakenStep(blocks: seq<Block>, turns: seq<Turn>, k: nat, turn: Turn)
    requires k < |blocks| && |turns| == k
    ensures Taken(blocks[..k + 1], turns + [turn]) == Taken(blocks[..k], turns) + if turn.ok then [blocks[k]] else []
  {
    assert blocks[..k + 1][..k] == blocks[..k] && (turns + [turn])[..k] == turns;
  }

  // --- Two inputs ---

  // A confirmation of a transaction that nobody sent is not refused at a low height: the transfer
  // of nothing from and to the zero address is carried out. From 60481 on it is refused.
  method MissingMainGoesOn(money: Money, keyOf: Hash -> int) returns (low: bool, high: bool)
    ensures low && !high
  {
    var l := new Ledger(money, keyOf);
    var tx := NO_TX.(hash := 2, multiSignTx := 1);
    ghost var shown, paid;
    low, shown, paid := l.ProcessTransactionsMultiSign(tx, 1);
    Unshown(shown);
    var m := new Ledger(money, keyOf);
    high, shown, paid := m.ProcessTransactionsMultiSign(tx, 60481);
    Unshown(shown);
  }

  const SENDER := S.Address(9, 9)
  const NODE := S.Address(8, 8)

  // A sender of 10 turns its account into an escrow account, and sends the 10, which is held.
  const SETUP: Tx := NO_TX.(hash := 1, sender := SENDER, recipient := SENDER, height := 1, escrowDelay := 5)
  const FIRST: Tx := NO_TX.(hash := 2, sender := SENDER, recipient := NODE, height := 1, amount := 10)
  // It sends the 10 once more.
  const AGAIN: Tx := NO_TX.(hash := 3, sender := SENDER, recipient := NODE, height := 2, amount := 10)

  function BlockOf(money: Money, height: int, txs: seq<Tx>, perMille: int): Block {
    Block(height, 10 + MIN_STAKING_FOR_NODE + money.rewardAfter(10 + MIN_STAKING_FOR_NODE), txs, S.Address(1, 0), NODE, perMille)
  }

  // A first block with a part of the reward above the limit is refused after its transactions were
  // carried out. Accounts and stakes are reloaded, but the held transfer stays in the pool, its
  // sender an ordinary account again. The check accepts a second block, in which the sender sends
  // all it has; the held transfer is paid first, and the block is refused.
  method HeldTransferStarves(money: Money, keyOf: Hash -> int) returns (first: bool, second: bool, ghost leader: Address)
    requires Fair(money) && forall r :: money.part(r, 0) == 0
    ensures !first && !second
    ensures Accepts(money, Start(), Staked(), BlockOf(money, 2, [AGAIN], 0), Tip(10 + MIN_STAKING_FOR_NODE, 0), leader, [])
  {
    var l;
    l, first := FirstRefused(money, keyOf);
    Reload(l);
    var block, tip := BlockOf(money, 2, [AGAIN], 0), Tip(10 + MIN_STAKING_FOR_NODE, 0);
    SecondVerdict(money, block, tip);
    var fee;
    ghost var shown, paid;
    second, fee, leader, shown, paid := l.CheckBlockAndTransferFunds(block, tip);
    OneShown(shown, paid);
  }

  lemma SecondVerdict(money: Money, block: Block, tip: Tip)
    requires block == BlockOf(money, 2, [AGAIN], 0) && tip == Tip(10 + MIN_STAKING_FOR_NODE, 0)
    requires Fair(money) && money.part(money.rewardAfter(tip.supply), 0) == 0
    ensures OrdinaryBlock(block.txs) && forall t :: t in block.txs ==> Sane(t)
    ensures forall leader :: LeaderOf(With(Staked(), 1), leader) ==> leader == NODE
    ensures Checked(money, Start(), Staked(), block, tip, NODE) && Accepts(money, Start(), Staked(), block, tip, NODE, [])
    ensures |block.txs| == 1 && block.txs == [AGAIN]
  {
    StartSums();
    SecondBlock(block.txs);
  }

  method FirstRefused(money: Money, keyOf: Hash -> int) returns (l: Ledger, ok: bool)
    requires Fair(money)
    ensures fresh(l) && fresh(l.stakes) && l.Valid() && l.money == money && !ok
    ensures l.pools.orderly && l.pools.escrow == {FIRST}
  {
    l := Opened(money, keyOf);
    var block, tip := BlockOf(money, 1, [SETUP, FIRST], 501), Tip(10 + MIN_STAKING_FOR_NODE, 0);
    FirstVerdict(money, block, tip);
    var fee;
    ghost var leader, shown, paid;
    ok, fee, leader, shown, paid := l.CheckBlockAndTransferFunds(block, tip);
    Unshown(shown);
    FirstWaits(l.pools, block.txs);
  }

  lemma FirstWaits(p: Pools, txs: seq<Tx>)
    requires |txs| == 2 && Waiting(Pools({}, {}, {}, true), p, Start(), txs, 1, 2) && Deferred(Start(), txs, 1, 2) == {FIRST}
    ensures p.orderly && p.escrow == {FIRST}
  {
  }

  method Opened(money: Money, keyOf: Hash -> int) returns (l: Ledger)
    ensures fresh(l) && fresh(l.stakes) && l.Valid() && l.money == money
    ensures l.accounts == Start() && l.stakes.all == Staked() && l.pools == Pools({}, {}, {}, true)
  {
    l := new Ledger(money, keyOf);
    Reload(l);
  }

  // What reloading the stored accounts and stakes does.
  method Reload(l: Ledger)
    requires l.Valid()
    modifies l`accounts, l.stakes
    ensures l.Valid() && l.accounts == Start() && l.stakes.all == Staked()
  {
    l.accounts, l.stakes.all := Start(), Staked();
  }

  lemma FirstVerdict(money: Money, block: Block, tip: Tip)
    requires block == BlockOf(money, 1, [SETUP, FIRST], 501) && tip == Tip(10 + MIN_STAKING_FOR_NODE, 0)
    ensures OrdinaryBlock(block.txs) && AllNew(block.txs, Pools({}, {}, {}, true)) && forall t :: t in block.txs ==> Sane(t)
    ensures LeaderOf(With(Staked(), 1), NODE) && forall leader :: LeaderOf(With(Staked(), 1), leader) ==> leader == NODE
    ensures Checked(money, Start(), Staked(), block, tip, NODE)
    ensures forall paid :: !Accepts(money, Start(), Staked(), block, tip, NODE, paid)
    ensures AllGoThrough(Start(), [], block.txs, 1, 2) && Deferred(Start(), block.txs, 1, 2) == {FIRST} && |block.txs| == 2
  {
    StartSums();
    FirstBlock(block.txs);
  }

  lemma Unshown(shown: seq<Tx>)
    requires forall t :: t !in shown
    ensures shown == []
  {
    assert forall t :: t in multiset(shown) <==> t in shown;
    assert multiset(shown) == multiset{};
    assert |multiset(shown)| == |shown|;
  }

  lemma OneShown(shown: seq<Tx>, paid: seq<Tx>)
    requires NoRepeats(shown) && (forall t :: t in shown <==> t == FIRST) && PaidInOrder(Start(), shown, paid, 2)
    ensures paid == [FIRST] && !AllGoThrough(Start(), paid, [AGAIN], 2, 1)
  {
    Single(shown, FIRST);
    assert MovedAll([], SENDER) == 0 && [FIRST][..0] == [];
    assert !GoesThrough(Start(), [FIRST], [AGAIN], 2, 0);
  }

  lemma Single(s: seq<Tx>, t: Tx)
    requires NoRepeats(s) && forall x :: x in s <==> x == t
    ensures s == [t]
  {
    CountOnce(s, t);
    assert forall x :: x in multiset(s) <==> x in s;
    assert multiset(s) == multiset{t};
    assert |multiset(s)| == |s| && (|s| == 1 ==> s[0] in multiset(s));
  }

  lemma {:induction false} CountOnce(s: seq<Tx>, t: Tx)
    requires NoRepeats(s)
    ensures multiset(s)[t] == if t in s then 1 else 0
  {
    if s != [] {
      var n := |s| - 1;
      CountOnce(s[..n], t);
      assert s == s[..n] + [s[n]];
    }
  }

  lemma FirstBlock(txs: seq<Tx>)
    requires txs == [SETUP, FIRST]
    ensures OrdinaryBlock(txs) && Passed(Start(), Staked(), txs, 2) && AllNew(txs, Pools({}, {}, {}, true))
    ensures AllGoThrough(Start(), [], txs, 1, 2) && Deferred(Start(), txs, 1, 2) == {FIRST}
  {
    forall a
      ensures Spent(txs[..1], a) == 0 && Spent(txs[..2], a) == if a == SENDER then 10 else 0
    {
      SpentStep(txs, 0, a);
      SpentStep(txs, 1, a);
      assert txs[..0] == [];
    }
    assert txs[..0] == [] && txs[..2] == txs;
    assert CoversIn(Start(), txs, 0) && CoversIn(Start(), txs, 1) && CoversIn(Start(), txs, 2);
    assert RanTerms(Start(), txs, 0, SENDER) == (0, 0) && RanTerms(Start(), txs, 1, SENDER) == (5, 0);
    assert RanTerms(Start(), txs, 1, NODE) == (0, 0);
    assert Ran(Start(), [], txs, 1, 0, SENDER) == 10 && Ran(Start(), [], txs, 1, 1, SENDER) == 10;
    assert GoesThrough(Start(), [], txs, 1, 0) && GoesThrough(Start(), [], txs, 1, 1);
    DeferredStep(Start(), txs, 1, 0);
    DeferredStep(Start(), txs, 1, 1);
  }

  lemma SecondBlock(txs: seq<Tx>)
    requires txs == [AGAIN]
    ensures OrdinaryBlock(txs) && Passed(Start(), Staked(), txs, 1) && AllGoThrough(Start(), [], txs, 2, 1)
  {
    forall a
      ensures Spent(txs[..1], a) == if a == SENDER then 10 else 0
    {
      SpentStep(txs, 0, a);
      assert txs[..0] == [];
    }
    assert txs[..0] == [] && txs[..1] == txs;
    assert CoversIn(Start(), txs, 0) && CoversIn(Start(), txs, 1);
    assert Ran(Start(), [], txs, 2, 0, SENDER) == 10 && RanTerms(Start(), txs, 0, SENDER) == (0, 0);
    assert GoesThrough(Start(), [], txs, 2, 0);
  }

  function Start(): Accounts { map[SENDER := Account(10, 0, 0, [])] }

  function Staked(): Stakes { map[S.Slot(1, NODE) := S.Account(MIN_STAKING_FOR_NODE, 0, [], true, 1)] }

  lemma StartSums()
    ensures Sum(Start(), BalanceOf) == 10 && Sum(Staked(), S.StakedOf) == MIN_STAKING_FOR_NODE && Sum(Staked(), S.RewardsOf) == 0
    ensures Sum(With(Staked(), 1), S.StakedOf) == MIN_STAKING_FOR_NODE
    ensures forall leader :: LeaderOf(With(Staked(), 1), leader) <==> leader == NODE
  {
    SumRemove(Start(), BalanceOf, SENDER);
    assert Start() - {SENDER} == map[];
    SumRemove(Staked(), S.StakedOf, S.Slot(1, NODE));
    SumRemove(Staked(), S.RewardsOf, S.Slot(1, NODE));
    assert Staked() - {S.Slot(1, NODE)} == map[];
    SumRemove(With(Staked(), 1), S.StakedOf, NODE);
    assert With(Staked(), 1) - {NODE} == map[];
    assert NODE in With(Staked(), 1);
  }
}
