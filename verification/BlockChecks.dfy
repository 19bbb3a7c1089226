// What a block is checked for before its transactions are carried out
// (blocks/processBlock.go:151-256, blocks/processTransaction.go:15-116), and when a block of
// transfers is accepted.
module BlockChecks {
  import opened MapSums
  import opened Rewards
  import opened Transfers
  import S = Staking

  type Stakes = map<Slot, S.Account>
  type Accounts = map<Address, Account>

  datatype Block = Block(height: int, supply: int, txs: seq<Tx>, delegated: Address, operator: Address, perMille: int)

  // What the next block has to know of the last one.
  datatype Tip = Tip(supply: int, fee: int)

  // The accounts staked with delegated account n.
  function With(all: Stakes, n: nat): (m: map<Address, S.Account>)
    ensures forall a :: a in m <==> S.Slot(n, a) in all
    ensures forall a :: a in m ==> m[a] == all[S.Slot(n, a)]
  {
    map s | s in all && s.table == n :: s.owner := all[s]
  }

  // The account that the staking code finds in a slot; the zero address is always found.
  predicate Present(all: Stakes, s: Slot) { s in all || s.owner == S.ZERO_ADDRESS }

  predicate Known(m: Accounts, a: Address) { a in m || a == S.ZERO_ADDRESS }

  // A transaction that confirms another has no effect of its own.
  predicate ConfirmsOnly(tx: Tx) {
    tx.multiSignTx != 0 ==> tx.amount <= 0 && !tx.operational && tx.lockedAmount <= 0 && tx.multiSignNumber == 0
  }

  // CheckStakingTransaction: the amounts of a lock, a stake, an unstake or a withdrawal are in
  // order, alone and with what the sender does before in the block.
  predicate CheckStakingTransaction(m: Accounts, all: Stakes, tx: Tx, sumAmount: int, sumFee: int) {
    && Known(m, tx.sender)
    && BalanceIn(m, tx.sender) >= tx.fee && BalanceIn(m, tx.sender) >= sumFee
    && match RouteOf(tx)
       case Malformed => false
       case Locking(_) =>
         tx.amount >= MIN_STAKING_USER && tx.lockedAmount <= tx.amount && 0 <= tx.release <= tx.lockedAmount
       case Staking(n) =>
         var acc := At(all, S.Slot(n, tx.sender), S.NOBODY);
         && (acc.delegated != n ==> tx.amount > 0)
         && (tx.amount <= 0 || tx.amount >= MIN_STAKING_USER)
         && (acc.staked + tx.amount >= MIN_STAKING_USER || acc.staked + tx.amount == 0)
         && (sumAmount <= 0 || sumAmount >= MIN_STAKING_USER)
         && (acc.staked + sumAmount >= MIN_STAKING_USER || acc.staked + sumAmount == 0)
       case Withdrawal(n) =>
         var s := S.Slot(n, tx.sender);
         Present(all, s) && At(all, s, S.NOBODY).rewards + tx.amount >= 0
       case _ => true
  }

  // --- The local copies of stakes that the check works on ---

  // For a delegated account below 512.
  predicate Delegates(tx: Tx) { RouteOf(tx).Locking? || RouteOf(tx).Staking? || RouteOf(tx).Withdrawal? }

  predicate DelegatesFor(tx: Tx, a: Address) { Delegates(tx) && tx.sender == a }

  // The first of the first k transactions in which a deals with a delegated account, or k.
  function FirstOf(txs: seq<Tx>, k: nat, a: Address): (i: nat)
    requires k <= |txs|
    ensures i <= k && (i < k ==> DelegatesFor(txs[i], a))
  {
    if k == 0 then 0
    else
      var i := FirstOf(txs, k - 1, a);
      if i < k - 1 || DelegatesFor(txs[k - 1], a) then i else k
  }

  // The amounts and the fees of these transactions, added up.
  function AmountsOf(txs: seq<Tx>, k: nat, a: Address): int
    requires k <= |txs|
  {
    if k == 0 then 0 else AmountsOf(txs, k - 1, a) + if DelegatesFor(txs[k - 1], a) then txs[k - 1].amount else 0
  }

  function FeesOf(txs: seq<Tx>, k: nat, a: Address): int
    requires k <= |txs|
  {
    if k == 0 then 0 else FeesOf(txs, k - 1, a) + if DelegatesFor(txs[k - 1], a) then txs[k - 1].fee else 0
  }

  // On top of the stake and the rewards that a has with the first delegated account it deals with.
  function SumsOf(all: Stakes, txs: seq<Tx>, k: nat, a: Address): (int, int)
    requires k <= |txs| && FirstOf(txs, k, a) < k
  {
    var first := txs[FirstOf(txs, k, a)];
    var acc := At(all, S.Slot(RouteOf(first).n, a), S.NOBODY);
    (acc.staked + AmountsOf(txs, k, a), acc.rewards + FeesOf(txs, k, a))
  }

  // The local copies hold these sums for everyone who deals with a delegated account.
  ghost predicate TracksSums(sums: map<Address, (int, int)>, all: Stakes, txs: seq<Tx>, k: nat)
    requires k <= |txs|
  {
    forall a :: SumTracked(sums, all, txs, k, a)
  }

  ghost predicate SumTracked(sums: map<Address, (int, int)>, all: Stakes, txs: seq<Tx>, k: nat, a: Address)
    requires k <= |txs|
  {
    if FirstOf(txs, k, a) < k then a in sums && sums[a] == SumsOf(all, txs, k, a) else a !in sums
  }

  // One more transaction of its sender: the copy is the table's when it is the first, and the
  // amounts are added.
  lemma SumsStep(sums: map<Address, (int, int)>, all: Stakes, txs: seq<Tx>, k: nat)
    requires k < |txs| && TracksSums(sums, all, txs, k)
    ensures !Delegates(txs[k]) ==> TracksSums(sums, all, txs, k + 1)
    ensures Delegates(txs[k]) ==>
              var tx := txs[k];
              var acc := At(all, S.Slot(RouteOf(tx).n, tx.sender), S.NOBODY);
              var sum := At(sums, tx.sender, (acc.staked, acc.rewards));
              && (sum.0 + tx.amount, sum.1 + tx.fee) == SumsOf(all, txs, k + 1, tx.sender)
              && TracksSums(sums[tx.sender := SumsOf(all, txs, k + 1, tx.sender)], all, txs, k + 1)
  {
    var tx := txs[k];
    if Delegates(tx) {
      assert SumTracked(sums, all, txs, k, tx.sender);
      OneSum(sums, all, txs, k);
    }
    var next := k + 1;
    var now := if Delegates(tx) then sums[tx.sender := SumsOf(all, txs, next, tx.sender)] else sums;
    forall a
      ensures SumTracked(now, all, txs, next, a)
    {
      assert SumTracked(sums, all, txs, k, a);
      if !DelegatesFor(tx, a) {
        OtherSum(sums, now, all, txs, k, a);
      }
    }
  }

  lemma SumStep(txs: seq<Tx>, k: nat, a: Address)
    requires k < |txs|
    ensures var i := FirstOf(txs, k, a); FirstOf(txs, k + 1, a) == if i < k || DelegatesFor(txs[k], a) then i else k + 1
    ensures AmountsOf(txs, k + 1, a) == AmountsOf(txs, k, a) + if DelegatesFor(txs[k], a) then txs[k].amount else 0
    ensures FeesOf(txs, k + 1, a) == FeesOf(txs, k, a) + if DelegatesFor(txs[k], a) then txs[k].fee else 0
  {
  }

  lemma OtherSum(sums: map<Address, (int, int)>, now: map<Address, (int, int)>, all: Stakes, txs: seq<Tx>, k: nat, a: Address)
    requires k < |txs| && !DelegatesFor(txs[k], a) && SumTracked(sums, all, txs, k, a)
    requires (a in now <==> a in sums) && (a in sums ==> now[a] == sums[a])
    ensures SumTracked(now, all, txs, k + 1, a)
  {
    SumStep(txs, k, a);
  }

  lemma OneSum(sums: map<Address, (int, int)>, all: Stakes, txs: seq<Tx>, k: nat)
    requires k < |txs| && Delegates(txs[k]) && SumTracked(sums, all, txs, k, txs[k].sender)
    ensures var tx := txs[k];
            var acc := At(all, S.Slot(RouteOf(tx).n, tx.sender), S.NOBODY);
            var sum := At(sums, tx.sender, (acc.staked, acc.rewards));
            FirstOf(txs, k + 1, tx.sender) <= k && (sum.0 + tx.amount, sum.1 + tx.fee) == SumsOf(all, txs, k + 1, tx.sender)
  {
    SumsNext(all, txs, k, txs[k].sender);
  }

  lemma SumsNext(all: Stakes, txs: seq<Tx>, k: nat, a: Address)
    requires k < |txs| && DelegatesFor(txs[k], a)
    ensures FirstOf(txs, k + 1, a) == FirstOf(txs, k, a) <= k
    ensures var tx := txs[k];
            var acc := At(all, S.Slot(RouteOf(tx).n, a), S.NOBODY);
            var sum := if FirstOf(txs, k, a) < k then SumsOf(all, txs, k, a) else (acc.staked, acc.rewards);
            SumsOf(all, txs, k + 1, a) == (sum.0 + tx.amount, sum.1 + tx.fee)
  {
    SumStep(txs, k, a);
    NothingYet(txs, k, a);
  }

  lemma {:induction false} NothingYet(txs: seq<Tx>, k: nat, a: Address)
    requires k <= |txs|
    ensures FirstOf(txs, k, a) == k ==> AmountsOf(txs, k, a) == 0 && FeesOf(txs, k, a) == 0
  {
    if k > 0 {
      NothingYet(txs, k - 1, a);
    }
  }

  // Nothing that a sender does with a delegated account comes before the first.
  lemma {:induction false} FirstIsFirst(txs: seq<Tx>, k: nat, a: Address)
    requires k <= |txs|
    ensures forall j :: 0 <= j < FirstOf(txs, k, a) ==> !DelegatesFor(txs[j], a)
  {
    if k > 0 {
      FirstIsFirst(txs, k - 1, a);
    }
  }

  // --- The check ---

  // Transaction i of a block is in order: a proper lock, the staking check with the sums so far, a
  // known sender, and no effect of its own for one that confirms another.
  predicate InOrder(m: Accounts, all: Stakes, txs: seq<Tx>, i: nat)
    requires i < |txs|
  {
    var tx := txs[i];
    && !RouteOf(tx).Malformed?
    && (Delegates(tx) ==>
          FirstOf(txs, i + 1, tx.sender) <= i &&
          var (amount, fee) := SumsOf(all, txs, i + 1, tx.sender); CheckStakingTransaction(m, all, tx, amount, fee))
    && Known(m, tx.sender) && ConfirmsOnly(tx)
  }

  // The first k transactions are in order, and every sender holds enough for its own up to each
  // point of the block.
  ghost predicate Passed(m: Accounts, all: Stakes, txs: seq<Tx>, k: nat)
    requires k <= |txs|
  {
    && (forall i :: 0 <= i < k ==> InOrder(m, all, txs, i))
    && (forall i :: 0 <= i <= k ==> CoversIn(m, txs, i))
  }

  lemma PassedStep(m: Accounts, all: Stakes, txs: seq<Tx>, i: nat)
    requires i < |txs|
    ensures Passed(m, all, txs, i + 1) <==> Passed(m, all, txs, i) && InOrder(m, all, txs, i) && CoversIn(m, txs, i + 1)
    ensures Passed(m, all, txs, |txs|) ==> Passed(m, all, txs, i + 1)
  {
  }

  // What is left of each sender's balance in the local copies.
  ghost predicate TracksBalances(left: map<Address, int>, m: Accounts, txs: seq<Tx>, i: nat)
    requires i <= |txs|
  {
    forall a :: At(left, a, BalanceIn(m, a)) == BalanceIn(m, a) - Spent(txs[..i], a) >= 0
  }

  lemma BalancesStep(left: map<Address, int>, m: Accounts, txs: seq<Tx>, i: nat, balance: int)
    requires i < |txs| && TracksBalances(left, m, txs, i)
    requires balance == At(left, txs[i].sender, BalanceIn(m, txs[i].sender)) - (txs[i].fee + txs[i].amount)
    ensures balance >= 0 ==> TracksBalances(left[txs[i].sender := balance], m, txs, i + 1)
    ensures balance >= 0 <==> CoversIn(m, txs, i + 1)
  {
    var now, s := left[txs[i].sender := balance], txs[i].sender;
    forall a
      ensures At(now, a, BalanceIn(m, a)) == BalanceIn(m, a) - Spent(txs[..i + 1], a)
      ensures a != s ==> BalanceIn(m, a) - Spent(txs[..i + 1], a) >= 0
    {
      assert At(left, a, BalanceIn(m, a)) == BalanceIn(m, a) - Spent(txs[..i], a) >= 0;
      SpentStep(txs, i, a);
    }
    assert At(now, s, BalanceIn(m, s)) == balance;
  }

  // --- When a block is accepted ---

  // What is checked before anything is carried out, when leader is the account that leads the
  // block's delegated account.
  ghost predicate Checked(money: Money, m: Accounts, all: Stakes, block: Block, tip: Tip, leader: Address) {
    && LedBy(all, block, leader) && Passed(m, all, block.txs, |block.txs|)
    && block.supply == tip.supply + money.rewardAfter(tip.supply)
    && Sum(m, BalanceOf) + Sum(all, S.StakedOf) + Sum(all, S.RewardsOf) + tip.fee == tip.supply
  }

  // The block's delegated account has enough stake, and its operator leads it.
  ghost predicate LedBy(all: Stakes, block: Block, leader: Address) {
    var n := Delegated(block.delegated);
    1 <= n <= 255 && Sum(With(all, n), S.StakedOf) >= MIN_STAKING_FOR_NODE && leader == block.operator
  }

  // What the block's reward needs to be paid out.
  ghost predicate RewardDue(money: Money, all: Stakes, block: Block, reward: nat) {
    var n := Delegated(block.delegated);
    && 1 <= n <= 255 && Sum(With(all, n), S.StakedOf) > 0 && block.perMille <= 500
    && money.part(reward, block.perMille) >= 0 && Present(all, S.Slot(n, block.operator))
  }

  // A block of ordinary transfers is accepted when it passes the check, each transfer goes through
  // behind the held ones that are paid first, and the reward can be paid out.
  ghost predicate Accepts(money: Money, m: Accounts, all: Stakes, block: Block, tip: Tip, leader: Address, paid: seq<Tx>) {
    && Checked(money, m, all, block, tip, leader) && AllGoThrough(m, paid, block.txs, block.height, |block.txs|)
    && money.rewardAfter(tip.supply) >= 0 && RewardDue(money, all, block, money.rewardAfter(tip.supply))
  }

  predicate OrdinaryBlock(txs: seq<Tx>) { forall i :: 0 <= i < |txs| ==> Ordinary(txs[i]) }

  // --- Fees that are counted and not charged ---

  function Uncharged(txs: seq<Tx>): int { Fees(txs) - ChargedAll(txs) }

  function FeesOfAll(blocks: seq<Block>): int {
    if blocks == [] then 0 else FeesOfAll(blocks[..|blocks| - 1]) + Fees(blocks[|blocks| - 1].txs)
  }

  // What the books are off by: the fees the last block counted and did not charge.
  function Gap(accepted: seq<Block>): int {
    if accepted == [] then 0 else Uncharged(accepted[|accepted| - 1].txs)
  }

  // A transaction that takes none of the paths without a charge, or has no fee.
  predicate PaysItsWay(t: Tx) {
    || t.fee == 0
    || (!RouteOf(t).Malformed? && !RouteOf(t).Foreign? && (RouteOf(t).Withdrawal? ==> t.amount < 0))
  }

  // With fees that are not negative, a block balances exactly when each of its transactions pays
  // its way.
  lemma {:induction false} BalancesIffCharged(txs: seq<Tx>)
    requires forall t :: t in txs ==> t.fee >= 0
    ensures Uncharged(txs) >= 0
    ensures Uncharged(txs) == 0 <==> forall t :: t in txs ==> PaysItsWay(t)
  {
    if txs != [] {
      var n := |txs| - 1;
      BalancesIffCharged(txs[..n]);
      assert txs[n] in txs;
      assert forall t :: t in txs <==> t in txs[..n] || t == txs[n];
    }
  }

  // A reward withdrawal with a positive amount is counted and not charged.
  lemma UnchargedHappens()
    ensures var tx := NO_TX.(sender := S.Address(9, 9), recipient := S.Address(256, 0), amount := 5, fee := 7);
            Uncharged([tx]) == 7
  {
    var tx := NO_TX.(sender := S.Address(9, 9), recipient := S.Address(256, 0), amount := 5, fee := 7);
    UnchargedOne(tx);
  }

  lemma UnchargedOne(tx: Tx)
    ensures Uncharged([tx]) == tx.fee - Charged(tx)
  {
    var none: seq<Tx> := [];
    assert [tx][..|[tx]| - 1] == none;
    assert Fees(none) == 0 && ChargedAll(none) == 0;
  }
}
