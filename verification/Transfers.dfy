// Accounts and transactions of the coin ledger, and what a list of transfers makes of them
// (blocks/processTransaction.go).
//
// Amounts are exact integers: a transaction is in scope when its fee plus the size of its amount
// fits in int64.
module Transfers {
  import opened MapSums
  import S = Staking

  type Address = S.Address
  type Slot = S.Slot
  type Hash = nat // the zero hash is 0

  datatype Account = Account(balance: int, delay: int, multiSign: nat, signers: seq<Address>)

  const NO_ACCOUNT: Account := Account(0, 0, 0, [])

  function BalanceOf(a: Account): int { a.balance }

  // The fee is the gas price times the gas usage.
  datatype Tx = Tx(
    hash: Hash, sender: Address, recipient: Address, amount: int, fee: int, height: int,
    operational: bool, lockedAmount: int, release: int, lockFor: Address,
    escrowDelay: int, multiSignNumber: nat, multiSignAddresses: seq<Address>, multiSignTx: Hash)

  const NO_TX: Tx := Tx(0, S.ZERO_ADDRESS, S.ZERO_ADDRESS, 0, 0, 0, false, 0, 0, S.ZERO_ADDRESS, 0, 0, [], 0)

  const MIN_STAKING_USER: int := 100_000_000_000
  const MIN_STAKING_FOR_NODE: int := 100_000_000_000_000
  const MAX_TRANSACTION_DELAY: int := 60480
  const MAX_TRANSACTION_IN_MULTISIG_POOL: int := 60480
  const MAX_TRANSACTION_IN_POOL: int := 10000

  // The number of a delegated account, written in the first two bytes of an otherwise zero
  // address, or -1.
  function Delegated(a: Address): int {
    if a.prefix >= 1 && a.rest == 0 then a.prefix else -1
  }

  datatype Route = Malformed | Transfer | Locking(n: nat) | Staking(n: nat) | Withdrawal(n: nat) | Foreign

  function RouteOf(tx: Tx): (r: Route)
    ensures r.Locking? || r.Staking? ==> 0 < r.n < 256
    ensures r.Withdrawal? ==> r.n < 256
  {
    if tx.lockedAmount > 0 then
      var n := Delegated(tx.lockFor);
      if n <= 0 || n >= 256 then Malformed else Locking(n)
    else
      var n := Delegated(tx.recipient);
      if n == -1 then Transfer
      else if n < 256 then Staking(n)
      else if n < 512 then Withdrawal(n % 256)
      else Foreign
  }

  // Held transfers are never negative: transactions to ordinary recipients with a negative
  // amount are refused on arrival.
  predicate Sane(tx: Tx) { RouteOf(tx).Transfer? ==> tx.amount >= 0 }

  predicate Holdable(tx: Tx) { RouteOf(tx).Transfer? && tx.amount >= 0 }

  // A transfer that does not confirm another.
  predicate Ordinary(tx: Tx) { Holdable(tx) && tx.multiSignTx == 0 }

  // --- The terms of an account: its escrow delay and its number of signatures ---

  function BalanceIn(m: map<Address, Account>, a: Address): int { At(m, a, NO_ACCOUNT).balance }

  function TermsIn(m: map<Address, Account>, a: Address): (int, nat) {
    (At(m, a, NO_ACCOUNT).delay, At(m, a, NO_ACCOUNT).multiSign)
  }

  // The delay of a sender with these terms is over for its transaction.
  predicate Ripe(terms: (int, nat), tx: Tx, height: int) { terms.0 <= 0 || tx.height + terms.0 <= height }

  // It waits for its delay in the escrow pool.
  predicate Delayed(terms: (int, nat), tx: Tx, height: int) { tx.multiSignTx == 0 && !Ripe(terms, tx, height) }

  // A sender under escrow or multi-signature has its transfer held back; the fee is due at once.
  predicate Held(terms: (int, nat), tx: Tx, height: int) {
    tx.multiSignTx == 0 && (!Ripe(terms, tx, height) || terms.1 > 0)
  }

  // A recipient with these terms can get the new ones: each is set once.
  predicate TermsAllowed(was: (int, nat), tx: Tx) {
    && (tx.escrowDelay > 0 ==> was.0 <= 0 && tx.escrowDelay <= MAX_TRANSACTION_DELAY)
    && (tx.multiSignNumber > 0 ==> was.1 == 0 && tx.multiSignNumber <= |tx.multiSignAddresses|)
  }

  function NewTerms(was: (int, nat), tx: Tx): (int, nat) {
    (if tx.escrowDelay > 0 then tx.escrowDelay else was.0, if tx.multiSignNumber > 0 then tx.multiSignNumber else was.1)
  }

  // --- The entries a transaction makes ---

  function Moved(tx: Tx, a: Address): int {
    (if a == tx.recipient then tx.amount else 0) - (if a == tx.sender then tx.amount else 0)
  }

  function BalanceEntry(tx: Tx, held: bool, a: Address): int {
    match RouteOf(tx)
    case Transfer => (if held then 0 else Moved(tx, a)) - (if a == tx.sender then tx.fee else 0)
    case Locking(_) => if a == tx.sender then -tx.fee - tx.amount else 0
    case Staking(_) => if a == tx.sender then -tx.fee - tx.amount else 0
    case Withdrawal(_) => if a == tx.sender && tx.amount < 0 then -tx.fee - tx.amount else 0
    case _ => 0
  }

  function StakeEntry(tx: Tx, s: Slot): int {
    match RouteOf(tx)
    case Locking(n) => if s == S.Slot(n, tx.recipient) then tx.amount else 0
    case Staking(n) => if s == S.Slot(n, tx.sender) then tx.amount else 0
    case _ => 0
  }

  function RewardEntry(tx: Tx, s: Slot): int {
    match RouteOf(tx)
    case Withdrawal(n) => if s == S.Slot(n, tx.sender) && tx.amount < 0 then tx.amount else 0
    case _ => 0
  }

  // The fee a processed transaction takes out of the accounts. The block counts the fee of every
  // transaction, but these paths charge none: delegated numbers from 512 on, and positive amounts
  // to a reward account.
  function Charged(tx: Tx): int {
    match RouteOf(tx)
    case Malformed => 0
    case Foreign => 0
    case Withdrawal(_) => if tx.amount < 0 then tx.fee else 0
    case _ => tx.fee
  }

  function MovedAll(txs: seq<Tx>, a: Address): int {
    if txs == [] then 0 else MovedAll(txs[..|txs| - 1], a) + Moved(txs[|txs| - 1], a)
  }

  function Fees(txs: seq<Tx>): int {
    if txs == [] then 0 else Fees(txs[..|txs| - 1]) + txs[|txs| - 1].fee
  }

  function ChargedAll(txs: seq<Tx>): int {
    if txs == [] then 0 else ChargedAll(txs[..|txs| - 1]) + Charged(txs[|txs| - 1])
  }

  // What a sender puts in over a list of transactions, fees included.
  function Spent(txs: seq<Tx>, a: Address): int {
    if txs == [] then 0
    else Spent(txs[..|txs| - 1], a) +
         if txs[|txs| - 1].sender == a then txs[|txs| - 1].fee + txs[|txs| - 1].amount else 0
  }

  lemma FeesStep(txs: seq<Tx>, i: nat)
    requires i < |txs|
    ensures Fees(txs[..i + 1]) == Fees(txs[..i]) + txs[i].fee
  {
    assert txs[..i + 1][..i] == txs[..i];
  }

  lemma SpentStep(txs: seq<Tx>, i: nat, a: Address)
    requires i < |txs|
    ensures Spent(txs[..i + 1], a) == Spent(txs[..i], a) + if txs[i].sender == a then txs[i].fee + txs[i].amount else 0
  {
    assert txs[..i + 1][..i] == txs[..i];
  }

  // --- A list of transfers, carried out in order ---

  // The balance before transfer k, when the held transfers in paid were paid first.
  function Ran(m: map<Address, Account>, paid: seq<Tx>, txs: seq<Tx>, height: int, k: nat, a: Address): int
    requires k <= |txs|
  {
    if k == 0 then BalanceIn(m, a) + MovedAll(paid, a)
    else Ran(m, paid, txs, height, k - 1, a) + BalanceEntry(txs[k - 1], HeldAt(m, txs, height, k - 1), a)
  }

  // The terms before transfer k.
  function RanTerms(m: map<Address, Account>, txs: seq<Tx>, k: nat, a: Address): (int, nat)
    requires k <= |txs|
  {
    if k == 0 then TermsIn(m, a)
    else if txs[k - 1].recipient == a then NewTerms(RanTerms(m, txs, k - 1, a), txs[k - 1])
    else RanTerms(m, txs, k - 1, a)
  }

  predicate HeldAt(m: map<Address, Account>, txs: seq<Tx>, height: int, k: nat)
    requires k < |txs|
  {
    Held(RanTerms(m, txs, k, txs[k].sender), txs[k], height)
  }

  // The sender has the amount, if it is due now, and then the fee.
  predicate Affords(balance: int, tx: Tx, held: bool) {
    if held then balance >= tx.fee
    else balance >= tx.amount && balance - (if tx.recipient == tx.sender then 0 else tx.amount) >= tx.fee
  }

  predicate GoesThrough(m: map<Address, Account>, paid: seq<Tx>, txs: seq<Tx>, height: int, k: nat)
    requires k < |txs|
  {
    var tx := txs[k];
    && tx.height <= height && Affords(Ran(m, paid, txs, height, k, tx.sender), tx, HeldAt(m, txs, height, k))
    && TermsAllowed(RanTerms(m, txs, k, tx.recipient), tx)
  }

  ghost predicate AllGoThrough(m: map<Address, Account>, paid: seq<Tx>, txs: seq<Tx>, height: int, n: nat)
    requires n <= |txs|
  {
    forall k :: 0 <= k < n ==> GoesThrough(m, paid, txs, height, k)
  }

  // The ledger is where k transfers lead to from m.
  ghost predicate OnTrack(m: map<Address, Account>, now: map<Address, Account>, txs: seq<Tx>, height: int, k: nat)
    requires k <= |txs|
  {
    forall a :: BalanceIn(now, a) == Ran(m, [], txs, height, k, a) && TermsIn(now, a) == RanTerms(m, txs, k, a)
  }

  // A transfer leads from one ledger to the next.
  ghost predicate Makes(before: map<Address, Account>, after: map<Address, Account>, tx: Tx, height: int) {
    forall a :: && BalanceIn(after, a) == BalanceIn(before, a) + BalanceEntry(tx, Held(TermsIn(before, tx.sender), tx, height), a)
                && TermsIn(after, a) == if a == tx.recipient then NewTerms(TermsIn(before, a), tx) else TermsIn(before, a)
  }

  ghost predicate Passes(m: map<Address, Account>, tx: Tx, height: int) {
    && tx.height <= height && Affords(BalanceIn(m, tx.sender), tx, Held(TermsIn(m, tx.sender), tx, height))
    && TermsAllowed(TermsIn(m, tx.recipient), tx)
  }

  lemma OnTrackStep(m: map<Address, Account>, before: map<Address, Account>, txs: seq<Tx>, height: int, k: nat)
    requires k < |txs| && OnTrack(m, before, txs, height, k)
    ensures Passes(before, txs[k], height) <==> GoesThrough(m, [], txs, height, k)
    ensures Held(TermsIn(before, txs[k].sender), txs[k], height) <==> HeldAt(m, txs, height, k)
    ensures Delayed(TermsIn(before, txs[k].sender), txs[k], height) <==> Delayed(RanTerms(m, txs, k, txs[k].sender), txs[k], height)
  {
  }

  lemma OnTrackNext(m: map<Address, Account>, before: map<Address, Account>, after: map<Address, Account>, txs: seq<Tx>, height: int, k: nat)
    requires k < |txs| && OnTrack(m, before, txs, height, k) && Makes(before, after, txs[k], height)
    ensures OnTrack(m, after, txs, height, k + 1)
  {
    OnTrackStep(m, before, txs, height, k);
    forall a
      ensures BalanceIn(after, a) == Ran(m, [], txs, height, k + 1, a) && TermsIn(after, a) == RanTerms(m, txs, k + 1, a)
    {
      assert BalanceIn(before, a) == Ran(m, [], txs, height, k, a);
    }
  }

  // Paying held transfers first shifts every balance by what they move.
  lemma {:induction false} PaidFirst(was: map<Address, Account>, now: map<Address, Account>, paid: seq<Tx>, txs: seq<Tx>, height: int, k: nat, a: Address)
    requires k <= |txs|
    requires forall b :: BalanceIn(now, b) == BalanceIn(was, b) + MovedAll(paid, b) && TermsIn(now, b) == TermsIn(was, b)
    ensures Ran(now, [], txs, height, k, a) == Ran(was, paid, txs, height, k, a)
    ensures RanTerms(now, txs, k, a) == RanTerms(was, txs, k, a)
  {
    if k > 0 {
      PaidFirst(was, now, paid, txs, height, k - 1, a);
      PaidFirst(was, now, paid, txs, height, k - 1, txs[k - 1].sender);
    } else {
      assert BalanceIn(now, a) == BalanceIn(was, a) + MovedAll(paid, a);
    }
  }

  lemma PaidFirstGoesThrough(was: map<Address, Account>, now: map<Address, Account>, paid: seq<Tx>, txs: seq<Tx>, height: int, k: nat)
    requires k < |txs|
    requires forall b :: BalanceIn(now, b) == BalanceIn(was, b) + MovedAll(paid, b) && TermsIn(now, b) == TermsIn(was, b)
    ensures GoesThrough(now, [], txs, height, k) <==> GoesThrough(was, paid, txs, height, k)
    ensures Delayed(RanTerms(now, txs, k, txs[k].sender), txs[k], height) <==> Delayed(RanTerms(was, txs, k, txs[k].sender), txs[k], height)
  {
    PaidFirst(was, now, paid, txs, height, k, txs[k].sender);
    PaidFirst(was, now, paid, txs, height, k, txs[k].recipient);
  }

  lemma {:induction false} PaidFirstDeferred(was: map<Address, Account>, now: map<Address, Account>, paid: seq<Tx>, txs: seq<Tx>, height: int, n: nat)
    requires n <= |txs|
    requires forall b :: BalanceIn(now, b) == BalanceIn(was, b) + MovedAll(paid, b) && TermsIn(now, b) == TermsIn(was, b)
    ensures Deferred(now, txs, height, n) == Deferred(was, txs, height, n)
  {
    if n > 0 {
      PaidFirstDeferred(was, now, paid, txs, height, n - 1);
      PaidFirstGoesThrough(was, now, paid, txs, height, n - 1);
    }
  }

  // The transfers among the first n that wait in the escrow pool.
  function Deferred(m: map<Address, Account>, txs: seq<Tx>, height: int, n: nat): set<Tx>
    requires n <= |txs|
  {
    if n == 0 then {}
    else Deferred(m, txs, height, n - 1) +
         if Delayed(RanTerms(m, txs, n - 1, txs[n - 1].sender), txs[n - 1], height) then {txs[n - 1]} else {}
  }

  // --- Transfers that their senders can cover ---

  ghost predicate CoversIn(m: map<Address, Account>, txs: seq<Tx>, k: nat)
    requires k <= |txs|
  {
    forall a :: Spent(txs[..k], a) <= BalanceIn(m, a)
  }

  // A transfer of a sender without terms, which sets none.
  predicate PlainIn(m: map<Address, Account>, tx: Tx) {
    && Ordinary(tx) && tx.fee >= 0 && tx.escrowDelay <= 0 && tx.multiSignNumber == 0
    && TermsIn(m, tx.sender).0 <= 0 && TermsIn(m, tx.sender).1 == 0
  }

  // Plain transfers that their senders can cover out of what they have before.
  ghost predicate PlainBlockIn(m: map<Address, Account>, txs: seq<Tx>, height: int) {
    && (forall i :: 0 <= i < |txs| ==> PlainIn(m, txs[i]) && txs[i].height <= height)
    && (forall k :: 0 <= k <= |txs| ==> CoversIn(m, txs, k))
  }

  // Nobody who sends in the block has a held transfer.
  ghost predicate Apart(txs: seq<Tx>, held: set<Tx>) {
    forall i, t :: 0 <= i < |txs| && t in held ==> txs[i].sender != t.sender
  }

  lemma {:induction false} MovedIn(paid: seq<Tx>, a: Address)
    requires forall t :: t in paid ==> t.amount >= 0 && t.sender != a
    ensures MovedAll(paid, a) >= 0
  {
    if paid != [] {
      var n := |paid| - 1;
      assert paid[n] in paid;
      MovedIn(paid[..n], a);
    }
  }

  // Plain transfers leave terms as they are, so none of them is held.
  lemma {:induction false} PlainTerms(m: map<Address, Account>, txs: seq<Tx>, k: nat, a: Address)
    requires k <= |txs| && forall i :: 0 <= i < |txs| ==> PlainIn(m, txs[i])
    ensures RanTerms(m, txs, k, a) == TermsIn(m, a)
  {
    if k > 0 {
      PlainTerms(m, txs, k - 1, a);
      assert PlainIn(m, txs[k - 1]);
    }
  }

  lemma PlainNotHeld(m: map<Address, Account>, txs: seq<Tx>, height: int, k: nat)
    requires k < |txs| && forall i :: 0 <= i < |txs| ==> PlainIn(m, txs[i])
    ensures !HeldAt(m, txs, height, k) && TermsAllowed(RanTerms(m, txs, k, txs[k].recipient), txs[k])
  {
    PlainTerms(m, txs, k, txs[k].sender);
    assert PlainIn(m, txs[k]);
  }

  // A balance loses at most what its owner puts in.
  lemma {:induction false} PlainRan(m: map<Address, Account>, paid: seq<Tx>, txs: seq<Tx>, height: int, k: nat, a: Address)
    requires k <= |txs| && forall i :: 0 <= i < |txs| ==> PlainIn(m, txs[i])
    ensures Ran(m, paid, txs, height, k, a) >= BalanceIn(m, a) + MovedAll(paid, a) - Spent(txs[..k], a)
  {
    if k > 0 {
      PlainRan(m, paid, txs, height, k - 1, a);
      PlainNotHeld(m, txs, height, k - 1);
      PlainEntry(m, txs[k - 1], a);
      SpentStep(txs, k - 1, a);
    } else {
      assert txs[..0] == [];
    }
  }

  lemma PlainEntry(m: map<Address, Account>, tx: Tx, a: Address)
    requires PlainIn(m, tx)
    ensures BalanceEntry(tx, false, a) >= if tx.sender == a then -tx.fee - tx.amount else 0
  {
  }

  // A covered block of plain transfers goes through when the held transfers that are paid first
  // are none of its senders'.
  lemma CoveredGoesThrough(m: map<Address, Account>, paid: seq<Tx>, held: set<Tx>, txs: seq<Tx>, height: int)
    requires PlainBlockIn(m, txs, height) && Apart(txs, held)
    requires forall t :: t in paid ==> t in held && t.amount >= 0
    ensures AllGoThrough(m, paid, txs, height, |txs|)
  {
    forall k | 0 <= k < |txs|
      ensures GoesThrough(m, paid, txs, height, k)
    {
      var a := txs[k].sender;
      MovedIn(paid, a);
      PlainRan(m, paid, txs, height, k, a);
      PlainNotHeld(m, txs, height, k);
      SpentStep(txs, k, a);
      assert CoversIn(m, txs, k + 1);
      assert PlainIn(m, txs[k]);
    }
  }

  // --- The pools, from outside ---

  // What waits in the escrow and the multi-signature pool, the hashes that are banned, and
  // whether the maps of both pools are exact, which they are until one of them is full.
  datatype Pools = Pools(escrow: set<Tx>, multi: set<Tx>, banned: set<Hash>, orderly: bool)

  predicate NoRepeats(txs: seq<Tx>) { forall i, j :: 0 <= i < j < |txs| ==> txs[i] != txs[j] }

  // A pool in order that has room takes the transaction in, as a new one.
  ghost predicate Takes(pool: set<Tx>, p: Pools, tx: Tx) {
    p.orderly && |pool| < MAX_TRANSACTION_IN_POOL && tx.hash !in p.banned && forall t :: t in pool ==> t.hash != tx.hash
  }

  function Without(pool: set<Tx>, hash: Hash): set<Tx> { set t | t in pool && t.hash != hash }

  // The transfers of an ordinary block are new to the pools, which have room for all of them.
  ghost predicate AllNew(txs: seq<Tx>, p: Pools) {
    && p.orderly && |p.escrow| + |txs| <= MAX_TRANSACTION_IN_POOL && |p.multi| + |txs| <= MAX_TRANSACTION_IN_POOL
    && (forall i, j :: 0 <= i < j < |txs| ==> txs[i].hash != txs[j].hash)
    && (forall i, t :: 0 <= i < |txs| && (t in p.escrow || t in p.multi) ==> t.hash != txs[i].hash)
    && (forall i :: 0 <= i < |txs| ==> txs[i].hash !in p.banned)
  }

  // What carrying out a transfer of a sender with these terms does to the pools.
  ghost predicate Deferring(before: Pools, after: Pools, terms: (int, nat), tx: Tx, height: int) {
    && after.banned == before.banned && after.escrow <= before.escrow + {tx} && after.multi <= before.multi + {tx}
    && (after.orderly ==> before.orderly)
    && (!Delayed(terms, tx, height) ==> after.escrow == before.escrow)
    && (Takes(before.escrow, before, tx) && Takes(before.multi, before, tx) ==>
          after.orderly && after.escrow == before.escrow + if Delayed(terms, tx, height) then {tx} else {})
  }

  // The pools after k new transfers that went through.
  ghost predicate Waiting(p: Pools, now: Pools, m: map<Address, Account>, txs: seq<Tx>, height: int, k: nat)
    requires k <= |txs|
  {
    && now.orderly && now.banned == p.banned && now.escrow == p.escrow + Deferred(m, txs, height, k)
    && now.multi <= p.multi + Firsts(txs, k)
  }

  function Firsts(txs: seq<Tx>, k: nat): set<Tx>
    requires k <= |txs|
  {
    if k == 0 then {} else Firsts(txs, k - 1) + {txs[k - 1]}
  }

  lemma {:induction false} InFirsts(txs: seq<Tx>, k: nat, t: Tx)
    requires k <= |txs| && t in Firsts(txs, k)
    ensures exists i :: 0 <= i < k && txs[i] == t
  {
    if t != txs[k - 1] {
      InFirsts(txs, k - 1, t);
    }
  }

  lemma {:induction false} DeferredAreFirst(m: map<Address, Account>, txs: seq<Tx>, height: int, n: nat)
    requires n <= |txs|
    ensures Deferred(m, txs, height, n) <= Firsts(txs, n)
  {
    if n > 0 {
      DeferredAreFirst(m, txs, height, n - 1);
      DeferredStep(m, txs, height, n - 1);
    }
  }

  lemma {:induction false} SizeOfFirsts(txs: seq<Tx>, n: nat)
    requires n <= |txs|
    ensures |Firsts(txs, n)| <= n
  {
    if n > 0 {
      SizeOfFirsts(txs, n - 1);
      SizeOfUnion(Firsts(txs, n), Firsts(txs, n - 1), {txs[n - 1]});
    }
  }

  lemma DeferredStep(m: map<Address, Account>, txs: seq<Tx>, height: int, k: nat)
    requires k < |txs|
    ensures Deferred(m, txs, height, k + 1) ==
            Deferred(m, txs, height, k) + if Delayed(RanTerms(m, txs, k, txs[k].sender), txs[k], height) then {txs[k]} else {}
    ensures Firsts(txs, k + 1) == Firsts(txs, k) + {txs[k]}
  {
  }

  lemma StillTaken(p: Pools, now: Pools, m: map<Address, Account>, txs: seq<Tx>, height: int, k: nat)
    requires k < |txs| && AllNew(txs, p) && Waiting(p, now, m, txs, height, k)
    ensures Takes(now.escrow, now, txs[k]) && Takes(now.multi, now, txs[k])
  {
    DeferredAreFirst(m, txs, height, k);
    SizeOfFirsts(txs, k);
    SizeOfUnion(now.escrow, p.escrow, Firsts(txs, k));
    SizeOfUnion(now.multi, p.multi, Firsts(txs, k));
    forall t | t in now.escrow || t in now.multi
      ensures t.hash != txs[k].hash
    {
      if t in Firsts(txs, k) {
        InFirsts(txs, k, t);
      }
    }
  }

  lemma SizeOfUnion<T>(a: set<T>, b: set<T>, c: set<T>)
    requires a <= b + c
    ensures |a| <= |b| + |c|
  {
    var rest := (b + c) - a;
    assert |b + c| == |a| + |rest| by {
      assert a + rest == b + c && a !! rest;
    }
    assert |b + c| <= |b| + |c| by {
      assert b + c == b + (c - b) && |c - b| <= |c|;
    }
  }

  lemma WaitingNext(p: Pools, now: Pools, next: Pools, m: map<Address, Account>, txs: seq<Tx>, height: int, k: nat)
    requires k < |txs| && AllNew(txs, p) && Waiting(p, now, m, txs, height, k)
    requires Deferring(now, next, RanTerms(m, txs, k, txs[k].sender), txs[k], height)
    ensures Waiting(p, next, m, txs, height, k + 1)
  {
    StillTaken(p, now, m, txs, height, k);
    DeferredStep(m, txs, height, k);
  }

  // The escrow pool shows what is due at a height.
  predicate Due(tx: Tx, height: int) { height >= tx.height + tx.escrowDelay }

  // --- The multi-signature pool ---

  // A transaction of the multi-signature pool is kept under the transfer it confirms, or itself.
  function MainOf(tx: Tx): Hash { if tx.multiSignTx != 0 then tx.multiSignTx else tx.hash }

  // The first transaction with this hash, or one of zeros.
  function MainIn(txs: seq<Tx>, hash: Hash): Tx {
    if txs == [] then NO_TX else if txs[0].hash == hash then txs[0] else MainIn(txs[1..], hash)
  }

  // Who sent a transaction that confirms the transfer: to the same recipient, of no amount.
  function Confirmers(txs: seq<Tx>, main: Tx): seq<Address> {
    if txs == [] then []
    else
      var front, t := Confirmers(txs[..|txs| - 1], main), txs[|txs| - 1];
      if t.recipient == main.recipient && t.amount == 0 then front + [t.sender] else front
  }
}
