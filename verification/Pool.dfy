// The transaction pool: transactions by hash, a priority queue, and the position of every hash in
// the queue (transactionsPool/poolTx.go).
module Pool {
  import opened PoolHeap

  const MAX_NUMBER_OF_TX_BANS: int := 60480

  ghost function Hashes(q: seq<Item>): set<Hash> { set i | 0 <= i < |q| :: q[i].tx.hash }

  // Every queued transaction is stored under its hash.
  ghost predicate Stores(transactions: map<Hash, Tx>, entries: set<Entry>) {
    forall e :: e in entries ==> e.tx.hash in transactions && transactions[e.tx.hash] == e.tx
  }

  // The index map gives every queued hash its position.
  predicate Exact(indices: map<Hash, int>, q: seq<Item>) {
    forall i :: 0 <= i < |q| ==> q[i].tx.hash in indices && indices[q[i].tx.hash] == i
  }

  lemma HashesOfEntries(q: seq<Item>, h: Hash)
    ensures h in Hashes(q) <==> exists e :: e in Entries(q) && e.tx.hash == h
  {
    if h in Hashes(q) {
      var i :| 0 <= i < |q| && q[i].tx.hash == h;
      assert EntryOf(q[i]) in Entries(q);
    }
    if e :| e in Entries(q) && e.tx.hash == h {
      var i :| 0 <= i < |q| && EntryOf(q[i]) == e;
      assert q[i].tx.hash in Hashes(q);
    }
  }

  lemma PushHashes(q: seq<Item>, r: seq<Item>, e: Entry)
    requires Entries(r) == Entries(q) + {e}
    ensures Hashes(r) == Hashes(q) + {e.tx.hash}
  {
    forall h
      ensures h in Hashes(r) <==> h in Hashes(q) || h == e.tx.hash
    {
      HashesOfEntries(q, h);
      HashesOfEntries(r, h);
      if h in Hashes(q) {
        var x :| x in Entries(q) && x.tx.hash == h;
        assert x in Entries(r);
      }
      if h == e.tx.hash {
        assert e in Entries(r);
      }
    }
  }

  lemma OneEntryPerHash(q: seq<Item>, d: Entry, e: Entry)
    requires Distinct(q) && d in Entries(q) && e in Entries(q) && d.tx.hash == e.tx.hash
    ensures d == e
  {
    var i :| 0 <= i < |q| && EntryOf(q[i]) == d;
    var j :| 0 <= j < |q| && EntryOf(q[j]) == e;
    assert i == j;
  }

  lemma RemoveHashes(q: seq<Item>, r: seq<Item>, e: Entry)
    requires Distinct(q) && e in Entries(q) && Entries(r) == Entries(q) - {e}
    ensures Hashes(r) == Hashes(q) - {e.tx.hash}
    ensures forall d :: d in Entries(r) <==> d in Entries(q) && d.tx.hash != e.tx.hash
  {
    forall d
      ensures d in Entries(r) <==> d in Entries(q) && d.tx.hash != e.tx.hash
    {
      if d in Entries(q) && d.tx.hash == e.tx.hash {
        OneEntryPerHash(q, d, e);
      }
    }
    forall h
      ensures h in Hashes(r) <==> h in Hashes(q) && h != e.tx.hash
    {
      HashesOfEntries(q, h);
      HashesOfEntries(r, h);
      if h in Hashes(q) && h != e.tx.hash {
        var x :| x in Entries(q) && x.tx.hash == h;
        assert x in Entries(r);
      }
    }
  }

  // Exact positions for exactly the queued hashes: looking a hash up finds it.
  lemma LookupFinds(indices: map<Hash, int>, q: seq<Item>, h: Hash)
    requires Exact(indices, q) && indices.Keys == Hashes(q) && h in indices
    ensures 0 <= indices[h] < |q| && q[indices[h]].tx.hash == h
  {
    assert h in Hashes(q);
    var i :| 0 <= i < |q| && q[i].tx.hash == h;
  }

  // Which of the queued transactions a peek shows: all of a standard pool, the due ones of an
  // escrow pool, those of one multi-signature transaction.
  predicate Shown(kind: nat, x: Item, key: int) {
    kind == 0 || (kind == 1 && key >= x.priority) || (kind == 2 && key == x.priority)
  }

  function ShownOf(kind: nat, q: seq<Item>, key: int): seq<Tx> {
    if q == [] then [] else
      var n := |q| - 1;
      ShownOf(kind, q[..n], key) + if Shown(kind, q[n], key) then [q[n].tx] else []
  }

  // A peek over the whole queue shows exactly the transactions asked for, each once.
  lemma {:induction false} ShownExactly(kind: nat, q: seq<Item>, key: int)
    requires Distinct(q)
    ensures forall t :: t in ShownOf(kind, q, key) <==> exists i :: 0 <= i < |q| && q[i].tx == t && Shown(kind, q[i], key)
    ensures forall i, j :: 0 <= i < j < |ShownOf(kind, q, key)| ==> ShownOf(kind, q, key)[i] != ShownOf(kind, q, key)[j]
  {
    if q != [] {
      var n := |q| - 1;
      var front := q[..n];
      ShownExactly(kind, front, key);
      var s, r := ShownOf(kind, front, key), ShownOf(kind, q, key);
      forall t
        ensures t in r <==> exists i :: 0 <= i < |q| && q[i].tx == t && Shown(kind, q[i], key)
      {
        if t in s {
          var i :| 0 <= i < n && front[i].tx == t && Shown(kind, front[i], key);
          assert q[i].tx == t && Shown(kind, q[i], key);
        }
        if i :| 0 <= i < |q| && q[i].tx == t && Shown(kind, q[i], key) {
          if i < n {
            assert front[i].tx == t && Shown(kind, front[i], key);
          }
        }
      }
      forall i | 0 <= i < n
        ensures front[i].tx != q[n].tx
      {
        assert q[i].tx.hash != q[n].tx.hash;
      }
      forall j | 0 <= j < |s|
        ensures s[j] != q[n].tx
      {
        assert s[j] in s;
      }
    }
  }

  datatype Op = Add(tx: Tx, key: int) | Drop(hash: Hash) | Take(hash: Hash)

  function Adds(ops: seq<Op>): nat {
    if ops == [] then 0 else Adds(ops[..|ops| - 1]) + if ops[|ops| - 1].Add? then 1 else 0
  }

  lemma {:induction false} AddsStep(ops: seq<Op>, k: nat)
    requires k < |ops|
    ensures Adds(ops[..k + 1]) == Adds(ops[..k]) + if ops[k].Add? then 1 else 0
    ensures Adds(ops[..k + 1]) <= Adds(ops)
    decreases |ops|
  {
    assert ops[..k + 1][..k] == ops[..k];
    if k + 1 < |ops| {
      var n := |ops| - 1;
      AddsStep(ops[..n], k);
      assert ops[..n][..k + 1] == ops[..k + 1];
    } else {
      assert ops[..k + 1] == ops;
    }
  }

  class TransactionPool {
    var transactions: map<Hash, Tx>
    var indices: map<Hash, int>
    var banned: map<Hash, int>
    var queue: seq<Item>
    const max: nat
    const kind: nat // 0 standard, 1 escrow, 2 multi-signature

    constructor (max: nat, kind: nat)
      requires kind <= 2
      ensures Valid() && this.max == max && this.kind == kind
      ensures transactions == map[] && banned == map[] && queue == []
    {
      transactions, indices, banned, queue := map[], map[], map[], [];
      this.max, this.kind := max, kind;
    }

    // The queue without regard to the index map.
    ghost predicate Sorted()
      reads this
    {
      && kind <= 2 && IsHeap(queue, |queue|) && Indexed(queue) && Distinct(queue)
      && transactions.Keys == Hashes(queue) && Stores(transactions, Entries(queue))
    }

    ghost predicate Valid()
      reads this
    {
      Sorted() && |queue| <= max && Exact(indices, queue) && indices.Keys == Hashes(queue)
    }

    function Priority(tx: Tx, key: int): int {
      PriorityIn(kind, tx, key)
    }

    method UpdateIndices()
      requires Distinct(queue)
      modifies this`indices
      ensures Exact(indices, queue) && indices.Keys == old(indices.Keys) + Hashes(queue)
    {
      for i := 0 to |queue|
        invariant forall j :: 0 <= j < i ==> queue[j].tx.hash in indices && indices[queue[j].tx.hash] == j
        invariant indices.Keys == old(indices.Keys) + Hashes(queue[..i])
      {
        HashesStep(queue, i);
        indices := indices[queue[i].tx.hash := i];
      }
      assert queue[..|queue|] == queue;
    }

    // A transaction is added once, unless banned. A full pool evicts the first of the queue, and
    // the evicted hash stays in the index map unless it is that of the new transaction itself.
    method AddTransaction(tx: Tx, key: int) returns (added: bool)
      requires Valid()
      modifies this
      ensures banned == old(banned) && added == (tx.hash !in banned)
      ensures !added || tx.hash in old(transactions) ==>
                Valid() && queue == old(queue) && transactions == old(transactions)
      ensures added && tx.hash !in old(transactions) && |old(queue)| < max ==>
                && Valid() && |queue| == |old(queue)| + 1 && transactions == old(transactions)[tx.hash := tx]
                && Entries(queue) == Entries(old(queue)) + {Entry(tx, Priority(tx, key))}
      ensures added && tx.hash !in old(transactions) && |old(queue)| == max ==>
                Sorted() && (Valid() <==> max == 0 || Priority(tx, key) > old(queue)[0].priority)
    {
      if tx.hash in banned {
        return false;
      }
      if tx.hash !in transactions {
        AddNew(tx, key);
      }
      UpdateIndices();
      return true;
    }

    method AddNew(tx: Tx, key: int)
      requires Valid() && tx.hash !in transactions
      modifies this`transactions, this`queue
      ensures Sorted() && |queue| <= max
      ensures |old(queue)| < max ==>
                && |queue| == |old(queue)| + 1 && transactions == old(transactions)[tx.hash := tx]
                && Entries(queue) == Entries(old(queue)) + {Entry(tx, Priority(tx, key))}
                && Hashes(queue) == Hashes(old(queue)) + {tx.hash}
      ensures |old(queue)| == max ==>
                var top := if max == 0 || Priority(tx, key) > old(queue)[0].priority then tx.hash
                           else old(queue)[0].tx.hash;
                Hashes(queue) == Hashes(old(queue)) + {tx.hash} - {top}
    {
      Insert(tx, Priority(tx, key));
      if |queue| > max {
        Evict();
      }
    }

    method Insert(tx: Tx, priority: int)
      requires Sorted() && tx.hash !in transactions
      modifies this`transactions, this`queue
      ensures Sorted() && |queue| == |old(queue)| + 1 && transactions == old(transactions)[tx.hash := tx]
      ensures Entries(queue) == Entries(old(queue)) + {Entry(tx, priority)}
      ensures Hashes(queue) == Hashes(old(queue)) + {tx.hash}
      ensures queue[0].tx.hash == if old(queue) == [] || priority > old(queue)[0].priority then tx.hash
                                  else old(queue)[0].tx.hash
    {
      ghost var before := queue;
      transactions := transactions[tx.hash := tx];
      assert forall i :: 0 <= i < |queue| ==> queue[i].tx.hash in Hashes(queue);
      queue := Push(queue, tx, priority);
      PushHashes(before, queue, Entry(tx, priority));
      if before == [] {
        assert EntryOf(queue[0]) in Entries(queue);
        assert Entries(before) == {};
      }
    }

    method Evict()
      requires Sorted() && queue != []
      modifies this`transactions, this`queue
      ensures Sorted() && |queue| == |old(queue)| - 1
      ensures Hashes(queue) == Hashes(old(queue)) - {old(queue)[0].tx.hash}
    {
      ghost var full := queue;
      var removed;
      queue, removed := Pop(queue);
      RemoveHashes(full, queue, EntryOf(removed));
      transactions := transactions - {removed.tx.hash};
    }

    // The transaction with this hash leaves the queue and both maps; nothing else does.
    method RemoveTransactionByHash(h: Hash)
      requires Valid()
      modifies this`transactions, this`queue, this`indices
      ensures Valid() && transactions == old(transactions) - {h}
      ensures h !in old(transactions) ==> queue == old(queue) && indices == old(indices)
      ensures forall e :: e in Entries(queue) <==> e in old(Entries(queue)) && e.tx.hash != h
    {
      if h in indices {
        RemoveAt(h);
      } else {
        NotQueued(h);
      }
      UpdateIndices();
      SameIndices(old(indices), indices, queue);
    }

    method RemoveAt(h: Hash)
      requires Valid() && h in indices
      modifies this`transactions, this`queue, this`indices
      ensures Sorted() && |queue| <= max && indices.Keys == Hashes(queue)
      ensures transactions == old(transactions) - {h}
      ensures forall e :: e in Entries(queue) <==> e in old(Entries(queue)) && e.tx.hash != h
    {
      LookupFinds(indices, queue, h);
      ghost var before := queue;
      var removed;
      queue, removed := Remove(queue, indices[h]);
      RemoveHashes(before, queue, EntryOf(removed));
      transactions := transactions - {h};
      indices := indices - {h};
    }

    lemma NotQueued(h: Hash)
      requires Valid() && h !in indices
      ensures h !in transactions && transactions - {h} == transactions
      ensures forall e :: e in Entries(queue) ==> e.tx.hash != h
    {
      HashesOfEntries(queue, h);
    }

    static lemma SameIndices(a: map<Hash, int>, b: map<Hash, int>, q: seq<Item>)
      requires Exact(b, q) && b.Keys == Hashes(q)
      ensures Exact(a, q) && a.Keys == Hashes(q) ==> a == b
    {
      if Exact(a, q) && a.Keys == Hashes(q) {
        forall h | h in a
          ensures a[h] == b[h]
        {
          assert h in Hashes(q);
          var i :| 0 <= i < |q| && q[i].tx.hash == h;
        }
      }
    }

    // As RemoveTransactionByHash, and hands the transaction out.
    method PopTransactionByHash(h: Hash) returns (tx: Tx)
      requires Valid()
      modifies this`transactions, this`queue, this`indices
      ensures Valid() && transactions == old(transactions) - {h}
      ensures tx == if h in old(transactions) then old(transactions)[h] else NO_TX
      ensures h in old(transactions) ==> tx.hash == h
      ensures forall e :: e in Entries(queue) <==> e in old(Entries(queue)) && e.tx.hash != h
    {
      tx := NO_TX;
      if h in indices {
        HashesOfEntries(queue, h);
        tx := transactions[h];
        RemoveAt(h);
      } else {
        NotQueued(h);
      }
      UpdateIndices();
    }

    // The first n of the queue that the pool shows for this height or hash.
    method PeekTransactions(n: int, key: int) returns (txs: seq<Tx>)
      requires Valid()
      ensures n >= |queue| ==> txs == ShownOf(kind, queue, key)
      ensures 0 <= n < |queue| ==> txs == ShownOf(kind, queue[..n], key)
      ensures n < 0 ==> txs == []
      ensures n >= |queue| ==> forall t :: t in txs <==>
                exists i :: 0 <= i < |queue| && queue[i].tx == t && Shown(kind, queue[i], key)
    {
      SizesAgree();
      ShownExactly(kind, queue, key);
      var m := if n > |transactions| then |transactions| else n;
      txs := [];
      var i := 0;
      while i < m
        invariant 0 <= i && (m >= 0 ==> i <= m) && (m < 0 ==> i == 0) && m <= |queue|
        invariant txs == ShownOf(kind, queue[..i], key)
      {
        assert queue[..i + 1][..i] == queue[..i];
        assert EntryOf(queue[i]) in Entries(queue);
        if Shown(kind, queue[i], key) {
          txs := txs + [transactions[queue[i].tx.hash]];
        }
        i := i + 1;
      }
      assert queue[..|queue|] == queue;
    }

    // Both maps are as long as the queue.
    lemma SizesAgree()
      requires Valid()
      ensures |transactions| == |indices| == |queue|
    {
      HashCount(queue);
      assert |transactions.Keys| == |transactions| && |indices.Keys| == |indices|;
    }

    // A ban past the limit takes the hash out of the index map only, which breaks the pool exactly
    // when the transaction is queued.
    method BanTransactionByHash(h: Hash)
      requires Valid()
      modifies this`banned, this`indices
      ensures banned == old(banned)[h := Bans(old(banned), h) + 1]
      ensures Valid() <==> h !in transactions || Bans(banned, h) <= MAX_NUMBER_OF_TX_BANS
    {
      banned := banned[h := Bans(banned, h) + 1];
      if banned[h] > MAX_NUMBER_OF_TX_BANS {
        indices := indices - {h};
      }
    }

    // Every run of additions and removals that stays within the capacity: the pool holds exactly
    // what was added and neither banned, there before, nor taken out again, at its priority.
    method Run(ops: seq<Op>)
      requires Valid() && |queue| + Adds(ops) <= max
      modifies this
      ensures Valid() && banned == old(banned)
      ensures transactions == Ran(old(transactions), old(banned).Keys, ops)
      ensures Entries(queue) == RanEntries(kind, old(Entries(queue)), old(banned).Keys, ops)
    {
      for k := 0 to |ops|
        invariant Valid() && banned == old(banned) && |queue| <= |old(queue)| + Adds(ops[..k])
        invariant transactions == Ran(old(transactions), old(banned).Keys, ops[..k])
        invariant Entries(queue) == RanEntries(kind, old(Entries(queue)), old(banned).Keys, ops[..k])
      {
        AddsStep(ops, k);
        assert ops[..k + 1][..k] == ops[..k];
        Apply(ops[k]);
      }
      assert ops[..|ops|] == ops;
    }

    method Apply(op: Op)
      requires Valid() && (op.Add? ==> |queue| < max)
      modifies this
      ensures Valid() && banned == old(banned) && |queue| <= |old(queue)| + if op.Add? then 1 else 0
      ensures transactions == Applied(old(transactions), banned.Keys, op)
      ensures Entries(queue) == AppliedEntries(kind, old(Entries(queue)), banned.Keys, op)
    {
      ghost var before := queue;
      StoredIff();
      match op {
        case Add(tx, key) =>
          var added := AddTransaction(tx, key);
        case Drop(h) =>
          RemoveTransactionByHash(h);
          FewerEntries(before, queue);
        case Take(h) =>
          var tx := PopTransactionByHash(h);
          FewerEntries(before, queue);
      }
    }

    lemma StoredIff()
      requires Valid()
      ensures forall h :: h in transactions <==> exists e :: e in Entries(queue) && e.tx.hash == h
    {
      forall h {
        HashesOfEntries(queue, h);
      }
    }
  }

  function PriorityIn(kind: nat, tx: Tx, key: int): int {
    if kind == 0 then tx.gasPrice else if kind == 1 then tx.height + tx.escrowDelay else key
  }

  // What an operation makes of the stored transactions, and a run of them.
  function Applied(transactions: map<Hash, Tx>, banned: set<Hash>, op: Op): map<Hash, Tx> {
    match op
    case Add(tx, _) => if tx.hash in banned || tx.hash in transactions then transactions else transactions[tx.hash := tx]
    case Drop(h) => transactions - {h}
    case Take(h) => transactions - {h}
  }

  function Ran(transactions: map<Hash, Tx>, banned: set<Hash>, ops: seq<Op>): map<Hash, Tx> {
    if ops == [] then transactions else Applied(Ran(transactions, banned, ops[..|ops| - 1]), banned, ops[|ops| - 1])
  }

  // And of the queue.
  ghost function AppliedEntries(kind: nat, entries: set<Entry>, banned: set<Hash>, op: Op): set<Entry> {
    match op
    case Add(tx, key) =>
      if tx.hash in banned || (exists e :: e in entries && e.tx.hash == tx.hash) then entries
      else entries + {Entry(tx, PriorityIn(kind, tx, key))}
    case Drop(h) => set e | e in entries && e.tx.hash != h
    case Take(h) => set e | e in entries && e.tx.hash != h
  }

  ghost function RanEntries(kind: nat, entries: set<Entry>, banned: set<Hash>, ops: seq<Op>): set<Entry> {
    if ops == [] then entries
    else AppliedEntries(kind, RanEntries(kind, entries, banned, ops[..|ops| - 1]), banned, ops[|ops| - 1])
  }

  const NO_TX: Tx := Tx(0, 0, 0, 0)

  function Bans(banned: map<Hash, int>, h: Hash): int { if h in banned then banned[h] else 0 }

  lemma HashesStep(q: seq<Item>, i: nat)
    requires i < |q|
    ensures Hashes(q[..i + 1]) == Hashes(q[..i]) + {q[i].tx.hash}
  {
    var longer, shorter := q[..i + 1], q[..i];
    forall h
      ensures h in Hashes(longer) <==> h in Hashes(shorter) || h == q[i].tx.hash
    {
      if h in Hashes(shorter) {
        var j :| 0 <= j < i && shorter[j].tx.hash == h;
        assert longer[j].tx.hash == h;
      }
      if h in Hashes(longer) {
        var j :| 0 <= j < i + 1 && longer[j].tx.hash == h;
        if j < i {
          assert shorter[j].tx.hash == h;
        }
      }
      assert longer[i].tx.hash in Hashes(longer);
    }
  }

  // Distinct hashes: as many as there are items.
  lemma {:induction false} HashCount(q: seq<Item>)
    requires Distinct(q)
    ensures |Hashes(q)| == |q|
  {
    if q != [] {
      var n := |q| - 1;
      HashCount(q[..n]);
      HashesStep(q, n);
      assert q[..n + 1] == q;
      assert q[n].tx.hash !in Hashes(q[..n]);
    }
  }

  lemma FewerEntries(q: seq<Item>, r: seq<Item>)
    requires Distinct(q) && Distinct(r) && Entries(r) <= Entries(q)
    ensures |r| <= |q|
  {
    EntryCount(q);
    EntryCount(r);
    SubsetSize(Entries(r), Entries(q));
  }

  lemma {:induction false} EntryCount(q: seq<Item>)
    requires Distinct(q)
    ensures |Entries(q)| == |q|
  {
    if q != [] {
      var n := |q| - 1;
      EntryCount(q[..n]);
      DropLast(q, n);
    }
  }

  lemma {:induction false} SubsetSize<T>(a: set<T>, b: set<T>)
    requires a <= b
    ensures |a| <= |b|
    decreases b
  {
    if b != {} {
      var x :| x in b;
      SubsetSize(a - {x}, b - {x});
    }
  }
}
