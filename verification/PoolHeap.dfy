// The priority queue of the transaction pool: the queue interface of transactionsPool/basePool.go
// driven by the sift operations of Go's container/heap.
module PoolHeap {
  type Hash = nat

  // What the pools look at; the hash stands for the rest.
  datatype Tx = Tx(hash: Hash, gasPrice: int, height: int, escrowDelay: int)

  datatype Item = Item(tx: Tx, priority: int, index: int)

  datatype Entry = Entry(tx: Tx, priority: int)

  function EntryOf(x: Item): Entry { Entry(x.tx, x.priority) }

  ghost function Entries(q: seq<Item>): set<Entry> { set i | 0 <= i < |q| :: EntryOf(q[i]) }

  function Parent(k: nat): nat
    requires k > 0
  {
    (k - 1) / 2
  }

  // The parent of k comes first: a max-heap.
  predicate InOrder(q: seq<Item>, k: nat)
    requires 0 < k < |q|
  {
    q[Parent(k)].priority >= q[k].priority
  }

  predicate IsHeap(q: seq<Item>, n: nat)
    requires n <= |q|
  {
    forall k :: 0 < k < n ==> InOrder(q, k)
  }

  // Every item knows its position.
  predicate Indexed(q: seq<Item>) { forall i :: 0 <= i < |q| ==> q[i].index == i }

  predicate Distinct(q: seq<Item>) { forall i, j :: 0 <= i < j < |q| ==> q[i].tx.hash != q[j].tx.hash }

  // A rearrangement of q: the same entries, each once, at the positions they know.
  ghost predicate Rearranged(now: seq<Item>, q: seq<Item>) {
    && |now| == |q| && Entries(now) == Entries(q)
    && (Indexed(q) ==> Indexed(now)) && (Distinct(q) ==> Distinct(now))
  }

  function Swap(q: seq<Item>, i: nat, j: nat): (r: seq<Item>)
    requires i < |q| && j < |q|
    ensures |r| == |q|
  {
    q[i := q[j].(index := i)][j := q[i].(index := j)]
  }

  lemma SwapRearranges(q: seq<Item>, i: nat, j: nat)
    requires i < |q| && j < |q|
    ensures Rearranged(Swap(q, i, j), q)
  {
    var r := Swap(q, i, j);
    assert forall k :: 0 <= k < |q| && k != i && k != j ==> r[k] == q[k];
    assert EntryOf(r[i]) == EntryOf(q[j]) && EntryOf(r[j]) == EntryOf(q[i]);
    forall e
      ensures e in Entries(r) <==> e in Entries(q)
    {
      if e in Entries(q) {
        var k :| 0 <= k < |q| && EntryOf(q[k]) == e;
        var m := if k == i then j else if k == j then i else k;
        assert EntryOf(r[m]) == e;
      }
      if e in Entries(r) {
        var k :| 0 <= k < |q| && EntryOf(r[k]) == e;
        var m := if k == i then j else if k == j then i else k;
        assert EntryOf(q[m]) == e;
      }
    }
  }

  lemma RearrangedTrans(r: seq<Item>, p: seq<Item>, q: seq<Item>)
    requires Rearranged(r, p) && Rearranged(p, q)
    ensures Rearranged(r, q)
  {
  }

  // A heap but for the item at j, which may be larger than its parent.
  predicate UpAt(q: seq<Item>, n: nat, j: nat)
    requires n <= |q|
  {
    && (forall k :: 0 < k < n && k != j ==> InOrder(q, k))
    && (forall k :: 0 < k < n && Parent(k) == j && j > 0 ==> q[Parent(j)].priority >= q[k].priority)
  }

  // A heap but for the item at i, which may be larger than its parent or smaller than a child.
  predicate Around(q: seq<Item>, n: nat, i: nat)
    requires n <= |q|
  {
    && (forall k :: 0 < k < n && k != i && Parent(k) != i ==> InOrder(q, k))
    && (forall k :: 0 < k < n && Parent(k) == i && i > 0 ==> q[Parent(i)].priority >= q[k].priority)
  }

  lemma UpStep(q: seq<Item>, n: nat, j: nat)
    requires 0 < j < n <= |q| && UpAt(q, n, j) && q[j].priority > q[Parent(j)].priority
    ensures UpAt(Swap(q, Parent(j), j), n, Parent(j))
  {
    var i := Parent(j);
    var r := Swap(q, i, j);
    forall k | 0 < k < n && k != i
      ensures InOrder(r, k)
    {
      if k != j && Parent(k) != i && Parent(k) != j {
        assert InOrder(q, k);
      } else if Parent(k) == i && k != j {
        assert InOrder(q, k);
      }
    }
    forall k | 0 < k < n && Parent(k) == i && i > 0
      ensures r[Parent(i)].priority >= r[k].priority
    {
      assert InOrder(q, i);
      if k != j {
        assert InOrder(q, k);
      }
    }
  }

  // The sift-up of container/heap: the item at j rises past smaller ancestors. The root changes
  // only for a larger item.
  method Up(q: seq<Item>, n: nat, start: nat) returns (r: seq<Item>)
    requires start < n <= |q| && UpAt(q, n, start)
    ensures Rearranged(r, q) && IsHeap(r, n)
    ensures forall k :: n <= k < |q| ==> r[k] == q[k]
    ensures EntryOf(r[0]) == if q[start].priority > q[0].priority then EntryOf(q[start]) else EntryOf(q[0])
  {
    r := q;
    var j: nat := start;
    while j > 0 && r[j].priority > r[Parent(j)].priority
      invariant j < n && |r| == |q| && UpAt(r, n, j) && Rearranged(r, q)
      invariant forall k :: n <= k < |q| ==> r[k] == q[k]
      invariant EntryOf(r[j]) == EntryOf(q[start])
      invariant j > 0 ==> r[0] == q[0]
      invariant j == 0 < start ==> q[start].priority > q[0].priority
    {
      var i := Parent(j);
      UpStep(r, n, j);
      SwapRearranges(r, i, j);
      RearrangedTrans(Swap(r, i, j), r, q);
      r := Swap(r, i, j);
      j := i;
    }
    RootIsLargest(q, r, n, start, j);
  }

  lemma RootIsLargest(q: seq<Item>, r: seq<Item>, n: nat, start: nat, j: nat)
    requires start < n <= |q| == |r| && j < n && UpAt(r, n, j)
    requires EntryOf(r[j]) == EntryOf(q[start]) && (j > 0 ==> r[0] == q[0])
    requires j == 0 < start ==> q[start].priority > q[0].priority
    requires j == 0 || r[j].priority <= r[Parent(j)].priority
    ensures IsHeap(r, n)
    ensures EntryOf(r[0]) == if q[start].priority > q[0].priority then EntryOf(q[start]) else EntryOf(q[0])
  {
    assert IsHeap(r, n);
    if j > 0 {
      HeapRoot(r, n, j);
    }
  }

  lemma {:induction false} HeapRoot(q: seq<Item>, n: nat, k: nat)
    requires k < n <= |q| && IsHeap(q, n)
    ensures q[0].priority >= q[k].priority
  {
    if k > 0 {
      assert InOrder(q, k);
      HeapRoot(q, n, Parent(k));
    }
  }

  lemma DownStep(q: seq<Item>, n: nat, i: nat, j: nat)
    requires i < j < n <= |q| && Parent(j) == i && Around(q, n, i)
    requires q[j].priority > q[i].priority
    requires forall k :: 0 < k < n && Parent(k) == i ==> q[j].priority >= q[k].priority
    ensures Around(Swap(q, i, j), n, j) && InOrder(Swap(q, i, j), j)
  {
    var r := Swap(q, i, j);
    forall k | 0 < k < n && k != j && Parent(k) != j
      ensures InOrder(r, k)
    {
      if k != i && Parent(k) != i {
        assert InOrder(q, k);
      }
    }
    forall k | 0 < k < n && Parent(k) == j
      ensures r[Parent(j)].priority >= r[k].priority
    {
      assert InOrder(q, k);
    }
  }

  // The child that is swapped up if it is larger: the right one only if it is larger than the left.
  function LargerChild(q: seq<Item>, i: nat, n: nat): (j: nat)
    requires 2 * i + 1 < n <= |q|
    ensures i < j < n && Parent(j) == i
  {
    var left := 2 * i + 1;
    if left + 1 < n && q[left + 1].priority > q[left].priority then left + 1 else left
  }

  lemma LargerChildIs(q: seq<Item>, i: nat, n: nat)
    requires 2 * i + 1 < n <= |q|
    ensures forall k :: 0 < k < n && Parent(k) == i ==> q[LargerChild(q, i, n)].priority >= q[k].priority
  {
    forall k | 0 < k < n && Parent(k) == i
      ensures q[LargerChild(q, i, n)].priority >= q[k].priority
    {
      assert k == 2 * i + 1 || k == 2 * i + 2;
    }
  }

  // No child of i is larger.
  lemma Settled(q: seq<Item>, n: nat, i: nat)
    requires i < n <= |q| && Around(q, n, i)
    requires 2 * i + 1 < n ==> q[LargerChild(q, i, n)].priority <= q[i].priority
    ensures UpAt(q, n, i)
    ensures i > 0 && InOrder(q, i) ==> IsHeap(q, n)
  {
    forall k | 0 < k < n && k != i
      ensures InOrder(q, k)
    {
      if Parent(k) == i {
        assert 2 * i + 1 < n;
        LargerChildIs(q, i, n);
      }
    }
  }

  // The sift-down of container/heap: the item at start sinks below larger children, the larger
  // child first. It says whether anything moved.
  method Down(q: seq<Item>, start: nat, n: nat) returns (r: seq<Item>, moved: bool)
    requires start < n <= |q| && Around(q, n, start)
    ensures Rearranged(r, q)
    ensures forall k :: n <= k < |q| ==> r[k] == q[k]
    ensures moved ==> IsHeap(r, n)
    ensures !moved ==> r == q && UpAt(q, n, start)
  {
    r := q;
    var i: nat := start;
    while 2 * i + 1 < n && r[LargerChild(r, i, n)].priority > r[i].priority
      invariant start <= i < n && |r| == |q| && Around(r, n, i) && Rearranged(r, q)
      invariant forall k :: n <= k < |q| ==> r[k] == q[k]
      invariant if i > start then InOrder(r, i) else r == q
      decreases n - i
    {
      var j := LargerChild(r, i, n);
      LargerChildIs(r, i, n);
      DownStep(r, n, i, j);
      SwapRearranges(r, i, j);
      RearrangedTrans(Swap(r, i, j), r, q);
      r := Swap(r, i, j);
      i := j;
    }
    moved := i > start;
    Settled(r, n, i);
  }

  // --- Push, Pop and Remove of container/heap ---

  lemma EntriesSnoc(q: seq<Item>, x: Item)
    ensures Entries(q + [x]) == Entries(q) + {EntryOf(x)}
  {
    var r := q + [x];
    forall e
      ensures e in Entries(r) <==> e in Entries(q) || e == EntryOf(x)
    {
      if e in Entries(q) {
        var k :| 0 <= k < |q| && EntryOf(q[k]) == e;
        assert r[k] == q[k];
      }
      if e == EntryOf(x) {
        assert r[|q|] == x;
      }
    }
  }

  // Dropping the last item drops exactly its entry.
  lemma DropLast(q: seq<Item>, n: nat)
    requires |q| == n + 1 && Distinct(q)
    ensures Entries(q[..n]) == Entries(q) - {EntryOf(q[n])} && Distinct(q[..n])
    ensures EntryOf(q[n]) in Entries(q)
  {
    EntriesSnoc(q[..n], q[n]);
    assert q == q[..n] + [q[n]];
    forall e | e in Entries(q[..n])
      ensures e != EntryOf(q[n])
    {
      var k :| 0 <= k < n && EntryOf(q[..n][k]) == e;
      assert q[k].tx.hash != q[n].tx.hash;
    }
  }

  lemma SnocOrdered(q: seq<Item>, x: Item)
    requires IsHeap(q, |q|)
    ensures forall k :: 0 < k < |q| ==> InOrder(q + [x], k)
  {
    forall k | 0 < k < |q|
      ensures InOrder(q + [x], k)
    {
      assert InOrder(q, k);
    }
  }

  method Push(q: seq<Item>, tx: Tx, priority: int) returns (r: seq<Item>)
    requires IsHeap(q, |q|) && Indexed(q) && Distinct(q)
    requires forall i :: 0 <= i < |q| ==> q[i].tx.hash != tx.hash
    ensures IsHeap(r, |r|) && Indexed(r) && Distinct(r) && |r| == |q| + 1
    ensures Entries(r) == Entries(q) + {Entry(tx, priority)}
    ensures q != [] ==> EntryOf(r[0]) == if priority > q[0].priority then Entry(tx, priority) else EntryOf(q[0])
  {
    var x := Item(tx, priority, |q|);
    var longer := q + [x];
    EntriesSnoc(q, x);
    SnocOrdered(q, x);
    r := Up(longer, |longer|, |q|);
  }

  lemma SwapLastAround(q: seq<Item>, i: nat, n: nat)
    requires |q| == n + 1 && i < n && IsHeap(q, n + 1)
    ensures Around(Swap(q, i, n), n, i)
  {
    var r := Swap(q, i, n);
    forall k | 0 < k < n && k != i && Parent(k) != i
      ensures InOrder(r, k)
    {
      assert InOrder(q, k);
    }
    forall k | 0 < k < n && Parent(k) == i && i > 0
      ensures r[Parent(i)].priority >= r[k].priority
    {
      assert InOrder(q, k) && InOrder(q, i);
    }
  }

  // The item at i, and the queue without it.
  method Remove(q: seq<Item>, i: nat) returns (r: seq<Item>, x: Item)
    requires i < |q| && IsHeap(q, |q|) && Indexed(q) && Distinct(q)
    ensures IsHeap(r, |r|) && Indexed(r) && Distinct(r) && |r| == |q| - 1
    ensures Entries(r) == Entries(q) - {EntryOf(q[i])}
    ensures EntryOf(x) == EntryOf(q[i]) && EntryOf(x) in Entries(q)
  {
    var n: nat := |q| - 1;
    r := q;
    if n != i {
      SwapLastAround(q, i, n);
      SwapRearranges(q, i, n);
      ghost var swapped := Swap(q, i, n);
      var moved;
      r, moved := Down(Swap(q, i, n), i, n);
      RearrangedTrans(r, swapped, q);
      if !moved {
        ghost var still := r;
        r := Up(r, n, i);
        RearrangedTrans(r, still, q);
      }
    }
    DropLast(r, n);
    x := r[n].(index := -1);
    r := KeepHeap(r, n);
  }

  function KeepHeap(q: seq<Item>, n: nat): (r: seq<Item>)
    requires |q| == n + 1 && IsHeap(q, n)
    ensures r == q[..n] && IsHeap(r, n)
  {
    PrefixHeap(q, n);
    q[..n]
  }

  lemma PrefixHeap(q: seq<Item>, n: nat)
    requires n <= |q| && IsHeap(q, n)
    ensures IsHeap(q[..n], n)
  {
    forall k | 0 < k < n
      ensures InOrder(q[..n], k)
    {
      assert InOrder(q, k);
    }
  }

  // The first item, and the queue without it.
  method Pop(q: seq<Item>) returns (r: seq<Item>, x: Item)
    requires q != [] && IsHeap(q, |q|) && Indexed(q) && Distinct(q)
    ensures IsHeap(r, |r|) && Indexed(r) && Distinct(r) && |r| == |q| - 1
    ensures Entries(r) == Entries(q) - {EntryOf(q[0])}
    ensures EntryOf(x) == EntryOf(q[0]) && EntryOf(x) in Entries(q)
  {
    var n: nat := |q| - 1;
    r := Swap(q, 0, n);
    SwapRearranges(q, 0, n);
    if n > 0 {
      SwapLastAround(q, 0, n);
      var moved;
      ghost var swapped := r;
      r, moved := Down(r, 0, n);
      RearrangedTrans(r, swapped, q);
    }
    DropLast(r, n);
    x := r[n].(index := -1);
    r := KeepHeap(r, n);
  }
}
