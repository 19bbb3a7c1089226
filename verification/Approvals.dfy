// The count of approvals for a multi-signature transfer (blocks/processTransaction.go:309-336).
// The list of signers that have not approved yet shares its array with the stored account, so
// taking one out of the middle shifts the rest in the account as well.
module Approvals {
  import S = Staking

  type Address = S.Address

  // The part of the array that the list still covers.
  datatype Pending = Pending(cells: seq<Address>, lo: nat, hi: nat)

  ghost predicate Proper(p: Pending) { p.lo <= p.hi <= |p.cells| }

  function Left(p: Pending): seq<Address>
    requires Proper(p)
  {
    p.cells[p.lo..p.hi]
  }

  // The first position of a in s, or its length.
  function Find(s: seq<Address>, a: Address): (i: nat)
    ensures i <= |s| && (i < |s| <==> a in s) && (i < |s| ==> s[i] == a)
  {
    if s == [] then 0
    else if s[0] == a then 0
    else
      assert s == [s[0]] + s[1..];
      Find(s[1..], a) + 1
  }

  // Takes the signer at position i of the list out: the first by moving on, any other by moving
  // what follows it one place down.
  function Strike(p: Pending, i: nat): Pending
    requires Proper(p) && i < p.hi - p.lo
  {
    if i == 0 then p.(lo := p.lo + 1)
    else
      var at := p.lo + i;
      p.(cells := p.cells[..at] + p.cells[at + 1..p.hi] + p.cells[p.hi - 1..], hi := p.hi - 1)
  }

  lemma StrikeTakesOut(p: Pending, i: nat)
    requires Proper(p) && i < |Left(p)|
    ensures Proper(Strike(p, i)) && Left(Strike(p, i)) == Left(p)[..i] + Left(p)[i + 1..]
    ensures |Strike(p, i).cells| == |p.cells|
    ensures multiset(Left(Strike(p, i))) == multiset(Left(p)) - multiset{Left(p)[i]}
  {
    var s := Left(p);
    assert Left(Strike(p, i)) == s[..i] + s[i + 1..];
    assert s == s[..i] + [s[i]] + s[i + 1..];
  }

  // Looks one sender up, and takes it out if it is found.
  function Turn(p: Pending, a: Address): (r: Pending)
    requires Proper(p)
    ensures Proper(r) && |r.cells| == |p.cells|
  {
    var i := Find(Left(p), a);
    if i < |Left(p)| then StrikeTakesOut(p, i); Strike(p, i) else p
  }

  function Struck(p: Pending, senders: seq<Address>): (r: Pending)
    requires Proper(p)
    ensures Proper(r) && |r.cells| == |p.cells|
    decreases |senders|
  {
    if senders == [] then p else Struck(Turn(p, senders[0]), senders[1..])
  }

  function All(signers: seq<Address>): (p: Pending)
    ensures Proper(p)
  {
    Pending(signers, 0, |signers|)
  }

  // The approvals among the senders, and what becomes of the stored signers.
  method Count(signers: seq<Address>, senders: seq<Address>) returns (n: nat, cells: seq<Address>)
    ensures n == |multiset(signers) * multiset(senders)|
    ensures cells == Struck(All(signers), senders).cells
  {
    var p := All(signers);
    n := 0;
    Nobody(signers, senders);
    for k := 0 to |senders|
      invariant Counted(signers, senders, k, p, n)
    {
      CountedStep(signers, senders, k, p, n);
      if Find(Left(p), senders[k]) < |Left(p)| {
        n := n + 1;
      }
      p := Turn(p, senders[k]);
    }
    assert senders[..|senders|] == senders;
    cells := p.cells;
  }

  // What holds after k senders.
  ghost predicate Counted(signers: seq<Address>, senders: seq<Address>, k: nat, p: Pending, n: nat)
    requires k <= |senders|
  {
    && Proper(p) && Struck(p, senders[k..]) == Struck(All(signers), senders)
    && n == |multiset(signers) * multiset(senders[..k])|
    && multiset(Left(p)) == multiset(signers) - multiset(senders[..k])
  }

  lemma CountedStep(signers: seq<Address>, senders: seq<Address>, k: nat, p: Pending, n: nat)
    requires k < |senders| && Counted(signers, senders, k, p, n)
    ensures Counted(signers, senders, k + 1, Turn(p, senders[k]), n + if Find(Left(p), senders[k]) < |Left(p)| then 1 else 0)
  {
    CountStep(signers, senders, k);
    LeftStep(p, senders[k]);
  }

  lemma Nobody(signers: seq<Address>, senders: seq<Address>)
    ensures Left(All(signers)) == signers && senders[0..] == senders
    ensures multiset(signers) * multiset(senders[..0]) == multiset{} && multiset(signers) - multiset(senders[..0]) == multiset(signers)
  {
    assert senders[..0] == [];
  }

  lemma LeftStep(p: Pending, a: Address)
    requires Proper(p)
    ensures multiset(Left(Turn(p, a))) == multiset(Left(p)) - multiset{a}
    ensures Find(Left(p), a) < |Left(p)| <==> a in multiset(Left(p))
  {
    var i := Find(Left(p), a);
    if i < |Left(p)| {
      StrikeTakesOut(p, i);
    }
  }

  // One more sender counts if it is still missing.
  lemma CountStep(signers: seq<Address>, senders: seq<Address>, k: nat)
    requires k < |senders|
    ensures senders[k..][0] == senders[k] && senders[k..][1..] == senders[k + 1..]
    ensures var now, next, a := multiset(senders[..k]), multiset(senders[..k + 1]), senders[k];
            && |multiset(signers) * next| == |multiset(signers) * now| + (if a in multiset(signers) - now then 1 else 0)
            && multiset(signers) - next == (multiset(signers) - now) - multiset{a}
  {
    var m, a := multiset(signers), senders[k];
    assert senders[..k + 1] == senders[..k] + [a];
    var now := multiset(senders[..k]);
    assert multiset(senders[..k + 1]) == now + multiset{a};
    assert m * (now + multiset{a}) == m * now + (if a in m - now then multiset{a} else multiset{});
  }

  // --- Once per signer ---

  lemma {:induction false} SizeOfDistinct<T>(m: multiset<T>)
    ensures |m| >= |Distinct(m)|
    ensures |m| == |Distinct(m)| <==> forall a :: a in m ==> m[a] == 1
    decreases |m|
  {
    if a :| a in m {
      var rest := m - multiset{a};
      SizeOfDistinct(rest);
      if m[a] == 1 {
        assert Distinct(m) == Distinct(rest) + {a} && a !in Distinct(rest);
        assert forall b :: b in rest ==> rest[b] == m[b];
        assert forall b :: b in m && b != a ==> rest[b] == m[b];
      } else {
        assert Distinct(m) == Distinct(rest);
      }
    } else {
      assert m == multiset{};
    }
  }

  function Distinct<T>(m: multiset<T>): set<T> { set a | a in m }

  // The approvals are as many as the signers that sent one if and only if none is counted twice,
  // which takes a signer that is listed twice and sent two.
  lemma CountsSignersIff(signers: seq<Address>, senders: seq<Address>)
    ensures |multiset(signers) * multiset(senders)| == |set a | a in signers && a in senders| <==>
            forall a :: a in signers && a in senders ==> multiset(signers)[a] == 1 || multiset(senders)[a] == 1
  {
    var both := multiset(signers) * multiset(senders);
    SizeOfDistinct(both);
    assert forall a :: a in both <==> a in signers && a in senders;
    assert Distinct(both) == set a | a in signers && a in senders;
  }

  // --- What the count does to the stored signers ---

  predicate NoRepeats(s: seq<Address>) { forall i, j :: 0 <= i < j < |s| ==> s[i] != s[j] }

  // The sender is not found, or is the first or the last of the signers that are left.
  predicate AtEnd(p: Pending, a: Address)
    requires Proper(p)
  {
    Find(Left(p), a) == 0 || Find(Left(p), a) >= |Left(p)| - 1
  }

  // Every approval is by the first or the last of the signers that are left by then.
  predicate EndsOnly(p: Pending, senders: seq<Address>)
    requires Proper(p)
    decreases |senders|
  {
    senders == [] || (AtEnd(p, senders[0]) && EndsOnly(Turn(p, senders[0]), senders[1..]))
  }

  // Every cell holds a signer from its place or from behind it.
  ghost predicate FromBehind(cells: seq<Address>, signers: seq<Address>) {
    |cells| == |signers| && forall q :: 0 <= q < |cells| ==> Behind(cells[q], signers, q)
  }

  ghost predicate Behind(a: Address, signers: seq<Address>, q: nat) {
    exists r :: q <= r < |signers| && signers[r] == a
  }

  lemma Itself(signers: seq<Address>)
    ensures FromBehind(signers, signers)
  {
    forall q | 0 <= q < |signers|
      ensures Behind(signers[q], signers, q)
    {
    }
  }

  lemma StrikeCell(p: Pending, i: nat, q: nat)
    requires Proper(p) && i < |Left(p)| && q < |p.cells|
    ensures |Strike(p, i).cells| == |p.cells|
    ensures Strike(p, i).cells[q] == p.cells[if i > 0 && p.lo + i <= q < p.hi - 1 then q + 1 else q]
  {
  }

  // Every cell stays as it was or gets what the next one held.
  lemma TurnCell(p: Pending, a: Address, q: nat)
    requires Proper(p) && q < |p.cells|
    ensures var cells := Turn(p, a).cells; cells[q] == p.cells[q] || (q + 1 < |cells| && cells[q] == p.cells[q + 1])
  {
    if Find(Left(p), a) < |Left(p)| {
      StrikeCell(p, Find(Left(p), a), q);
    }
  }

  // None changes when the sender is at an end, and the one of a sender in the middle does.
  lemma TurnAtEnd(p: Pending, a: Address)
    requires Proper(p) && AtEnd(p, a)
    ensures Turn(p, a).cells == p.cells
  {
    var cells, i := Turn(p, a).cells, Find(Left(p), a);
    forall q | 0 <= q < |cells|
      ensures cells[q] == p.cells[q]
    {
      if i < |Left(p)| {
        StrikeCell(p, i, q);
      }
    }
  }

  lemma TurnFromBehind(p: Pending, a: Address, signers: seq<Address>)
    requires Proper(p) && FromBehind(p.cells, signers)
    ensures FromBehind(Turn(p, a).cells, signers)
  {
    forall q | 0 <= q < |signers|
      ensures Behind(Turn(p, a).cells[q], signers, q)
    {
      TurnCell(p, a, q);
      if Turn(p, a).cells[q] == p.cells[q] {
        assert Behind(p.cells[q], signers, q);
      } else {
        assert Behind(p.cells[q + 1], signers, q + 1);
      }
    }
  }

  lemma TurnStaysBehind(p: Pending, a: Address, signers: seq<Address>, q: nat)
    requires Proper(p) && FromBehind(p.cells, signers) && q < |signers| && Behind(p.cells[q], signers, q + 1)
    ensures Behind(Turn(p, a).cells[q], signers, q + 1)
  {
    TurnCell(p, a, q);
    if Turn(p, a).cells[q] != p.cells[q] {
      assert Behind(p.cells[q + 1], signers, q + 1);
    }
  }

  // A cell that has lost its signer to one behind does not get it back.
  lemma {:induction false} Displaced(p: Pending, senders: seq<Address>, signers: seq<Address>, q: nat)
    requires Proper(p) && FromBehind(p.cells, signers) && q < |signers| && Behind(p.cells[q], signers, q + 1)
    ensures Behind(Struck(p, senders).cells[q], signers, q + 1)
    decreases |senders|
  {
    if senders != [] {
      TurnFromBehind(p, senders[0], signers);
      TurnStaysBehind(p, senders[0], signers, q);
      Displaced(Turn(p, senders[0]), senders[1..], signers, q);
    }
  }

  // The stored signers are as before if and only if every approval was by the first or the last
  // that was left.
  lemma {:induction false} SignersKeptIff(p: Pending, senders: seq<Address>, signers: seq<Address>)
    requires Proper(p) && p.cells == signers && NoRepeats(signers)
    ensures Struck(p, senders).cells == signers <==> EndsOnly(p, senders)
    decreases |senders|
  {
    if senders != [] {
      var a := senders[0];
      if AtEnd(p, a) {
        TurnAtEnd(p, a);
        SignersKeptIff(Turn(p, a), senders[1..], signers);
      } else {
        var q := MiddleDisplaces(p, a, signers);
        Displaced(Turn(p, a), senders[1..], signers, q);
        NotThere(signers, q);
        assert Struck(p, senders).cells[q] != signers[q];
      }
    }
  }

  lemma MiddleDisplaces(p: Pending, a: Address, signers: seq<Address>) returns (q: nat)
    requires Proper(p) && p.cells == signers && !AtEnd(p, a)
    ensures q < |signers| && FromBehind(Turn(p, a).cells, signers) && Behind(Turn(p, a).cells[q], signers, q + 1)
  {
    q := p.lo + Find(Left(p), a);
    MiddleCell(p, a, q);
    TheNextIsBehind(signers, q);
    Itself(signers);
    TurnFromBehind(p, a, signers);
  }

  lemma MiddleCell(p: Pending, a: Address, q: nat)
    requires Proper(p) && !AtEnd(p, a) && q == p.lo + Find(Left(p), a)
    ensures q + 1 < |p.cells| && Turn(p, a).cells[q] == p.cells[q + 1]
  {
    StrikeCell(p, Find(Left(p), a), q);
  }

  lemma TheNextIsBehind(signers: seq<Address>, q: nat)
    requires q + 1 < |signers|
    ensures Behind(signers[q + 1], signers, q + 1)
  {
  }

  lemma NotThere(signers: seq<Address>, q: nat)
    requires NoRepeats(signers) && q < |signers|
    ensures !Behind(signers[q], signers, q + 1)
  {
  }

  // Three signers a, b and c, of whom b approves: then c is listed twice and b is gone, so for
  // the next transfer c can approve twice.
  method OneApprovesTwice(a: Address, b: Address, c: Address) returns (first: nat, stored: seq<Address>, second: nat)
    requires a != b && b != c && a != c
    ensures first == 1 && stored == [a, c, c] && second == 2
  {
    var signers := [a, b, c];
    var p := All(signers);
    assert Left(p) == signers && signers[1] == b && Find(signers, b) == 1;
    assert [b][1..] == [] && Struck(Turn(p, b), []) == Turn(p, b);
    assert multiset(signers) * multiset([b]) == multiset{b};
    first, stored := Count(signers, [b]);
    assert Strike(p, 1).cells == [a, c, c];
    assert multiset(stored) * multiset([c, c]) == multiset{c, c};
    var after;
    second, after := Count(stored, [c, c]);
  }
}
