// The price that a set of reports stands for: the extremes are dropped and the median of the rest
// is taken (oracles/oraclesDefinition.go).
module OraclePrice {
  import opened Bytes
  import opened Staking
  import opened Wrappers

  predicate IsSorted(s: seq<int>) { forall i, j :: 0 <= i < j < |s| ==> s[i] <= s[j] }

  function Insert(x: int, s: seq<int>): seq<int> {
    if s == [] || x <= s[0] then [x] + s else [s[0]] + Insert(x, s[1..])
  }

  // Any sort will do: SortedUnique.
  function Sort(s: seq<int>): seq<int> {
    if s == [] then [] else Insert(s[0], Sort(s[1..]))
  }

  lemma {:induction false} InsertAdds(x: int, s: seq<int>)
    ensures multiset(Insert(x, s)) == multiset{x} + multiset(s) && |Insert(x, s)| == |s| + 1
  {
    if s != [] && s[0] < x {
      var rest := s[1..];
      InsertAdds(x, rest);
      assert s == [s[0]] + rest;
      assert multiset([s[0]] + Insert(x, rest)) == multiset{s[0]} + multiset(Insert(x, rest));
    } else {
      assert multiset([x] + s) == multiset{x} + multiset(s);
    }
  }

  lemma {:induction false} InsertSorts(x: int, s: seq<int>)
    requires IsSorted(s)
    ensures |Insert(x, s)| == |s| + 1 && IsSorted(Insert(x, s))
    ensures Insert(x, s)[0] == if s != [] && s[0] < x then s[0] else x
  {
    if s != [] && s[0] < x {
      InsertSorts(x, s[1..]);
      ConsSorted(s[0], Insert(x, s[1..]));
    } else {
      ConsSorted(x, s);
    }
  }

  lemma ConsSorted(x: int, s: seq<int>)
    requires IsSorted(s) && (s != [] ==> x <= s[0])
    ensures IsSorted([x] + s)
  {
    forall j | 0 <= j < |s|
      ensures x <= s[j]
    {
      assert s[0] <= s[j];
    }
  }

  lemma {:induction false} SortSorts(s: seq<int>)
    ensures IsSorted(Sort(s)) && multiset(Sort(s)) == multiset(s) && |Sort(s)| == |s|
  {
    if s != [] {
      SortSorts(s[1..]);
      InsertSorts(s[0], Sort(s[1..]));
      InsertAdds(s[0], Sort(s[1..]));
      assert s == [s[0]] + s[1..];
    }
  }

  // A sorted list is determined by what is in it.
  lemma {:induction false} SortedUnique(s: seq<int>, t: seq<int>)
    requires IsSorted(s) && IsSorted(t) && multiset(s) == multiset(t)
    ensures s == t
  {
    if s == [] {
      assert |multiset(t)| == 0;
    } else {
      SmallestFirst(s, t);
      TailOf(s);
      TailOf(t);
      SortedUnique(s[1..], t[1..]);
      assert s == [s[0]] + s[1..] && t == [t[0]] + t[1..];
    }
  }

  lemma SmallestFirst(s: seq<int>, t: seq<int>)
    requires s != [] && IsSorted(s) && IsSorted(t) && multiset(s) == multiset(t)
    ensures t != [] && s[0] == t[0]
  {
    assert s[0] in multiset(t);
    assert t[0] in multiset(s);
  }

  lemma TailOf(s: seq<int>)
    requires s != []
    ensures multiset(s[1..]) == multiset(s) - multiset{s[0]}
  {
    assert s == [s[0]] + s[1..];
  }

  // Go's division by two, towards zero.
  function Half(x: int): int { if x >= 0 then x / 2 else -((-x) / 2) }

  // The sum of the two middle values is an int64.
  function Median(s: seq<int>): int
    requires s != []
  {
    var mid := |s| / 2;
    if |s| % 2 == 0 then Half(Wrap64(s[mid - 1] + s[mid])) else s[mid]
  }

  function Trimmed(prices: seq<int>): seq<int> {
    if |prices| > 2 then SortSorts(prices); Sort(prices)[1..|prices| - 1] else prices
  }

  // None when there is nothing to take the median of.
  function PriceOf(prices: seq<int>): Option<int> {
    if Trimmed(prices) == [] then None else Some(Median(Trimmed(prices)))
  }

  // The price does not depend on the order of the reports.
  lemma PriceOfSet(s: seq<int>, t: seq<int>)
    requires multiset(s) == multiset(t)
    ensures PriceOf(s) == PriceOf(t)
  {
    assert |s| == |multiset(s)| == |t|;
    if |s| > 2 {
      SortSorts(s);
      SortSorts(t);
      SortedUnique(Sort(s), Sort(t));
    } else if |s| == 1 {
      assert s[0] in multiset(t);
      assert s == [s[0]] && t == [t[0]];
    } else if |s| == 2 {
      TwoOrders(s, t);
    }
  }

  lemma TwoOrders(s: seq<int>, t: seq<int>)
    requires |s| == |t| == 2 && multiset(s) == multiset(t)
    ensures s[0] + s[1] == t[0] + t[1]
  {
    assert s == [s[0], s[1]] && t == [t[0], t[1]];
    assert s[0] in multiset(t);
    if s[0] == t[0] {
      assert multiset{s[1]} == multiset(s) - multiset{s[0]} == multiset(t) - multiset{t[0]} == multiset{t[1]};
      assert s[1] in multiset{t[1]};
    } else {
      assert s[0] == t[1];
      assert multiset{s[1]} == multiset(s) - multiset{s[0]} == multiset(t) - multiset{t[1]} == multiset{t[0]};
      assert s[1] in multiset{t[0]};
    }
  }

  // The two middle values of the trimmed reports add up within int64.
  predicate MiddleFits(prices: seq<int>) { SumFits(Trimmed(prices)) }

  predicate SumFits(s: seq<int>) {
    s != [] && |s| % 2 == 0 ==> -TWO63 <= s[|s| / 2 - 1] + s[|s| / 2] < TWO63
  }

  lemma MedianBetween(s: seq<int>)
    requires s != [] && IsSorted(s) && SumFits(s)
    ensures s[0] <= Median(s) <= s[|s| - 1]
  {
    var mid := |s| / 2;
    assert s[0] <= s[mid] <= s[|s| - 1];
    if |s| % 2 == 0 {
      assert s[0] <= s[mid - 1] <= s[mid];
      HalfBetween(s[mid - 1], s[mid]);
    }
  }

  lemma HalfBetween(a: int, b: int)
    requires a <= b
    ensures a <= Half(a + b) <= b
  {
  }

  // With three reports or more the price lies between two of the others, whichever report is
  // looked at: no single one can move it out of their range.
  lemma NoneOutweighs(prices: seq<int>, i: nat)
    requires |prices| >= 3 && i < |prices| && MiddleFits(prices)
    ensures var others := prices[..i] + prices[i + 1..];
            && PriceOf(prices).Some?
            && (exists x :: x in others && x <= PriceOf(prices).value)
            && (exists y :: y in others && PriceOf(prices).value <= y)
  {
    var n, t := |prices|, Sort(prices);
    SortSorts(prices);
    PriceIsMedian(prices);
    MedianWithin(t);
    OneOfTwo(prices, i, t, 0, 1);
    OneOfTwo(prices, i, t, n - 2, n - 1);
  }

  lemma PriceIsMedian(prices: seq<int>)
    requires |prices| >= 3
    ensures |Sort(prices)| == |prices| && Trimmed(prices) == Sort(prices)[1..|prices| - 1]
    ensures PriceOf(prices) == Some(Median(Sort(prices)[1..|prices| - 1]))
  {
    SortSorts(prices);
  }

  // The median lies between the second and the last but one.
  lemma MedianWithin(t: seq<int>)
    requires |t| >= 3 && IsSorted(t) && SumFits(t[1..|t| - 1])
    ensures t[0] <= t[1] <= Median(t[1..|t| - 1]) <= t[|t| - 2] <= t[|t| - 1]
  {
    MedianBetween(t[1..|t| - 1]);
  }

  // Of two of the sorted reports, one is not the report at i.
  lemma OneOfTwo(prices: seq<int>, i: nat, t: seq<int>, j: nat, k: nat)
    requires i < |prices| && j < k < |t| && multiset(t) == multiset(prices)
    ensures var others := prices[..i] + prices[i + 1..]; t[j] in others || t[k] in others
  {
    var others := prices[..i] + prices[i + 1..];
    assert prices == prices[..i] + [prices[i]] + prices[i + 1..];
    assert multiset(prices) == multiset(others) + multiset{prices[i]};
    if t[j] != prices[i] {
      assert t[j] in multiset(t);
    } else if t[k] != prices[i] {
      assert t[k] in multiset(t);
    } else {
      assert t == t[..j] + [t[j]] + t[j + 1..k] + [t[k]] + t[k + 1..];
      assert multiset(t)[t[j]] >= 2;
      assert t[j] in multiset(others);
    }
  }

  // For positive reports the condition is exact: two middle values that overflow give a price
  // below every report.
  lemma OverflowingMiddle(prices: seq<int>)
    requires |prices| >= 3 && !MiddleFits(prices)
    requires forall i :: 0 <= i < |prices| ==> 0 < prices[i] < TWO63
    ensures PriceOf(prices).Some? && PriceOf(prices).value <= 0
  {
    SortSorts(prices);
    var s := Trimmed(prices);
    var a, b := s[|s| / 2 - 1], s[|s| / 2];
    assert a in multiset(Sort(prices)) && b in multiset(Sort(prices));
    assert a in prices && b in prices;
    WrapsBelow(a + b);
  }

  lemma WrapsBelow(x: int)
    requires TWO63 <= x < TWO64
    ensures Wrap64(x) == x - TWO64 < 0
  {
  }

  lemma OverflowingMiddleHappens(prices: seq<int>)
    requires |prices| == 4 && forall i :: 0 <= i < 4 ==> prices[i] == TWO63 - 1
    ensures !MiddleFits(prices)
  {
    AlreadySorted(prices);
    assert Trimmed(prices) == prices[1..3];
  }

  lemma AlreadySorted(s: seq<int>)
    requires IsSorted(s)
    ensures Sort(s) == s
  {
    SortSorts(s);
    SortedUnique(s, Sort(s));
  }
}
