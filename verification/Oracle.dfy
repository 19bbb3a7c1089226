// The price oracle: reports of the delegated accounts, the data a block carries, and its check
// (oracles/oraclesDefinition.go).
module Oracle {
  import opened Bytes
  import opened OraclePrice
  import opened Wrappers
  import S = Staking

  const ORACLES_HEIGHT_DISTANCE: int := 6

  datatype Report = Report(price: int, height: int, staked: int)

  // One entry of the data in a block.
  datatype Claim = Claim(id: byte, height: int, price: int)

  predicate IsInt64(x: int) { -TWO63 <= x < TWO63 }

  // --- The byte format: 17 bytes for each report, little-endian ---

  function Reversed(b: seq<byte>): (r: seq<byte>)
    ensures |r| == |b| && forall i :: 0 <= i < |b| ==> r[i] == b[|b| - 1 - i]
  {
    seq(|b|, i requires 0 <= i < |b| => b[|b| - 1 - i])
  }

  function Int64Bytes(x: int): (r: seq<byte>)
    ensures |r| == 8
  {
    Reversed(ToBE(x % TWO64, 8))
  }

  function Int64Of(b: seq<byte>): int { S.Wrap64(FromBE(Reversed(b))) }

  lemma Int64RoundTrip(x: int)
    requires IsInt64(x)
    ensures Int64Of(Int64Bytes(x)) == x
  {
    var n := x % TWO64;
    assert Reversed(Reversed(ToBE(n, 8))) == ToBE(n, 8);
    EightBytes(n);
    WrapOfResidue(x);
  }

  lemma EightBytes(n: nat)
    requires n < TWO64
    ensures FromBE(ToBE(n, 8)) == n
  {
    FromToBE(n, 8);
    PowerOfEight();
  }

  lemma PowerOfEight()
    ensures Pow256(8) == TWO64
  {
  }

  lemma WrapOfResidue(x: int)
    requires IsInt64(x)
    ensures S.Wrap64(x % TWO64) == x
  {
  }

  function ClaimBytes(c: Claim): (r: seq<byte>)
    ensures |r| == 17
  {
    [c.id] + Int64Bytes(c.height) + Int64Bytes(c.price)
  }

  function ClaimOf(b: seq<byte>): Claim
    requires |b| == 17
  {
    Claim(b[0], Int64Of(b[1..9]), Int64Of(b[9..17]))
  }

  lemma ClaimRoundTrip(c: Claim)
    requires IsInt64(c.height) && IsInt64(c.price)
    ensures ClaimOf(ClaimBytes(c)) == c
  {
    var b := ClaimBytes(c);
    assert b[1..9] == Int64Bytes(c.height) && b[9..17] == Int64Bytes(c.price);
    Int64RoundTrip(c.height);
    Int64RoundTrip(c.price);
  }

  function DataOf(claims: seq<Claim>): seq<byte> {
    if claims == [] then [] else DataOf(claims[..|claims| - 1]) + ClaimBytes(claims[|claims| - 1])
  }

  function ClaimsOf(data: seq<byte>): seq<Claim>
    requires |data| % 17 == 0
    decreases |data|
  {
    if data == [] then [] else
      var n := |data| - 17;
      ClaimsOf(data[..n]) + [ClaimOf(data[n..])]
  }

  lemma DataSnoc(claims: seq<Claim>, c: Claim)
    ensures DataOf(claims + [c]) == DataOf(claims) + ClaimBytes(c)
  {
    assert (claims + [c])[..|claims|] == claims;
  }

  lemma ClaimsOfSnoc(front: seq<byte>, last: seq<byte>)
    requires |front| % 17 == 0 && |last| == 17
    ensures |front + last| % 17 == 0 && ClaimsOf(front + last) == ClaimsOf(front) + [ClaimOf(last)]
  {
    var data := front + last;
    assert data[..|front|] == front && data[|front|..] == last;
  }

  // Parsing gives back what was generated.
  lemma {:induction false} DataRoundTrip(claims: seq<Claim>)
    requires forall i :: 0 <= i < |claims| ==> IsInt64(claims[i].height) && IsInt64(claims[i].price)
    ensures |DataOf(claims)| % 17 == 0 && ClaimsOf(DataOf(claims)) == claims
  {
    if claims != [] {
      var k := |claims| - 1;
      DataRoundTrip(claims[..k]);
      ClaimRoundTrip(claims[k]);
      ClaimsOfSnoc(DataOf(claims[..k]), ClaimBytes(claims[k]));
      assert claims == claims[..k] + [claims[k]];
    }
  }

  function PricesOf(claims: seq<Claim>): (r: seq<int>)
    ensures |r| == |claims|
    ensures forall i :: 0 <= i < |r| ==> r[i] == claims[i].price
  {
    seq(|claims|, i requires 0 <= i < |claims| => claims[i].price)
  }

  // What the reporting accounts have staked together.
  function StakeOf(claims: seq<Claim>, stakes: byte -> int): int {
    if claims == [] then 0 else StakeOf(claims[..|claims| - 1], stakes) + stakes(claims[|claims| - 1].id)
  }

  // Two thirds, as Go divides.
  function TwoThirds(total: int): int { if total >= 0 then 2 * total / 3 else -(-2 * total / 3) }

  // The price a block has to carry; zero without a quorum, none if there is nothing to go by.
  function Agreed(claims: seq<Claim>, stakes: byte -> int, total: int): Option<int> {
    if StakeOf(claims, stakes) <= TwoThirds(total) then Some(0) else PriceOf(PricesOf(claims))
  }

  // The parsed reports are those of the ids in the data, with the stakes of now.
  ghost predicate ParsedFrom(parsed: map<byte, Report>, claims: seq<Claim>, stakes: byte -> int) {
    && (forall c :: c in claims ==> c.id in parsed)
    && (forall id :: id in parsed ==>
          Claim(id, parsed[id].height, parsed[id].price) in claims && parsed[id].staked == stakes(id))
  }

  lemma ParsedStep(parsed: map<byte, Report>, claims: seq<Claim>, stakes: byte -> int, c: Claim)
    requires ParsedFrom(parsed, claims, stakes)
    ensures ParsedFrom(parsed[c.id := Report(c.price, c.height, stakes(c.id))], claims + [c], stakes)
  {
    var now := parsed[c.id := Report(c.price, c.height, stakes(c.id))];
    forall id | id in now
      ensures Claim(id, now[id].height, now[id].price) in claims + [c] && now[id].staked == stakes(id)
    {
      if id == c.id {
        assert (claims + [c])[|claims|] == c;
      }
    }
  }

  method ParsePriceData(data: seq<byte>, stakes: byte -> int)
    returns (ok: bool, parsed: map<byte, Report>, prices: seq<int>, staked: int)
    ensures ok == (|data| % 17 == 0)
    ensures ok ==> prices == PricesOf(ClaimsOf(data)) && staked == StakeOf(ClaimsOf(data), stakes)
    ensures ok ==> ParsedFrom(parsed, ClaimsOf(data), stakes)
  {
    parsed, prices, staked := map[], [], 0;
    if |data| % 17 != 0 {
      return false, parsed, prices, staked;
    }
    var i: nat := 0;
    ghost var claims: seq<Claim> := [];
    while i < |data|
      invariant i <= |data| && i % 17 == 0 && claims == ClaimsOf(data[..i])
      invariant prices == PricesOf(claims) && staked == StakeOf(claims, stakes) && ParsedFrom(parsed, claims, stakes)
    {
      NextRecord(i, |data|);
      var c := ClaimOf(data[i..i + 17]);
      ClaimsStep(data, i);
      StakeSnoc(claims, c, stakes);
      ParsedStep(parsed, claims, stakes, c);
      claims := claims + [c];
      prices := prices + [c.price];
      staked := staked + stakes(c.id);
      parsed := parsed[c.id := Report(c.price, c.height, stakes(c.id))];
      i := i + 17;
    }
    assert data[..|data|] == data;
    ok := true;
  }

  lemma NextRecord(i: nat, n: nat)
    requires i < n && i % 17 == 0 && n % 17 == 0
    ensures i + 17 <= n && (i + 17) % 17 == 0
  {
  }

  lemma ClaimsStep(data: seq<byte>, i: nat)
    requires i % 17 == 0 && i + 17 <= |data| && (i + 17) % 17 == 0
    ensures ClaimsOf(data[..i + 17]) == ClaimsOf(data[..i]) + [ClaimOf(data[i..i + 17])]
  {
    ClaimsOfSnoc(data[..i], data[i..i + 17]);
    assert data[..i + 17] == data[..i] + data[i..i + 17];
  }

  lemma StakeSnoc(claims: seq<Claim>, c: Claim, stakes: byte -> int)
    ensures StakeOf(claims + [c], stakes) == StakeOf(claims, stakes) + stakes(c.id)
    ensures PricesOf(claims + [c]) == PricesOf(claims) + [c.price]
  {
    assert (claims + [c])[..|claims|] == claims;
  }

  method VerifyPriceOracle(total: int, priceBlock: int, data: seq<byte>, stakes: byte -> int) returns (ok: bool)
    ensures ok <==> |data| % 17 == 0 && Agreed(ClaimsOf(data), stakes, total) == Some(priceBlock)
  {
    var fine, parsed, prices, staked := ParsePriceData(data, stakes);
    if !fine {
      return false;
    }
    if staked <= TwoThirds(total) {
      return priceBlock == 0;
    }
    var kept := Trimmed(prices);
    if |kept| == 0 {
      return false;
    }
    return Median(kept) == priceBlock;
  }

  // --- Who makes the quorum ---

  predicate Reports(claims: seq<Claim>, id: byte) { exists i :: 0 <= i < |claims| && claims[i].id == id }

  // The stakes of the accounts below n that report, each counted once.
  function ReporterStake(claims: seq<Claim>, stakes: byte -> int, n: nat): int
    requires n <= 256
  {
    if n == 0 then 0 else ReporterStake(claims, stakes, n - 1) + if Reports(claims, n - 1) then stakes(n - 1) else 0
  }

  lemma {:induction false} ReporterStakeSnoc(claims: seq<Claim>, c: Claim, stakes: byte -> int, n: nat)
    requires n <= 256
    ensures ReporterStake(claims + [c], stakes, n) ==
            ReporterStake(claims, stakes, n) + if c.id < n && !Reports(claims, c.id) then stakes(c.id) else 0
  {
    if n > 0 {
      ReporterStakeSnoc(claims, c, stakes, n - 1);
      ReportsSnoc(claims, c, n - 1);
    }
  }

  lemma ReportsSnoc(claims: seq<Claim>, c: Claim, id: byte)
    ensures Reports(claims + [c], id) <==> Reports(claims, id) || id == c.id
  {
    var now := claims + [c];
    if Reports(claims, id) {
      var i :| 0 <= i < |claims| && claims[i].id == id;
      assert now[i].id == id;
    } else if id == c.id {
      assert now[|claims|].id == id;
    }
  }

  // No account with a stake reports twice.
  ghost predicate NoneTwice(claims: seq<Claim>, stakes: byte -> int) {
    forall i, j :: 0 <= i < j < |claims| && claims[i].id == claims[j].id ==> stakes(claims[i].id) == 0
  }

  lemma NoneTwiceSnoc(claims: seq<Claim>, c: Claim, stakes: byte -> int)
    ensures NoneTwice(claims + [c], stakes) <==> NoneTwice(claims, stakes) && (Reports(claims, c.id) ==> stakes(c.id) == 0)
  {
    var now, n := claims + [c], |claims|;
    assert forall i :: 0 <= i < n ==> now[i] == claims[i];
    if NoneTwice(now, stakes) {
      if Reports(claims, c.id) {
        var i :| 0 <= i < n && claims[i].id == c.id;
        assert now[i].id == now[n].id;
      }
    } else if NoneTwice(claims, stakes) {
      var i, j :| 0 <= i < j < |now| && now[i].id == now[j].id && stakes(now[i].id) != 0;
      assert claims[i].id == now[i].id;
    }
  }

  // The stake that is held against two thirds is that of the reporting accounts if and only if
  // none of them with a stake is in the data twice.
  lemma {:induction false} StakeIsOfReportersIff(claims: seq<Claim>, stakes: byte -> int)
    requires forall id :: stakes(id) >= 0
    ensures StakeOf(claims, stakes) >= ReporterStake(claims, stakes, 256)
    ensures StakeOf(claims, stakes) == ReporterStake(claims, stakes, 256) <==> NoneTwice(claims, stakes)
  {
    if claims == [] {
      NoReporters(stakes, 256);
    } else {
      var n := |claims| - 1;
      var front, c := claims[..n], claims[n];
      assert claims == front + [c];
      StakeIsOfReportersIff(front, stakes);
      ReporterStakeSnoc(front, c, stakes, 256);
      NoneTwiceSnoc(front, c, stakes);
    }
  }

  lemma {:induction false} NoReporters(stakes: byte -> int, n: nat)
    requires n <= 256
    ensures ReporterStake([], stakes, n) == 0
  {
    if n > 0 {
      NoReporters(stakes, n - 1);
    }
  }

  lemma ThriceStake(c: Claim, stakes: byte -> int)
    ensures StakeOf([c, c, c], stakes) == 3 * stakes(c.id)
    ensures ReporterStake([c, c, c], stakes, 256) == stakes(c.id)
  {
    var one, two, three := [c], [c, c], [c, c, c];
    assert [] + [c] == one && one + [c] == two && two + [c] == three;
    NoReporters(stakes, 256);
    ReporterStakeSnoc([], c, stakes, 256);
    ReporterStakeSnoc(one, c, stakes, 256);
    ReporterStakeSnoc(two, c, stakes, 256);
    assert one[0].id == two[0].id == c.id;
    StakeSnoc([], c, stakes);
    StakeSnoc(one, c, stakes);
    StakeSnoc(two, c, stakes);
  }

  lemma ThricePrice(prices: seq<int>, p: int)
    requires prices == [p, p, p]
    ensures PriceOf(prices) == Some(p)
  {
    AlreadySorted(prices);
    PriceIsMedian(prices);
  }

  // One account with more than two ninths of the stake sets the price alone, by reporting three
  // times.
  method ThriceIsAccepted(c: Claim, stakes: byte -> int, total: int) returns (accepted: bool)
    requires IsInt64(c.height) && IsInt64(c.price) && 3 * stakes(c.id) > TwoThirds(total)
    ensures accepted && ReporterStake([c, c, c], stakes, 256) == stakes(c.id)
  {
    var claims := [c, c, c];
    ThriceStake(c, stakes);
    ThricePrice(PricesOf(claims), c.price);
    DataRoundTrip(claims);
    accepted := VerifyPriceOracle(total, c.price, DataOf(claims), stakes);
  }

  // --- The reports ---

  predicate Fresh(r: Report, height: int) { height <= r.height + ORACLES_HEIGHT_DISTANCE && r.price > 0 }

  function ClaimFor(id: byte, r: Report): Claim { Claim(id, r.height, r.price) }

  // The fresh reports, each once, in some order.
  ghost predicate Enumerates(claims: seq<Claim>, reports: map<byte, Report>, height: int) {
    && (forall i, j :: 0 <= i < j < |claims| ==> claims[i].id != claims[j].id)
    && (forall c :: c in claims <==>
          c.id in reports && Fresh(reports[c.id], height) && c == ClaimFor(c.id, reports[c.id]))
  }

  function Recorded(reports: map<byte, Report>): byte -> int {
    id => if id in reports then reports[id].staked else 0
  }

  // Two such lists hold the same claims.
  lemma {:induction false} SameClaims(s: seq<Claim>, t: seq<Claim>)
    requires forall i, j :: 0 <= i < j < |s| ==> s[i] != s[j]
    requires forall i, j :: 0 <= i < j < |t| ==> t[i] != t[j]
    requires forall c :: c in s <==> c in t
    ensures multiset(s) == multiset(t)
  {
    forall c
      ensures multiset(s)[c] == multiset(t)[c]
    {
      CountDistinct(s, c);
      CountDistinct(t, c);
    }
  }

  lemma {:induction false} CountDistinct(s: seq<Claim>, c: Claim)
    requires forall i, j :: 0 <= i < j < |s| ==> s[i] != s[j]
    ensures multiset(s)[c] == if c in s then 1 else 0
  {
    if s != [] {
      var n := |s| - 1;
      CountDistinct(s[..n], c);
      assert s == s[..n] + [s[n]];
    }
  }

  lemma {:induction false} PermutedClaims(s: seq<Claim>, t: seq<Claim>, stakes: byte -> int)
    requires multiset(s) == multiset(t)
    ensures multiset(PricesOf(s)) == multiset(PricesOf(t)) && StakeOf(s, stakes) == StakeOf(t, stakes)
  {
    if s == [] {
      assert |multiset(t)| == 0;
    } else {
      var n := |s| - 1;
      var k := SameElsewhere(s, t, n);
      PermutedClaims(s[..n], t[..k] + t[k + 1..], stakes);
      TakeOut(t, k, stakes);
      TakeOut(s, n, stakes);
      assert s[..n] + s[n + 1..] == s[..n];
    }
  }

  lemma SameElsewhere(s: seq<Claim>, t: seq<Claim>, n: nat) returns (k: nat)
    requires multiset(s) == multiset(t) && |s| == n + 1
    ensures k < |t| && t[k] == s[n] && multiset(s[..n]) == multiset(t[..k] + t[k + 1..])
  {
    assert s[n] in multiset(t);
    k :| 0 <= k < |t| && t[k] == s[n];
    assert t == t[..k] + [t[k]] + t[k + 1..] && s == s[..n] + [s[n]];
    assert multiset(s) == multiset(s[..n]) + multiset{s[n]};
    assert multiset(t) == multiset(t[..k] + t[k + 1..]) + multiset{t[k]};
    CancelOne(multiset(s[..n]), multiset(t[..k] + t[k + 1..]), s[n]);
  }

  lemma CancelOne(a: multiset<Claim>, b: multiset<Claim>, c: Claim)
    requires a + multiset{c} == b + multiset{c}
    ensures a == b
  {
    assert a == a + multiset{c} - multiset{c} && b == b + multiset{c} - multiset{c};
  }

  lemma {:induction false} StakeConcat(s: seq<Claim>, t: seq<Claim>, stakes: byte -> int)
    ensures StakeOf(s + t, stakes) == StakeOf(s, stakes) + StakeOf(t, stakes)
    ensures PricesOf(s + t) == PricesOf(s) + PricesOf(t)
  {
    if t == [] {
      assert s + t == s;
    } else {
      var front, last := t[..|t| - 1], t[|t| - 1];
      assert t == front + [last] && s + t == s + front + [last];
      StakeConcat(s, front, stakes);
      StakeSnoc(front, last, stakes);
      StakeSnoc(s + front, last, stakes);
    }
  }

  lemma TakeOut(t: seq<Claim>, k: nat, stakes: byte -> int)
    requires k < |t|
    ensures var rest := t[..k] + t[k + 1..];
            && StakeOf(t, stakes) == StakeOf(rest, stakes) + stakes(t[k].id)
            && multiset(PricesOf(t)) == multiset(PricesOf(rest)) + multiset{t[k].price}
  {
    StakeConcat(t[..k], t[k + 1..], stakes);
    StakeConcat(t[..k] + [t[k]], t[k + 1..], stakes);
    StakeSnoc(t[..k], t[k], stakes);
    assert t == t[..k] + [t[k]] + t[k + 1..];
  }

  // The price a node computes does not depend on the order in which it meets the reports.
  lemma OrderFree(s: seq<Claim>, t: seq<Claim>, reports: map<byte, Report>, height: int, stakes: byte -> int, total: int)
    requires Enumerates(s, reports, height) && Enumerates(t, reports, height)
    ensures Agreed(s, stakes, total) == Agreed(t, stakes, total)
  {
    SameClaims(s, t);
    PermutedClaims(s, t, stakes);
    PriceOfSet(PricesOf(s), PricesOf(t));
  }

  // There always is a price to agree on.
  lemma AgreedSome(claims: seq<Claim>, stakes: byte -> int, total: int)
    requires total >= 0
    ensures Agreed(claims, stakes, total).Some?
  {
    if claims != [] {
      SortSorts(PricesOf(claims));
    }
  }

  lemma {:induction false} StakesMatch(claims: seq<Claim>, f: byte -> int, g: byte -> int)
    requires forall i :: 0 <= i < |claims| ==> f(claims[i].id) == g(claims[i].id)
    ensures StakeOf(claims, f) == StakeOf(claims, g)
  {
    if claims != [] {
      StakesMatch(claims[..|claims| - 1], f, g);
    }
  }

  // The recorded stakes are those of now, and the numbers are int64.
  predicate UpToDate(reports: map<byte, Report>, height: int, stakes: byte -> int) {
    forall id :: id in reports && Fresh(reports[id], height) ==>
                   && reports[id].staked == stakes(id)
                   && IsInt64(reports[id].height) && IsInt64(reports[id].price)
  }

  lemma GeneratedParses(claims: seq<Claim>, reports: map<byte, Report>, height: int, stakes: byte -> int, total: int)
    requires Enumerates(claims, reports, height) && UpToDate(reports, height, stakes)
    ensures |DataOf(claims)| % 17 == 0 && ClaimsOf(DataOf(claims)) == claims
    ensures Agreed(claims, stakes, total) == Agreed(claims, Recorded(reports), total)
  {
    forall i | 0 <= i < |claims|
      ensures IsInt64(claims[i].height) && IsInt64(claims[i].price)
      ensures stakes(claims[i].id) == Recorded(reports)(claims[i].id)
    {
      assert claims[i] in claims;
    }
    DataRoundTrip(claims);
    StakesMatch(claims, stakes, Recorded(reports));
  }

  lemma {:induction false} DataLength(claims: seq<Claim>)
    ensures |DataOf(claims)| == 17 * |claims|
  {
    if claims != [] {
      DataLength(claims[..|claims| - 1]);
    }
  }

  lemma PricesListed(claims: seq<Claim>, reports: map<byte, Report>, height: int)
    requires Enumerates(claims, reports, height)
    ensures forall id :: id in reports && Fresh(reports[id], height) ==> reports[id].price in PricesOf(claims)
  {
    forall id | id in reports && Fresh(reports[id], height)
      ensures reports[id].price in PricesOf(claims)
    {
      var c := ClaimFor(id, reports[id]);
      assert c in claims;
      var i :| 0 <= i < |claims| && claims[i] == c;
      assert PricesOf(claims)[i] == c.price;
    }
  }

  class PriceOracles {
    var reports: map<byte, Report>

    constructor ()
      ensures reports == map[]
    {
      reports := map[];
    }

    // A report replaces the one of the same account unless that is for a later height.
    method SavePriceOracle(price: int, height: int, id: int, staked: int) returns (ok: bool)
      modifies this
      ensures ok == (0 < id < 256 && (id in old(reports) ==> old(reports)[id].height <= height))
      ensures reports == if ok then old(reports)[id := Report(price, height, staked)] else old(reports)
      ensures forall i :: i in old(reports) ==> i in reports && old(reports)[i].height <= reports[i].height
    {
      if id <= 0 || id >= 256 {
        return false;
      }
      if id in reports && reports[id].height > height {
        return false;
      }
      reports := reports[id := Report(price, height, staked)];
      return true;
    }

    method GeneratePriceData(height: int)
      returns (data: seq<byte>, prices: seq<int>, staked: int, ghost claims: seq<Claim>)
      ensures Enumerates(claims, reports, height)
      ensures data == DataOf(claims) && prices == PricesOf(claims) && staked == StakeOf(claims, Recorded(reports))
      ensures |data| == 17 * |prices|
      ensures forall id :: id in reports && Fresh(reports[id], height) ==> reports[id].price in prices
    {
      data, prices, staked, claims := [], [], 0, [];
      var todo := reports;
      while todo != map[]
        invariant Generated(reports, todo, height, claims, data, prices, staked)
        decreases |todo|
      {
        var id :| id in todo;
        var po := todo[id];
        GeneratedStep(reports, todo, height, claims, data, prices, staked, id);
        todo := todo - {id};
        if Fresh(po, height) {
          data := data + ClaimBytes(ClaimFor(id, po));
          prices := prices + [po.price];
          staked := staked + po.staked;
          claims := claims + [ClaimFor(id, po)];
        }
      }
      assert reports - {} == reports;
      DataLength(claims);
      PricesListed(claims, reports, height);
    }

    // The price and the data for a block; without a price it is zero.
    method CalculatePriceOracle(height: int, total: int)
      returns (price: int, data: seq<byte>, established: bool, ghost claims: seq<Claim>)
      ensures Enumerates(claims, reports, height) && data == DataOf(claims)
      ensures established <==> StakeOf(claims, Recorded(reports)) > TwoThirds(total) && PriceOf(PricesOf(claims)).Some?
      ensures established || total >= 0 ==> Agreed(claims, Recorded(reports), total) == Some(price)
      ensures !established ==> price == 0
    {
      var prices, staked;
      data, prices, staked, claims := GeneratePriceData(height);
      AgreedSome(claims, Recorded(reports), if total >= 0 then total else 0);
      if staked <= TwoThirds(total) {
        return 0, data, false, claims;
      }
      var kept := Trimmed(prices);
      if |kept| == 0 {
        return 0, data, false, claims;
      }
      return Median(kept), data, true, claims;
    }

    // Whatever a node calculates, the zero without a quorum included, every node with the same
    // stakes accepts: the data hold the fresh reports, each once, and the price is the one agreed
    // on for what is parsed from them.
    method CalculatedIsVerified(height: int, total: int, stakes: byte -> int)
      returns (price: int, data: seq<byte>, accepted: bool, ghost claims: seq<Claim>)
      requires UpToDate(reports, height, stakes) && total >= 0
      ensures Enumerates(claims, reports, height) && data == DataOf(claims)
      ensures |data| % 17 == 0 && ClaimsOf(data) == claims
      ensures Agreed(claims, Recorded(reports), total) == Some(price) == Agreed(ClaimsOf(data), stakes, total)
      ensures accepted
    {
      var established;
      price, data, established, claims := CalculatePriceOracle(height, total);
      GeneratedParses(claims, reports, height, stakes, total);
      accepted := VerifyPriceOracle(total, price, data, stakes);
    }
  }

  // What was generated when the reports in todo are still to come.
  ghost predicate Generated(reports: map<byte, Report>, todo: map<byte, Report>, height: int, claims: seq<Claim>,
                            data: seq<byte>, prices: seq<int>, staked: int) {
    && todo.Keys <= reports.Keys && (forall id :: id in todo ==> todo[id] == reports[id])
    && Enumerates(claims, reports - todo.Keys, height)
    && data == DataOf(claims) && prices == PricesOf(claims) && staked == StakeOf(claims, Recorded(reports))
  }

  lemma GeneratedStep(reports: map<byte, Report>, todo: map<byte, Report>, height: int, claims: seq<Claim>,
                      data: seq<byte>, prices: seq<int>, staked: int, id: byte)
    requires Generated(reports, todo, height, claims, data, prices, staked) && id in todo
    ensures var po := todo[id];
            if Fresh(po, height)
            then Generated(reports, todo - {id}, height, claims + [ClaimFor(id, po)], data + ClaimBytes(ClaimFor(id, po)),
                           prices + [po.price], staked + po.staked)
            else Generated(reports, todo - {id}, height, claims, data, prices, staked)
  {
    EnumeratesStep(claims, reports, todo, height, id);
    var c := ClaimFor(id, reports[id]);
    StakeSnoc(claims, c, Recorded(reports));
    DataSnoc(claims, c);
  }

  lemma EnumeratesStep(claims: seq<Claim>, reports: map<byte, Report>, todo: map<byte, Report>, height: int, id: byte)
    requires todo.Keys <= reports.Keys && id in todo
    requires Enumerates(claims, reports - todo.Keys, height)
    ensures var now := reports - (todo - {id}).Keys;
            if Fresh(reports[id], height) then Enumerates(claims + [ClaimFor(id, reports[id])], now, height)
            else Enumerates(claims, now, height)
  {
    var was, now := reports - todo.Keys, reports - (todo - {id}).Keys;
    assert forall k :: k in now <==> k in was || k == id;
    assert forall i :: 0 <= i < |claims| ==> claims[i] in claims && claims[i].id != id;
  }
}
