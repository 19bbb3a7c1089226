// Block rewards and their shares, computed in binary floating point
// (account/reward.go, the share computations of blocks/processBlock.go).
module Rewards {
  const MAX_TOTAL_SUPPLY: int := 230_000_000_000_000_000

  // Half a unit in the last place of a 53-bit significand, relative to the value.
  const UNIT_ROUNDOFF: real := 1.0 / 9_007_199_254_740_992.0

  // The standard model of round-to-nearest on non-negative reals: every result is within a
  // relative error of UNIT_ROUNDOFF. Any function with this property stands for the machine's rounding.
  ghost predicate Rounds(fl: real -> real) {
    forall x: real :: x >= 0.0 ==> x * (1.0 - UNIT_ROUNDOFF) <= fl(x) <= x * (1.0 + UNIT_ROUNDOFF)
  }

  // math.Round on non-negative values: halves away from zero.
  function RoundHalf(x: real): int { (x + 0.5).Floor }

  // A floating-point product.
  function Times(fl: real -> real, x: real, y: real): real { fl(x * y) }

  // The reward for the block after one with this supply.
  function GetReward(fl: real -> real, supply: int): int {
    RoundHalf(Times(fl, fl(0.0000001), fl((MAX_TOTAL_SUPPLY - supply) as real)))
  }

  const MAX_REWARD: int := 26_000_000_000

  // A reward is never negative and never more than what is left to mint.
  lemma RewardFits(fl: real -> real, supply: int)
    requires Rounds(fl) && 0 <= supply <= MAX_TOTAL_SUPPLY
    ensures 0 <= GetReward(fl, supply) <= MAX_TOTAL_SUPPLY - supply
    ensures GetReward(fl, supply) <= MAX_REWARD
  {
    var left := (MAX_TOTAL_SUPPLY - supply) as real;
    var ratio, rest := fl(0.0000001), fl(left);
    RoundsLoosely(fl, 0.0000001);
    RoundsLoosely(fl, left);
    RoundedProduct(fl, ratio, rest);
    var cr := Times(fl, ratio, rest);
    ThreeRoundings(ratio, rest, cr, left);
    RewardArithmetic(cr, MAX_TOTAL_SUPPLY - supply);
  }

  lemma RoundedProduct(fl: real -> real, x: real, y: real)
    requires Rounds(fl) && x >= 0.0 && y >= 0.0
    ensures 0.0 <= Times(fl, x, y) <= x * y * 1.01
  {
    MulMono(0.0, x, y, y);
    RoundsLoosely(fl, x * y);
  }

  lemma ThreeRoundings(ratio: real, rest: real, cr: real, left: real)
    requires 0.0 <= ratio <= 0.0000001 * 1.01 && 0.0 <= rest <= left * 1.01 && cr <= ratio * rest * 1.01
    ensures cr <= left * 0.00000011
  {
    MulMono(ratio, 0.0000001 * 1.01, rest, left * 1.01);
  }

  lemma RewardArithmetic(cr: real, left: int)
    requires 0 <= left <= MAX_TOTAL_SUPPLY
    requires 0.0 <= cr <= left as real * 0.00000011
    ensures 0 <= RoundHalf(cr) <= left && RoundHalf(cr) <= MAX_REWARD
  {
    var r := RoundHalf(cr);
    assert r as real <= cr + 0.5;
    assert MAX_TOTAL_SUPPLY as real * 0.00000011 == 25_300_000_000.0;
    assert r as real < 26_000_000_000.0;
    if left > 0 {
      assert r as real < left as real + 1.0;
    }
  }

  lemma RoundsLoosely(fl: real -> real, x: real)
    requires Rounds(fl) && x >= 0.0
    ensures 0.0 <= fl(x) <= x * 1.01
  {
    assert x * (1.0 - UNIT_ROUNDOFF) >= 0.0;
    MulMono(x, x, 1.0 + UNIT_ROUNDOFF, 1.01);
  }

  lemma MulMono(a: real, b: real, c: real, d: real)
    requires 0.0 <= a <= b && 0.0 <= c <= d
    ensures 0.0 <= a * c <= b * d
  {
    assert (b - a) * c >= 0.0;
    assert b * (d - c) >= 0.0;
    assert a * c <= b * c <= b * d;
  }

  lemma Cancel(a: real, b: real, k: real)
    requires a * k <= b * k && k > 0.0
    ensures a <= b
  {
    assert a == a * k / k && b == b * k / k;
  }

  // x * y / s, rounded at every operation and truncated.
  function Scaled(fl: real -> real, x: nat, y: nat, s: real): int
    requires s != 0.0
  {
    fl(Times(fl, fl(x as real), fl(y as real)) / s).Floor
  }

  // What one staker gets: the reward times its share of the sum.
  function Share(fl: real -> real, reward: nat, balance: nat, sum: nat): int
    requires fl(sum as real) != 0.0
  {
    Scaled(fl, reward, balance, fl(sum as real))
  }

  // The operator's part: thousandths of the reward, truncated towards zero.
  function OperatorPart(fl: real -> real, reward: nat, perMille: int): int {
    if perMille >= 0 then Scaled(fl, reward, perMille, 1000.0) else -Scaled(fl, reward, -perMille, 1000.0)
  }

  // The relative error of the whole computation of a share.
  const SHARE_ERROR: real := 1.000000000001

  lemma ProductBound(fl: real -> real, x: nat, y: nat)
    requires Rounds(fl)
    ensures 0.0 <= fl(fl(x as real) * fl(y as real)) <= x as real * y as real * (1.0 + 4.0 * UNIT_ROUNDOFF)
  {
    var a, b, r, k := fl(x as real), fl(y as real), x as real, y as real;
    MulMono(a, r * (1.0 + UNIT_ROUNDOFF), b, k * (1.0 + UNIT_ROUNDOFF));
    var rk := r * k;
    assert r * (1.0 + UNIT_ROUNDOFF) * (k * (1.0 + UNIT_ROUNDOFF)) == rk * ((1.0 + UNIT_ROUNDOFF) * (1.0 + UNIT_ROUNDOFF));
    MulMono(rk, rk, (1.0 + UNIT_ROUNDOFF) * (1.0 + UNIT_ROUNDOFF), 1.0 + 2.5 * UNIT_ROUNDOFF);
    assert a * b <= rk * (1.0 + 2.5 * UNIT_ROUNDOFF);
    MulMono(a * b, rk * (1.0 + 2.5 * UNIT_ROUNDOFF), 1.0 + UNIT_ROUNDOFF, 1.0 + UNIT_ROUNDOFF);
    assert rk * (1.0 + 2.5 * UNIT_ROUNDOFF) * (1.0 + UNIT_ROUNDOFF) == rk * ((1.0 + 2.5 * UNIT_ROUNDOFF) * (1.0 + UNIT_ROUNDOFF));
    MulMono(rk, rk, (1.0 + 2.5 * UNIT_ROUNDOFF) * (1.0 + UNIT_ROUNDOFF), 1.0 + 4.0 * UNIT_ROUNDOFF);
  }

  lemma QuotientBound(fl: real -> real, p: real, s: real, x: real)
    requires Rounds(fl) && p >= 0.0 && s > 0.0 && x <= fl(p / s)
    ensures p / s >= 0.0
    ensures x * s <= p * (1.0 + UNIT_ROUNDOFF)
  {
    var q := p / s;
    assert q * s == p;
    Cancel(0.0, q, s);
    assert x <= q * (1.0 + UNIT_ROUNDOFF);
    assert (q * (1.0 + UNIT_ROUNDOFF) - x) * s >= 0.0;
    assert q * (1.0 + UNIT_ROUNDOFF) * s == q * s * (1.0 + UNIT_ROUNDOFF);
  }

  lemma ScaledBound(fl: real -> real, x: nat, y: nat, s: real)
    requires Rounds(fl) && s > 0.0
    ensures Scaled(fl, x, y, s) >= 0
    ensures Scaled(fl, x, y, s) as real * s <= x as real * y as real * (1.0 + 4.0 * UNIT_ROUNDOFF) * (1.0 + UNIT_ROUNDOFF)
  {
    var p, r := fl(fl(x as real) * fl(y as real)), Scaled(fl, x, y, s);
    ProductBound(fl, x, y);
    QuotientBound(fl, p, s, r as real);
    MulMono(p, x as real * y as real * (1.0 + 4.0 * UNIT_ROUNDOFF), 1.0 + UNIT_ROUNDOFF, 1.0 + UNIT_ROUNDOFF);
    assert fl(p / s) >= 0.0 by {
      assert p / s * (1.0 - UNIT_ROUNDOFF) >= 0.0;
    }
  }

  lemma ShareBound(fl: real -> real, reward: nat, balance: nat, sum: nat)
    requires Rounds(fl) && sum > 0
    ensures fl(sum as real) > 0.0
    ensures Share(fl, reward, balance, sum) >= 0
    ensures Share(fl, reward, balance, sum) as real * sum as real <= reward as real * balance as real * SHARE_ERROR
  {
    var s, t := fl(sum as real), sum as real;
    assert t * (1.0 - UNIT_ROUNDOFF) > 0.0;
    ScaledBound(fl, reward, balance, s);
    ShareArithmetic(Share(fl, reward, balance, sum) as real, s, t, reward as real * balance as real);
  }

  lemma ShareArithmetic(x: real, s: real, t: real, rk: real)
    requires x >= 0.0 && t >= 0.0 && s >= t * (1.0 - UNIT_ROUNDOFF) && rk >= 0.0
    requires x * s <= rk * (1.0 + 4.0 * UNIT_ROUNDOFF) * (1.0 + UNIT_ROUNDOFF)
    ensures x * t <= rk * SHARE_ERROR
  {
    MulMono(x, x, t * (1.0 - UNIT_ROUNDOFF), s);
    assert x * (t * (1.0 - UNIT_ROUNDOFF)) == x * t * (1.0 - UNIT_ROUNDOFF);
    assert rk * (1.0 + 4.0 * UNIT_ROUNDOFF) * (1.0 + UNIT_ROUNDOFF) == rk * ((1.0 + 4.0 * UNIT_ROUNDOFF) * (1.0 + UNIT_ROUNDOFF));
    MulMono(rk, rk, (1.0 + 4.0 * UNIT_ROUNDOFF) * (1.0 + UNIT_ROUNDOFF), SHARE_ERROR * (1.0 - UNIT_ROUNDOFF));
    assert rk * (SHARE_ERROR * (1.0 - UNIT_ROUNDOFF)) == rk * SHARE_ERROR * (1.0 - UNIT_ROUNDOFF);
    Cancel(x * t, rk * SHARE_ERROR, 1.0 - UNIT_ROUNDOFF);
  }

  function SumOf(balances: seq<int>): int {
    if balances == [] then 0 else SumOf(balances[..|balances| - 1]) + balances[|balances| - 1]
  }

  // --- The amounts a block needs, however they are rounded ---

  // The reward after a supply, a staker's share of (reward, balance, sum), the operator's part of
  // (reward, thousandths).
  datatype Money = Money(rewardAfter: int -> int, share: (int, int, int) -> int, part: (int, int) -> int)

  // Accounts without a balance are passed over.
  function ShareOf(m: Money, reward: int, balance: int, sum: int): int {
    if balance > 0 then m.share(reward, balance, sum) else 0
  }

  // What the stakers are paid.
  function Shares(m: Money, reward: int, balances: seq<int>, sum: int): (r: seq<int>)
    ensures |r| == |balances|
    ensures forall i :: 0 <= i < |balances| ==> r[i] == ShareOf(m, reward, balances[i], sum)
  {
    seq(|balances|, i requires 0 <= i < |balances| => ShareOf(m, reward, balances[i], sum))
  }

  // No reward exceeds what is left to mint, no part exceeds the reward, and the shares of all
  // stakers together never do.
  ghost predicate Fair(m: Money) {
    && (forall s :: 0 <= s <= MAX_TOTAL_SUPPLY ==>
          0 <= m.rewardAfter(s) <= MAX_TOTAL_SUPPLY - s && m.rewardAfter(s) <= MAX_REWARD)
    && (forall r, p :: 0 <= r && p <= 500 ==> m.part(r, p) <= r)
    && (forall r, bs, sum :: 0 <= r <= MAX_REWARD && sum == SumOf(bs) > 0 && (forall b :: b in bs ==> b >= 0) ==>
          SumOf(Shares(m, r, bs, sum)) <= r && forall x :: x in Shares(m, r, bs, sum) ==> x >= 0)
  }

  lemma FairShares(m: Money, r: int, bs: seq<int>, sum: int)
    requires Fair(m) && r <= MAX_REWARD && sum == SumOf(bs) > 0
    requires forall i :: 0 <= i < |bs| ==> bs[i] >= 0
    ensures r >= 0 ==> SumOf(Shares(m, r, bs, sum)) <= r
    ensures var shares := Shares(m, r, bs, sum);
            r >= 0 ==> forall i :: 0 <= i < |shares| ==> shares[i] >= 0 && (bs[i] <= 0 ==> shares[i] == 0)
  {
    var shares := Shares(m, r, bs, sum);
    assert forall i :: 0 <= i < |shares| ==> shares[i] in shares;
  }

  // The amounts as the code computes them.
  function FloatMoney(fl: real -> real): Money {
    Money(s => GetReward(fl, s),
          (r, b, sum) => if r >= 0 && b >= 0 && sum > 0 && fl(sum as real) != 0.0 then Share(fl, r, b, sum) else 0,
          (r, p) => if r >= 0 then OperatorPart(fl, r, p) else 0)
  }

  // Whatever the machine's rounding, these amounts are fair.
  lemma FloatIsFair(fl: real -> real)
    requires Rounds(fl)
    ensures Fair(FloatMoney(fl))
  {
    var m := FloatMoney(fl);
    forall s | 0 <= s <= MAX_TOTAL_SUPPLY
      ensures 0 <= m.rewardAfter(s) <= MAX_TOTAL_SUPPLY - s && m.rewardAfter(s) <= MAX_REWARD
    {
      RewardFits(fl, s);
    }
    forall r, p | 0 <= r && p <= 500
      ensures m.part(r, p) <= r
    {
      OperatorPartFits(fl, r, p);
    }
    forall r, bs, sum | 0 <= r <= MAX_REWARD && sum == SumOf(bs) > 0 && (forall b :: b in bs ==> b >= 0)
      ensures SumOf(Shares(m, r, bs, sum)) <= r && forall x :: x in Shares(m, r, bs, sum) ==> x >= 0
    {
      SharesFit(fl, m, r, bs, sum);
    }
  }

  ghost predicate Bounded(share: int, reward: nat, balance: int, sum: nat) {
    share >= 0 && share as real * sum as real <= reward as real * balance as real * SHARE_ERROR
  }

  lemma {:induction false} SumBounded(shares: seq<int>, reward: nat, balances: seq<int>, sum: nat)
    requires |shares| == |balances|
    requires forall i :: 0 <= i < |balances| ==> Bounded(shares[i], reward, balances[i], sum)
    ensures Bounded(SumOf(shares), reward, SumOf(balances), sum)
  {
    if balances != [] {
      var n := |balances| - 1;
      SumBounded(shares[..n], reward, balances[..n], sum);
      assert Bounded(shares[n], reward, balances[n], sum);
      AddBounds(SumOf(shares[..n]) as real, shares[n] as real, sum as real, reward as real,
                SumOf(balances[..n]) as real, balances[n] as real);
    }
  }

  lemma AddBounds(x: real, y: real, s: real, r: real, a: real, b: real)
    requires x * s <= r * a * SHARE_ERROR && y * s <= r * b * SHARE_ERROR
    ensures (x + y) * s <= r * (a + b) * SHARE_ERROR
  {
    assert (x + y) * s == x * s + y * s;
    assert r * (a + b) * SHARE_ERROR == r * a * SHARE_ERROR + r * b * SHARE_ERROR;
  }

  lemma WholeUnits(x: int, r: nat, s: nat)
    requires Bounded(x, r, s, s) && s > 0 && r <= MAX_REWARD
    ensures x <= r
  {
    var y, q, t := x as real, r as real, s as real;
    assert q * t * SHARE_ERROR == q * SHARE_ERROR * t;
    Cancel(y, q * SHARE_ERROR, t);
    assert q * SHARE_ERROR < q + 1.0;
  }

  // The shares of all stakers never add up to more than the reward, whatever the rounding: the
  // error of all of them together is below one unit.
  lemma SharesFit(fl: real -> real, m: Money, reward: nat, balances: seq<int>, sum: nat)
    requires Rounds(fl) && m == FloatMoney(fl) && sum > 0 && SumOf(balances) == sum && reward <= MAX_REWARD
    requires forall b :: b in balances ==> b >= 0
    ensures 0 <= SumOf(Shares(m, reward, balances, sum)) <= reward
    ensures forall x :: x in Shares(m, reward, balances, sum) ==> x >= 0
  {
    var shares := Shares(m, reward, balances, sum);
    forall i | 0 <= i < |balances|
      ensures Bounded(shares[i], reward, balances[i], sum)
    {
      assert balances[i] in balances;
      ShareOfBounded(fl, m, reward, balances[i], sum);
    }
    SumBounded(shares, reward, balances, sum);
    WholeUnits(SumOf(shares), reward, sum);
  }

  lemma ShareOfBounded(fl: real -> real, m: Money, reward: nat, balance: int, sum: nat)
    requires Rounds(fl) && m == FloatMoney(fl) && sum > 0 && balance >= 0
    ensures Bounded(ShareOf(m, reward, balance, sum), reward, balance, sum)
  {
    ShareBound(fl, reward, balance, sum);
    if balance == 0 {
      assert 0 as real * sum as real == 0.0;
      assert reward as real * balance as real == 0.0;
    }
  }

  // A percentage of at most 50 never takes more than the reward.
  lemma OperatorPartFits(fl: real -> real, reward: nat, perMille: int)
    requires Rounds(fl) && perMille <= 500
    ensures perMille >= 0 ==> OperatorPart(fl, reward, perMille) >= 0
    ensures OperatorPart(fl, reward, perMille) <= reward
  {
    var k: nat := if perMille >= 0 then perMille else -perMille;
    ScaledBound(fl, reward, k, 1000.0);
    if perMille >= 0 {
      HalfArithmetic(Scaled(fl, reward, k, 1000.0) as real, reward as real, k as real);
    }
  }

  lemma HalfArithmetic(x: real, r: real, k: real)
    requires 0.0 <= r && 0.0 <= k <= 500.0
    requires x * 1000.0 <= r * k * (1.0 + 4.0 * UNIT_ROUNDOFF) * (1.0 + UNIT_ROUNDOFF)
    ensures x <= r
  {
    MulMono(r, r, k, 500.0);
    MulMono(r * k, r * 500.0, 1.0 + 4.0 * UNIT_ROUNDOFF, 1.0 + 4.0 * UNIT_ROUNDOFF);
    MulMono(r * k * (1.0 + 4.0 * UNIT_ROUNDOFF), r * 500.0 * (1.0 + 4.0 * UNIT_ROUNDOFF), 1.0 + UNIT_ROUNDOFF, 1.0 + UNIT_ROUNDOFF);
  }
}
