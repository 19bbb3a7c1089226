// Staking accounts: stakes with linearly released locks, unstaking, rewards
// (account/stakeAccount.go).
module Staking {
  import opened Bytes
  import opened MapSums

  // A 20-byte address: its first two bytes and the other eighteen, as big-endian numbers.
  datatype Address = Address(prefix: nat, rest: nat)

  const ZERO_ADDRESS: Address := Address(0, 0)

  // One staking account is kept per delegated account and address. There are 256 tables, one for
  // each delegated account.
  datatype Slot = Slot(table: nat, owner: Address)

  // The parallel lists LockedAmount, ReleasePerBlock and LockedInitBlock are always changed
  // together, so one lock is one entry.
  datatype Lock = Lock(amount: int, release: int, init: int)

  // delegated is the number of the delegated account that a stake wrote into the account, or 0.
  datatype Account = Account(staked: int, rewards: int, locks: seq<Lock>, operational: bool, delegated: nat)

  const NOBODY: Account := Account(0, 0, [], false, 0)

  function StakedOf(a: Account): int { a.staked }
  function RewardsOf(a: Account): int { a.rewards }

  // Two's complement wrap-around of int64.
  function Wrap64(x: int): (r: int)
    ensures -TWO63 <= r < TWO63
    ensures -TWO63 <= x < TWO63 ==> r == x
  {
    (x + TWO63) % TWO64 - TWO63
  }

  function Max0(x: int): nat { if x <= 0 then 0 else x }

  // What is still locked, in exact arithmetic.
  function Outstanding(l: Lock, h: int): nat { Max0(l.amount - (h - l.init) * l.release) }

  function OutstandingAll(locks: seq<Lock>, h: int): nat {
    if locks == [] then 0 else OutstandingAll(locks[..|locks| - 1], h) + Outstanding(locks[|locks| - 1], h)
  }

  // What the code computes, in int64.
  function LockValue(l: Lock, h: int): int { Wrap64(l.amount - (h - l.init) * l.release) }

  function LockedAt(locks: seq<Lock>, h: int): (r: int)
    ensures -TWO63 <= r < TWO63
  {
    if locks == [] then 0
    else Wrap64(LockedAt(locks[..|locks| - 1], h) + Max0(LockValue(locks[|locks| - 1], h)))
  }

  predicate Expired(l: Lock, h: int) { LockValue(l, h) <= 0 }

  // The locks that hold nothing back at height h.
  function DeadAt(h: int): Lock -> bool { l => Expired(l, h) }

  // The entries the summing loop marks for removal.
  function ExpiredIndices(locks: seq<Lock>, dead: Lock -> bool): seq<nat> {
    if locks == [] then [] else
      var n := |locks| - 1;
      if dead(locks[n]) then ExpiredIndices(locks[..n], dead) + [n] else ExpiredIndices(locks[..n], dead)
  }

  predicate Ascending(inds: seq<nat>) { forall j, k :: 0 <= j < k < |inds| ==> inds[j] < inds[k] }

  lemma {:induction false} ExpiredIndicesAre(locks: seq<Lock>, dead: Lock -> bool)
    ensures Ascending(ExpiredIndices(locks, dead))
    ensures forall i :: i in ExpiredIndices(locks, dead) <==> 0 <= i < |locks| && dead(locks[i])
  {
    if locks != [] {
      var n := |locks| - 1;
      ExpiredIndicesAre(locks[..n], dead);
      if dead(locks[n]) {
        IndicesSnoc(ExpiredIndices(locks[..n], dead), n);
      }
    }
  }

  lemma IndicesSnoc(inds: seq<nat>, n: nat)
    requires Ascending(inds) && forall i :: i in inds ==> i < n
    ensures Ascending(inds + [n]) && forall i :: i in inds + [n] <==> i in inds || i == n
  {
    assert forall k :: 0 <= k < |inds| ==> inds[k] in inds;
  }

  // The locks that still hold something back.
  function Running(locks: seq<Lock>, dead: Lock -> bool): seq<Lock> {
    if locks == [] then [] else
      var n := |locks| - 1;
      Running(locks[..n], dead) + (if dead(locks[n]) then [] else [locks[n]])
  }

  lemma {:induction false} RunningAre(locks: seq<Lock>, dead: Lock -> bool)
    ensures forall i :: 0 <= i < |Running(locks, dead)| ==> !dead(Running(locks, dead)[i])
  {
    if locks != [] {
      RunningAre(locks[..|locks| - 1], dead);
    }
  }

  datatype Cleaned = Panic | Kept(locks: seq<Lock>)

  // The clean-up loop: each index of the ORIGINAL list is removed from the list as it is then.
  function RemoveEach(locks: seq<Lock>, inds: seq<nat>): Cleaned {
    if inds == [] then Kept(locks) else
      match RemoveEach(locks, inds[..|inds| - 1])
      case Panic => Panic
      case Kept(s) =>
        var i := inds[|inds| - 1];
        if i < |s| then Kept(s[..i] + s[i + 1..]) else Panic
  }

  // After each removal, the part behind the last removed index is the original list shifted by
  // the number of removals: from the second removal on, the loop is off.
  lemma {:induction false} RemovalsShift(locks: seq<Lock>, inds: seq<nat>)
    requires Ascending(inds)
    requires inds != []
    ensures RemoveEach(locks, inds) == Panic <==> inds[|inds| - 1] + |inds| > |locks|
    ensures RemoveEach(locks, inds).Kept? ==>
              && |RemoveEach(locks, inds).locks| == |locks| - |inds|
              && RemoveEach(locks, inds).locks[inds[|inds| - 1]..] == locks[inds[|inds| - 1] + |inds|..]
  {
    var k := |inds| - 1;
    if k > 0 {
      assert inds[..k][k - 1] == inds[k - 1] < inds[k];
      RemovalsShift(locks, inds[..k]);
    }
  }

  // The number of locks still running.
  function Count(locks: seq<Lock>, dead: Lock -> bool): nat { |Running(locks, dead)| }

  lemma {:induction false} RunningConcat(s: seq<Lock>, t: seq<Lock>, dead: Lock -> bool)
    ensures Running(s + t, dead) == Running(s, dead) + Running(t, dead)
  {
    if t == [] {
      assert s + t == s;
    } else {
      var n := |t| - 1;
      assert (s + t)[..|s| + n] == s + t[..n];
      RunningConcat(s, t[..n], dead);
    }
  }

  lemma RunningAround(front: seq<Lock>, x: Lock, behind: seq<Lock>, dead: Lock -> bool)
    ensures Running(front + ([x] + behind), dead) == Running(front, dead) + (Running([x], dead) + Running(behind, dead))
  {
    RunningConcat([x], behind, dead);
    RunningConcat(front, [x] + behind, dead);
  }

  lemma RunningRemove(s: seq<Lock>, i: nat, dead: Lock -> bool)
    requires i < |s|
    ensures Running(s[..i] + s[i + 1..], dead) == Running(s[..i], dead) + Running(s[i + 1..], dead)
    ensures Running(s, dead) == Running(s[..i], dead) + (Running([s[i]], dead) + Running(s[i + 1..], dead))
  {
    RunningConcat(s[..i], s[i + 1..], dead);
    RunningAround(s[..i], s[i], s[i + 1..], dead);
    AroundIndex(s, i);
  }

  lemma AroundIndex<T>(s: seq<T>, i: nat)
    requires i < |s|
    ensures s[..i] + ([s[i]] + s[i + 1..]) == s
  {
  }

  lemma {:induction false} RemovalsDropNoMore(locks: seq<Lock>, inds: seq<nat>, dead: Lock -> bool)
    requires RemoveEach(locks, inds).Kept?
    ensures Count(RemoveEach(locks, inds).locks, dead) <= Count(locks, dead)
  {
    if inds != [] {
      var k := |inds| - 1;
      RemovalsDropNoMore(locks, inds[..k], dead);
      RunningRemove(RemoveEach(locks, inds[..k]).locks, inds[k], dead);
    }
  }

  lemma LastStruck(locks: seq<Lock>, inds: seq<nat>, last: nat, s: seq<Lock>)
    requires Ascending(inds) && inds != [] && inds[|inds| - 1] < last
    requires RemoveEach(locks, inds) == Kept(s) && last < |s|
    ensures last + |inds| < |locks| && s[last] == locks[last + |inds|]
  {
    RemovalsShift(locks, inds);
    var p := inds[|inds| - 1];
    assert s[last] == s[p..][last - p];
  }

  lemma StrikeRunning(s: seq<Lock>, i: nat, dead: Lock -> bool)
    requires i < |s| && !dead(s[i])
    ensures Count(s[..i] + s[i + 1..], dead) < Count(s, dead)
  {
    RunningRemove(s, i, dead);
    NoneExpired([s[i]], dead);
  }

  lemma BehindLastRuns(locks: seq<Lock>, dead: Lock -> bool, i: nat)
    requires ExpiredIndices(locks, dead) != []
    requires ExpiredIndices(locks, dead)[|ExpiredIndices(locks, dead)| - 1] < i < |locks|
    ensures !dead(locks[i])
  {
    ExpiredIndicesAre(locks, dead);
    LastIsLargest(ExpiredIndices(locks, dead), i);
  }

  lemma LastIsLargest(inds: seq<nat>, i: nat)
    requires Ascending(inds) && inds != [] && inds[|inds| - 1] < i
    ensures i !in inds
  {
  }

  // With two or more expired entries the last removal strikes an entry behind the last expired
  // one, which is still running.
  lemma TwoExpiredDropARunningLock(locks: seq<Lock>, dead: Lock -> bool, inds: seq<nat>)
    requires inds == ExpiredIndices(locks, dead) && |inds| >= 2 && Ascending(inds)
    requires RemoveEach(locks, inds).Kept?
    ensures Count(RemoveEach(locks, inds).locks, dead) < Count(locks, dead)
  {
    var k := |inds| - 1;
    var front, last := inds[..k], inds[k];
    var s := RemoveLast(locks, inds);
    RemovalsDropNoMore(locks, front, dead);
    StruckRuns(locks, dead, inds, s);
    StrikeRunning(s, last, dead);
  }

  lemma StruckRuns(locks: seq<Lock>, dead: Lock -> bool, inds: seq<nat>, s: seq<Lock>)
    requires inds == ExpiredIndices(locks, dead) && |inds| >= 2 && Ascending(inds)
    requires RemoveEach(locks, inds[..|inds| - 1]) == Kept(s) && inds[|inds| - 1] < |s|
    ensures !dead(s[inds[|inds| - 1]])
  {
    var k := |inds| - 1;
    FrontAscends(inds);
    LastStruck(locks, inds[..k], inds[k], s);
    BehindLastRuns(locks, dead, inds[k] + k);
  }

  lemma FrontAscends(inds: seq<nat>)
    requires Ascending(inds) && |inds| >= 2
    ensures Ascending(inds[..|inds| - 1]) && inds[..|inds| - 1][|inds| - 2] < inds[|inds| - 1]
  {
  }

  lemma RemoveLast(locks: seq<Lock>, inds: seq<nat>) returns (s: seq<Lock>)
    requires inds != [] && RemoveEach(locks, inds).Kept?
    ensures RemoveEach(locks, inds[..|inds| - 1]) == Kept(s) && inds[|inds| - 1] < |s|
    ensures RemoveEach(locks, inds).locks == s[..inds[|inds| - 1]] + s[inds[|inds| - 1] + 1..]
  {
    s := RemoveEach(locks, inds[..|inds| - 1]).locks;
  }

  lemma {:induction false} NoneExpired(locks: seq<Lock>, dead: Lock -> bool)
    requires forall i :: 0 <= i < |locks| ==> !dead(locks[i])
    ensures Running(locks, dead) == locks
  {
    if locks != [] {
      NoneExpired(locks[..|locks| - 1], dead);
    }
  }

  lemma RemoveOne(locks: seq<Lock>, i: nat)
    requires i < |locks|
    ensures RemoveEach(locks, [i]) == Kept(locks[..i] + locks[i + 1..])
  {
    var inds := [i];
    assert inds[..|inds| - 1] == [];
    assert RemoveEach(locks, []) == Kept(locks);
  }

  lemma OneExpired(locks: seq<Lock>, dead: Lock -> bool, i: nat)
    requires i < |locks| && dead(locks[i])
    requires forall j :: 0 <= j < |locks| && j != i ==> !dead(locks[j])
    ensures Running(locks, dead) == locks[..i] + locks[i + 1..]
  {
    OneExpiredAround(locks[..i], locks[i], locks[i + 1..], dead);
    AroundIndex(locks, i);
  }

  lemma OneExpiredAround(front: seq<Lock>, x: Lock, behind: seq<Lock>, dead: Lock -> bool)
    requires dead(x)
    requires (forall i :: 0 <= i < |front| ==> !dead(front[i])) && (forall i :: 0 <= i < |behind| ==> !dead(behind[i]))
    ensures Running(front + ([x] + behind), dead) == front + behind
  {
    RunningAround(front, x, behind, dead);
    NoneExpired(front, dead);
    NoneExpired(behind, dead);
    RunningDead(x, dead);
    assert [] + behind == behind;
  }

  lemma RunningDead(l: Lock, dead: Lock -> bool)
    requires dead(l)
    ensures Running([l], dead) == []
  {
    var s := [l];
    assert s[..|s| - 1] == [];
    assert Running(s[..|s| - 1], dead) == [];
  }

  // The clean-up keeps exactly the running locks if and only if at most one entry has expired.
  lemma CleanUpExactIff(locks: seq<Lock>, dead: Lock -> bool)
    ensures RemoveEach(locks, ExpiredIndices(locks, dead)) == Kept(Running(locks, dead))
            <==> |ExpiredIndices(locks, dead)| <= 1
  {
    var inds := ExpiredIndices(locks, dead);
    ExpiredIndicesAre(locks, dead);
    if |inds| == 0 {
      NoneExpired(locks, dead);
    } else if |inds| == 1 {
      var i := inds[0];
      assert inds == [i] && i in inds;
      RemoveOne(locks, i);
      assert forall j :: 0 <= j < |locks| && j != i ==> j !in inds;
      OneExpired(locks, dead, i);
    } else if RemoveEach(locks, inds).Kept? {
      TwoExpiredDropARunningLock(locks, dead, inds);
      RunningAre(locks, dead);
      NoneExpired(Running(locks, dead), dead);
    }
  }

  // And it runs off the end of the list exactly when there are too few entries behind the last
  // expired one.
  lemma CleanUpPanicsIff(locks: seq<Lock>, dead: Lock -> bool)
    ensures RemoveEach(locks, ExpiredIndices(locks, dead)) == Panic <==>
            |ExpiredIndices(locks, dead)| >= 2 &&
            ExpiredIndices(locks, dead)[|ExpiredIndices(locks, dead)| - 1] + |ExpiredIndices(locks, dead)| > |locks|
  {
    var inds := ExpiredIndices(locks, dead);
    ExpiredIndicesAre(locks, dead);
    if inds != [] {
      assert inds[|inds| - 1] in inds;
      RemovalsShift(locks, inds);
    }
  }

  // Two expired locks before one still running: an unstake drops the running one, and nothing
  // holds the stake back.
  lemma EarlyRelease(a: Lock, b: Lock, c: Lock, h: int)
    requires Expired(a, h) && Expired(b, h) && !Expired(c, h)
    ensures LockedAt([a, b, c], h) == LockValue(c, h) > 0
    ensures RemoveEach([a, b, c], ExpiredIndices([a, b, c], DeadAt(h))) == Kept([b])
    ensures LockedAt([b], h) == 0
  {
    OneLock(a, h);
    OneLock(b, h);
    Snoc([a], b, h);
    Snoc([a, b], c, h);
    assert [a] + [b] == [a, b];
    assert [a, b] + [c] == [a, b, c];
    assert [0] + [1] == [0, 1];
    StrikeTwice(a, b, c);
  }

  lemma OneLock(l: Lock, h: int)
    requires Expired(l, h)
    ensures ExpiredIndices([l], DeadAt(h)) == [0] && LockedAt([l], h) == 0
  {
    Snoc([], l, h);
    assert [] + [l] == [l];
  }

  lemma Snoc(s: seq<Lock>, l: Lock, h: int)
    ensures ExpiredIndices(s + [l], DeadAt(h)) == if Expired(l, h) then ExpiredIndices(s, DeadAt(h)) + [|s|] else ExpiredIndices(s, DeadAt(h))
    ensures LockedAt(s + [l], h) == Wrap64(LockedAt(s, h) + Max0(LockValue(l, h)))
  {
    SnocExpired(s, l, h, s + [l]);
    SnocLocked(s, l, h, s + [l]);
  }

  lemma SnocExpired(s: seq<Lock>, l: Lock, h: int, t: seq<Lock>)
    requires t == s + [l]
    ensures ExpiredIndices(t, DeadAt(h)) == if Expired(l, h) then ExpiredIndices(s, DeadAt(h)) + [|s|] else ExpiredIndices(s, DeadAt(h))
  {
    assert t[..|s|] == s && t[|s|] == l;
  }

  lemma SnocLocked(s: seq<Lock>, l: Lock, h: int, t: seq<Lock>)
    requires t == s + [l]
    ensures LockedAt(t, h) == Wrap64(LockedAt(s, h) + Max0(LockValue(l, h)))
  {
    assert t[..|s|] == s && t[|s|] == l;
  }

  lemma StrikeTwice(a: Lock, b: Lock, c: Lock)
    ensures RemoveEach([a, b, c], [0, 1]) == Kept([b])
  {
    var locks := [a, b, c];
    RemoveOne(locks, 0);
    assert locks[..0] + locks[1..] == [b, c];
    var inds: seq<nat> := [0, 1];
    assert inds[..|inds| - 1] == [0];
    assert [b, c][..1] + [b, c][2..] == [b];
  }

  lemma EarlyReleaseHappens()
    ensures var locks := [Lock(5, 5, 0), Lock(7, 7, 0), Lock(90, 0, 0)];
            && LockedAt(locks, 3) == 90
            && RemoveEach(locks, ExpiredIndices(locks, DeadAt(3))) == Kept([Lock(7, 7, 0)])
            && LockedAt([Lock(7, 7, 0)], 3) == 0
  {
    EarlyRelease(Lock(5, 5, 0), Lock(7, 7, 0), Lock(90, 0, 0), 3);
  }

  // --- int64 arithmetic ---

  // For a lock of a positive amount, the int64 figure is the exact one if and only if the lock
  // still holds something or the overshoot of the release stays in the lower half of its window.
  lemma LockValueExactIff(l: Lock, h: int)
    requires 0 <= l.amount < TWO63 && 0 <= l.release && l.init <= h
    ensures Max0(LockValue(l, h)) == Outstanding(l, h) <==>
            (h - l.init) * l.release < l.amount || ((h - l.init) * l.release - l.amount) % TWO64 <= TWO63
  {
    ReleaseGrows(l, l.init, h);
    OvershootWindow((h - l.init) * l.release - l.amount);
  }

  lemma OvershootWindow(y: int)
    requires y >= -TWO63
    ensures y >= 0 ==> (Wrap64(-y) <= 0 <==> y % TWO64 <= TWO63)
    ensures y < 0 && y > -TWO63 ==> Wrap64(-y) == -y
  {
    var q, r := y / TWO64, y % TWO64;
    assert y == q * TWO64 + r;
    if r <= TWO63 {
      WindowUnique(-y + TWO63, -q, TWO63 - r);
    } else {
      WindowUnique(-y + TWO63, -q - 1, TWO63 - r + TWO64);
    }
  }

  lemma WindowUnique(x: int, q: int, r: int)
    requires x == q * TWO64 + r && 0 <= r < TWO64
    ensures x % TWO64 == r
  {
  }

  // A lock released in one block is locked again 94 blocks later, by int64 overflow.
  lemma OverflowLocksAgain()
    ensures var l := Lock(100_000_000_000_000_000, 100_000_000_000_000_000, 0);
            && LockValue(l, 1) == 0 && Outstanding(l, 94) == 0
            && LockValue(l, 94) > l.amount
  {
    WindowUnique(-9_300_000_000_000_000_000 + TWO63, -1, -9_300_000_000_000_000_000 + TWO63 + TWO64);
  }

  // The heights at which the release of a lock does not overflow.
  predicate InHorizon(l: Lock, h: int) { (h - l.init) * l.release - l.amount <= TWO63 }

  lemma ReleaseGrows(l: Lock, h: int, k: int)
    requires 0 <= l.release && h <= k
    ensures (h - l.init) * l.release <= (k - l.init) * l.release
    ensures Outstanding(l, k) <= Outstanding(l, h)
    ensures InHorizon(l, k) ==> InHorizon(l, h)
  {
    assert (k - l.init) * l.release == (h - l.init) * l.release + (k - h) * l.release;
  }

  lemma InHorizonExact(l: Lock, h: int)
    requires GoodLock(l, h) && InHorizon(l, h)
    ensures Max0(LockValue(l, h)) == Outstanding(l, h)
  {
    ReleaseGrows(l, l.init, h);
  }

  // --- What every run keeps ---

  predicate GoodLock(l: Lock, h: int) {
    0 < l.amount < TWO63 && 0 <= l.release <= l.amount && l.init <= h
  }

  // The account is sound at height h, and its locks are released without overflow up to top.
  ghost predicate Sound(a: Account, h: int, top: int) {
    && h <= top
    && 0 <= a.staked < TWO63
    && (forall l :: l in a.locks ==> GoodLock(l, h) && InHorizon(l, top))
    && OutstandingAll(a.locks, h) <= a.staked
  }

  lemma {:induction false} OutstandingFalls(locks: seq<Lock>, h: int, k: int)
    requires forall l :: l in locks ==> GoodLock(l, h)
    requires h <= k
    ensures OutstandingAll(locks, k) <= OutstandingAll(locks, h)
  {
    if locks != [] {
      var n := |locks| - 1;
      OutstandingFalls(locks[..n], h, k);
      assert locks[n] in locks;
      ReleaseGrows(locks[n], h, k);
    }
  }

  lemma {:induction false} LockedIsOutstanding(locks: seq<Lock>, h: int)
    requires forall l :: l in locks ==> GoodLock(l, h) && InHorizon(l, h)
    requires OutstandingAll(locks, h) < TWO63
    ensures LockedAt(locks, h) == OutstandingAll(locks, h)
  {
    if locks != [] {
      var n := |locks| - 1;
      LockedIsOutstanding(locks[..n], h);
      InHorizonExact(locks[n], h);
    }
  }

  // A sound account covers its locks now and at every later height, and the figure the code
  // computes there is the exact one.
  lemma SoundCovers(a: Account, h: int, top: int, k: int)
    requires Sound(a, h, top) && h <= k <= top
    ensures LockedAt(a.locks, k) == OutstandingAll(a.locks, k) <= a.staked
    ensures Sound(a, k, top)
  {
    OutstandingFalls(a.locks, h, k);
    forall l | l in a.locks
      ensures GoodLock(l, k) && InHorizon(l, k)
    {
      ReleaseGrows(l, k, top);
    }
    LockedIsOutstanding(a.locks, k);
  }

  lemma {:induction false} OutstandingConcat(s: seq<Lock>, t: seq<Lock>, h: int)
    ensures OutstandingAll(s + t, h) == OutstandingAll(s, h) + OutstandingAll(t, h)
  {
    if t == [] {
      assert s + t == s;
    } else {
      var n := |t| - 1;
      assert (s + t)[..|s| + n] == s + t[..n];
      OutstandingConcat(s, t[..n], h);
    }
  }

  lemma OutstandingRemove(s: seq<Lock>, i: nat, h: int)
    requires i < |s|
    ensures OutstandingAll(s[..i] + s[i + 1..], h) <= OutstandingAll(s, h)
  {
    OutstandingAround(s[..i], s[i], s[i + 1..], h);
    AroundIndex(s, i);
  }

  lemma OutstandingAround(front: seq<Lock>, x: Lock, behind: seq<Lock>, h: int)
    ensures OutstandingAll(front + behind, h) <= OutstandingAll(front + ([x] + behind), h)
  {
    OutstandingConcat(front, behind, h);
    OutstandingConcat([x], behind, h);
    OutstandingConcat(front, [x] + behind, h);
  }

  // Whatever the clean-up removes, it never adds to what is locked.
  lemma {:induction false} RemovalsOnlyRelease(locks: seq<Lock>, inds: seq<nat>, h: int)
    requires RemoveEach(locks, inds).Kept?
    ensures OutstandingAll(RemoveEach(locks, inds).locks, h) <= OutstandingAll(locks, h)
    ensures forall l :: l in RemoveEach(locks, inds).locks ==> l in locks
  {
    if inds != [] {
      var k := |inds| - 1;
      RemovalsOnlyRelease(locks, inds[..k], h);
      OutstandingRemove(RemoveEach(locks, inds[..k]).locks, inds[k], h);
    }
  }

  // --- The global staking accounts ---

  lemma TallyStep(locks: seq<Lock>, i: nat, h: int)
    requires i < |locks|
    ensures LockedAt(locks[..i + 1], h) == Wrap64(LockedAt(locks[..i], h) + Max0(LockValue(locks[i], h)))
    ensures var was := ExpiredIndices(locks[..i], DeadAt(h));
            ExpiredIndices(locks[..i + 1], DeadAt(h)) == if LockValue(locks[i], h) <= 0 then was + [i] else was
  {
    Snoc(locks[..i], locks[i], h);
    assert locks[..i + 1] == locks[..i] + [locks[i]];
  }

  datatype Outcome = Done | Refused | Crashed

  datatype Op =
    | StakeOp(height: int, amount: int, operational: bool, locked: int, release: int)
    | UnstakeOp(height: int, amount: int)

  // An account as a run finds it: whether it is there, and what it holds.
  datatype Standing = Standing(present: bool, account: Account)

  // How an operation ends, and what it makes of the account with delegated account n.
  function Verdict(at: Standing, op: Op): Outcome {
    var a := at.account;
    match op
    case StakeOp(_, amount, _, locked, release) => if 0 <= release <= locked <= amount then Done else Refused
    case UnstakeOp(height, amount) =>
      if !at.present || amount >= 0 || a.staked + amount < 0 || a.staked - LockedAt(a.locks, height) + amount < 0 then Refused
      else if RemoveEach(a.locks, ExpiredIndices(a.locks, DeadAt(height))) == Panic then Crashed
      else Done
  }

  function Result(at: Standing, n: nat, op: Op): Standing {
    var a := at.account;
    if Verdict(at, op) != Done then at
    else
      match op
      case StakeOp(height, amount, operational, locked, release) =>
        Standing(true, Account(a.staked + amount, a.rewards, a.locks + (if locked > 0 then [Lock(locked, release, height)] else []),
                               a.operational || (locked == 0 && operational), n))
      case UnstakeOp(height, amount) =>
        var locks := RemoveEach(a.locks, ExpiredIndices(a.locks, DeadAt(height))).locks;
        Standing(at.present, Account(a.staked + amount, a.rewards, locks, a.operational && a.staked + amount != 0, a.delegated))
  }

  function ResultAll(at: Standing, n: nat, ops: seq<Op>): Standing {
    if ops == [] then at else Result(ResultAll(at, n, ops[..|ops| - 1]), n, ops[|ops| - 1])
  }

  // How the k-th operation of a run ends.
  function VerdictAt(at: Standing, n: nat, ops: seq<Op>, k: nat): Outcome
    requires k < |ops|
  {
    Verdict(ResultAll(at, n, ops[..k]), ops[k])
  }

  // None of the first k operations panics.
  ghost predicate NoCrash(at: Standing, n: nat, ops: seq<Op>, k: nat)
    requires k <= |ops|
  {
    forall j :: 0 <= j < k ==> VerdictAt(at, n, ops, j) != Crashed
  }

  lemma RunStep(at: Standing, n: nat, ops: seq<Op>, k: nat)
    requires k < |ops|
    ensures ResultAll(at, n, ops[..k + 1]) == Result(ResultAll(at, n, ops[..k]), n, ops[k])
    ensures NoCrash(at, n, ops, k) && VerdictAt(at, n, ops, k) != Crashed ==> NoCrash(at, n, ops, k + 1)
  {
    assert ops[..k + 1][..k] == ops[..k];
  }

  function Added(op: Op): nat { if op.StakeOp? then Max0(op.amount) else 0 }

  // What the stakes of a run add up to.
  function Inflow(ops: seq<Op>): nat {
    if ops == [] then 0 else Inflow(ops[..|ops| - 1]) + Added(ops[|ops| - 1])
  }

  // What the first k stakes add up to.
  lemma {:induction false} InflowStep(ops: seq<Op>, k: nat)
    requires k < |ops|
    ensures Inflow(ops[..k + 1]) == Inflow(ops[..k]) + Added(ops[k])
    ensures Inflow(ops[..k + 1]) <= Inflow(ops)
    decreases |ops|
  {
    assert ops[..k + 1][..k] == ops[..k];
    if k + 1 < |ops| {
      var n := |ops| - 1;
      InflowStep(ops[..n], k);
      assert ops[..n][..k + 1] == ops[..k + 1];
    } else {
      assert ops[..k + 1] == ops;
    }
  }

  function HeightBefore(ops: seq<Op>, k: nat, start: int): int
    requires k <= |ops|
  {
    if k == 0 then start else ops[k - 1].height
  }

  // Heights do not decrease from start to top, and no lock taken overflows before top.
  predicate Timely(ops: seq<Op>, start: int, top: int) {
    && start <= top
    && forall k :: 0 <= k < |ops| ==> TimelyAt(ops, k, start, top)
  }

  predicate TimelyAt(ops: seq<Op>, k: nat, start: int, top: int)
    requires k < |ops|
  {
    && HeightBefore(ops, k, start) <= ops[k].height <= top
    && (ops[k].StakeOp? ==> InHorizon(Lock(ops[k].locked, ops[k].release, ops[k].height), top))
  }

  // A stake that is accepted keeps the account sound: its lock is covered by its own amount.
  lemma StakeKeepsSound(a: Account, h: int, top: int, amount: int, l: Lock)
    requires Sound(a, h, top) && l.init == h
    requires 0 <= l.release <= l.amount <= amount && a.staked + amount < TWO63
    requires InHorizon(l, top)
    ensures Sound(a.(staked := a.staked + amount, locks := a.locks + if l.amount > 0 then [l] else []), h, top)
  {
    if l.amount > 0 {
      OutstandingConcat(a.locks, [l], h);
      OutstandingNew(l, h);
    } else {
      assert a.locks + [] == a.locks;
    }
  }

  lemma OutstandingNew(l: Lock, h: int)
    requires l.init == h && l.amount >= 0
    ensures OutstandingAll([l], h) == l.amount
  {
    assert [l][..0] == [];
    assert (h - l.init) * l.release == 0;
  }

  lemma UnstakeKeepsSound(a: Account, h: int, top: int, amount: int, locks: seq<Lock>, operational: bool)
    requires Sound(a, h, top) && amount < 0
    requires a.staked + amount >= 0 && a.staked - LockedAt(a.locks, h) + amount >= 0
    requires RemoveEach(a.locks, ExpiredIndices(a.locks, DeadAt(h))) == Kept(locks)
    ensures Sound(a.(staked := a.staked + amount, locks := locks, operational := operational), h, top)
  {
    SoundCovers(a, h, top, h);
    RemovalsOnlyRelease(a.locks, ExpiredIndices(a.locks, DeadAt(h)), h);
  }

  lemma StakeResultSound(at: Standing, n: nat, op: Op, top: int)
    requires op.StakeOp? && Sound(at.account, op.height, top)
    requires InHorizon(Lock(op.locked, op.release, op.height), top) && at.account.staked + Added(op) < TWO63
    ensures var now := Result(at, n, op).account;
            Sound(now, op.height, top) && now.staked <= at.account.staked + Added(op)
  {
    if Verdict(at, op) == Done {
      StakeKeepsSound(at.account, op.height, top, op.amount, Lock(op.locked, op.release, op.height));
    }
  }

  class StakingAccounts {
    var all: map<Slot, Account>

    constructor ()
      ensures all == map[]
    {
      all := map[];
    }

    function Get(s: Slot): Account
      reads this
    {
      At(all, s, NOBODY)
    }

    // A missing account reads as one with the zero address, so the zero address is always found.
    predicate Present(s: Slot)
      reads this
    {
      s in all || s.owner == ZERO_ADDRESS
    }

    function StandingOf(s: Slot): Standing
      reads this
    {
      Standing(Present(s), Get(s))
    }

    method GetLockedAmount(s: Slot, height: int) returns (locked: int)
      ensures locked == LockedAt(Get(s).locks, height)
    {
      var locks := Get(s).locks;
      locked := 0;
      for i := 0 to |locks|
        invariant locked == LockedAt(locks[..i], height)
      {
        var lock := LockValue(locks[i], height);
        if lock <= 0 {
          lock := 0;
        }
        assert locks[..i + 1][..i] == locks[..i];
        locked := Wrap64(locked + lock);
      }
      assert locks[..|locks|] == locks;
    }

    method Stake(s: Slot, amount: int, height: int, operational: bool, lockedAmount: int, release: int)
      returns (ok: bool)
      requires s.table < 256
      modifies this
      ensures ok == (0 <= release <= lockedAmount <= amount)
      ensures !ok ==> all == old(all)
      ensures ok ==> all == old(all)[s := Account(
          old(Get(s)).staked + amount, old(Get(s)).rewards,
          old(Get(s)).locks + (if lockedAmount > 0 then [Lock(lockedAmount, release, height)] else []),
          old(Get(s)).operational || (lockedAmount == 0 && operational), s.table)]
    {
      var acc := Get(s);
      if amount < 0 || release < 0 || release > lockedAmount || lockedAmount < 0 || lockedAmount > amount {
        return false;
      }
      if lockedAmount == 0 && !acc.operational {
        acc := acc.(operational := operational);
      }
      acc := acc.(staked := acc.staked + amount, delegated := s.table);
      assert acc.locks + [] == acc.locks;
      if lockedAmount > 0 {
        acc := acc.(locks := acc.locks + [Lock(lockedAmount, release, height)]);
      }
      all := all[s := acc];
      return true;
    }

    // The two loops of an unstake: sum and collect, then remove.
    method Tally(locks: seq<Lock>, height: int) returns (locked: int, expired: seq<nat>)
      ensures locked == LockedAt(locks, height) && expired == ExpiredIndices(locks, DeadAt(height))
    {
      locked, expired := 0, [];
      for i := 0 to |locks|
        invariant locked == LockedAt(locks[..i], height) && expired == ExpiredIndices(locks[..i], DeadAt(height))
      {
        var lock := LockValue(locks[i], height);
        TallyStep(locks, i, height);
        if lock <= 0 {
          lock := 0;
          expired := expired + [i];
        }
        locked := Wrap64(locked + lock);
      }
      assert locks[..|locks|] == locks;
    }

    method CleanUp(locks: seq<Lock>, expired: seq<nat>) returns (r: Cleaned)
      ensures r == RemoveEach(locks, expired)
    {
      var left := locks;
      for k := 0 to |expired|
        invariant RemoveEach(locks, expired[..k]) == Kept(left)
      {
        var i := expired[k];
        assert expired[..k + 1][..k] == expired[..k];
        if i >= |left| {
          PanicStays(locks, expired, k + 1);
          return Panic;
        }
        left := left[..i] + left[i + 1..];
      }
      assert expired[..|expired|] == expired;
      return Kept(left);
    }

    // A negative amount leaves the stake, never below what is locked at this height.
    method Unstake(s: Slot, amount: int, height: int) returns (r: Outcome)
      requires s.table < 256
      modifies this
      ensures var a := old(Get(s));
              var cleaned := RemoveEach(a.locks, ExpiredIndices(a.locks, DeadAt(height)));
              && (r == Refused <==> !old(Present(s)) || amount >= 0 || a.staked + amount < 0
                                    || a.staked - LockedAt(a.locks, height) + amount < 0)
              && (r == Crashed ==> cleaned == Panic)
              && (r == Done ==> && cleaned.Kept?
                                && all == old(all)[s := Account(a.staked + amount, a.rewards, cleaned.locks,
                                                                a.operational && a.staked + amount != 0, a.delegated)])
      ensures r != Done ==> all == old(all)
    {
      var acc := Get(s);
      if !Present(s) || amount >= 0 || acc.staked + amount < 0 {
        return Refused;
      }
      var locked, expired := Tally(acc.locks, height);
      if acc.staked - locked + amount < 0 {
        return Refused;
      }
      var cleaned := CleanUp(acc.locks, expired);
      if cleaned == Panic {
        return Crashed;
      }
      acc := acc.(locks := cleaned.locks, staked := acc.staked + amount);
      if acc.staked == 0 {
        acc := acc.(operational := false);
      }
      all := all[s := acc];
      return Done;
    }

    method Reward(s: Slot, reward: int) returns (ok: bool)
      requires s.table < 256
      modifies this
      ensures ok == (old(Present(s)) && reward >= 0)
      ensures all == if ok then old(all)[s := old(Get(s)).(rewards := old(Get(s)).rewards + reward)] else old(all)
    {
      var acc := Get(s);
      if !Present(s) || reward < 0 {
        return false;
      }
      all := all[s := acc.(rewards := acc.rewards + reward)];
      return true;
    }

    method WithdrawReward(s: Slot, amount: int) returns (ok: bool)
      requires s.table < 256
      modifies this
      ensures ok == (old(Present(s)) && amount < 0 && old(Get(s)).rewards + amount >= 0)
      ensures all == if ok then old(all)[s := old(Get(s)).(rewards := old(Get(s)).rewards + amount)] else old(all)
    {
      var acc := Get(s);
      if !Present(s) || amount >= 0 || acc.rewards + amount < 0 {
        return false;
      }
      all := all[s := acc.(rewards := acc.rewards + amount)];
      return true;
    }

    // One operation of a run; refused ones change nothing.
    method Apply(s: Slot, op: Op, ghost start: int, ghost top: int) returns (r: Outcome)
      requires s.table < 256 && Sound(Get(s), start, top) && start <= op.height <= top
      requires op.StakeOp? ==> InHorizon(Lock(op.locked, op.release, op.height), top)
      requires Get(s).staked + Added(op) < TWO63
      modifies this
      ensures Sound(Get(s), op.height, top)
      ensures Get(s).staked <= old(Get(s).staked) + Added(op)
      ensures all == old(all) || (s in all && all == old(all)[s := all[s]])
      ensures r == Verdict(old(StandingOf(s)), op) && StandingOf(s) == Result(old(StandingOf(s)), s.table, op)
    {
      SoundCovers(Get(s), start, top, op.height);
      match op {
        case StakeOp(_, _, _, _, _) => r := ApplyStake(s, op, top);
        case UnstakeOp(_, _) => r := ApplyUnstake(s, op, top);
      }
    }

    method ApplyStake(s: Slot, op: Op, ghost top: int) returns (r: Outcome)
      requires s.table < 256 && op.StakeOp? && Sound(Get(s), op.height, top)
      requires InHorizon(Lock(op.locked, op.release, op.height), top) && Get(s).staked + Added(op) < TWO63
      modifies this
      ensures Sound(Get(s), op.height, top) && Get(s).staked <= old(Get(s).staked) + Added(op)
      ensures all == old(all) || (s in all && all == old(all)[s := all[s]])
      ensures r == Verdict(old(StandingOf(s)), op) && StandingOf(s) == Result(old(StandingOf(s)), s.table, op)
    {
      ghost var at := StandingOf(s);
      StakeResultSound(at, s.table, op, top);
      var ok := Stake(s, op.amount, op.height, op.operational, op.locked, op.release);
      r := if ok then Done else Refused;
      assert StandingOf(s) == Result(at, s.table, op);
    }

    method ApplyUnstake(s: Slot, op: Op, ghost top: int) returns (r: Outcome)
      requires s.table < 256 && op.UnstakeOp? && Sound(Get(s), op.height, top)
      modifies this
      ensures Sound(Get(s), op.height, top) && Get(s).staked <= old(Get(s).staked)
      ensures all == old(all) || (s in all && all == old(all)[s := all[s]])
      ensures r == Verdict(old(StandingOf(s)), op) && StandingOf(s) == Result(old(StandingOf(s)), s.table, op)
    {
      ghost var a := Get(s);
      r := Unstake(s, op.amount, op.height);
      if r == Done {
        UnstakeKeepsSound(a, op.height, top, op.amount, Get(s).locks, Get(s).operational);
      }
    }

    // Over every run of stakes and unstakes at non-decreasing heights the stake covers what is
    // locked, at the height reached and at every later one; the figure read there is exact as long
    // as no release overflows. The operations are carried out one by one, until one panics.
    method Run(s: Slot, ops: seq<Op>, start: int, top: int) returns (done: nat)
      requires s.table < 256 && Sound(Get(s), start, top) && Timely(ops, start, top)
      requires Get(s).staked + Inflow(ops) < TWO63
      modifies this
      ensures done <= |ops| && StandingOf(s) == ResultAll(old(StandingOf(s)), s.table, ops[..done])
      ensures done < |ops| ==> done > 0 && VerdictAt(old(StandingOf(s)), s.table, ops, done - 1) == Crashed
      ensures done > 0 ==> NoCrash(old(StandingOf(s)), s.table, ops, done - 1)
      ensures CoveredFrom(Get(s), HeightBefore(ops, done, start), top)
      ensures SameElsewhere(old(all), all, s)
    {
      ghost var at, was := StandingOf(s), all;
      OnRunStart(at, s.table, ops, start, top);
      done := 0;
      while done < |ops|
        invariant done <= |ops| && OnRun(at, StandingOf(s), s.table, ops, done, start, top) && SameElsewhere(was, all, s)
      {
        var r := RunTurn(s, ops, done, start, top, at, was);
        done := done + 1;
        if r == Crashed {
          break;
        }
      }
      assert RanTo(at, StandingOf(s), s.table, ops, done, start, top);
      SoundCoversLater(Get(s), HeightBefore(ops, done, start), top);
    }

    method RunTurn(s: Slot, ops: seq<Op>, k: nat, start: int, top: int, ghost at: Standing, ghost was: map<Slot, Account>)
      returns (r: Outcome)
      requires s.table < 256 && k < |ops| && Timely(ops, start, top) && at.account.staked + Inflow(ops) < TWO63
      requires OnRun(at, StandingOf(s), s.table, ops, k, start, top) && SameElsewhere(was, all, s)
      modifies this
      ensures r == VerdictAt(at, s.table, ops, k) && StandingOf(s) == ResultAll(at, s.table, ops[..k + 1])
      ensures NoCrash(at, s.table, ops, k) && Sound(Get(s), ops[k].height, top) && SameElsewhere(was, all, s)
      ensures r != Crashed ==> OnRun(at, StandingOf(s), s.table, ops, k + 1, start, top)
    {
      ghost var before, now := all, StandingOf(s);
      assert TimelyAt(ops, k, start, top);
      OnRunEnables(at, now, s.table, ops, k, start, top);
      r := Apply(s, ops[k], HeightBefore(ops, k, start), top);
      SameElsewhereStep(was, before, all, s);
      RunStep(at, s.table, ops, k);
      if r != Crashed {
        OnRunStep(at, now, StandingOf(s), s.table, ops, k + 1, start, top);
      }
    }
  }

  // The account after the first k operations of a run, none of which panicked.
  ghost predicate OnRun(at: Standing, now: Standing, n: nat, ops: seq<Op>, k: nat, start: int, top: int)
    requires k <= |ops|
  {
    && now == ResultAll(at, n, ops[..k]) && NoCrash(at, n, ops, k)
    && Sound(now.account, HeightBefore(ops, k, start), top) && now.account.staked <= at.account.staked + Inflow(ops[..k])
  }

  lemma OnRunStart(at: Standing, n: nat, ops: seq<Op>, start: int, top: int)
    requires Sound(at.account, start, top)
    ensures OnRun(at, at, n, ops, 0, start, top)
  {
    assert ops[..0] == [];
  }

  // What a run that stopped before operation k left.
  ghost predicate RanTo(at: Standing, now: Standing, n: nat, ops: seq<Op>, k: nat, start: int, top: int)
    requires k <= |ops|
  {
    && now == ResultAll(at, n, ops[..k]) && Sound(now.account, HeightBefore(ops, k, start), top)
    && (k > 0 ==> NoCrash(at, n, ops, k - 1)) && (k < |ops| ==> k > 0 && VerdictAt(at, n, ops, k - 1) == Crashed)
  }

  lemma OnRunEnables(at: Standing, now: Standing, n: nat, ops: seq<Op>, k: nat, start: int, top: int)
    requires k < |ops| && OnRun(at, now, n, ops, k, start, top) && at.account.staked + Inflow(ops) < TWO63
    ensures now.account.staked + Added(ops[k]) < TWO63
  {
    InflowStep(ops, k);
  }

  lemma OnRunStep(at: Standing, now: Standing, next: Standing, n: nat, ops: seq<Op>, k: nat, start: int, top: int)
    requires 0 < k <= |ops| && OnRun(at, now, n, ops, k - 1, start, top)
    requires next == Result(now, n, ops[k - 1]) && Verdict(now, ops[k - 1]) != Crashed
    requires Sound(next.account, ops[k - 1].height, top) && next.account.staked <= now.account.staked + Added(ops[k - 1])
    ensures OnRun(at, next, n, ops, k, start, top)
  {
    InflowStep(ops, k - 1);
    RunStep(at, n, ops, k - 1);
  }

  // Nothing but the account in slot s differs.
  ghost predicate SameElsewhere(x: map<Slot, Account>, y: map<Slot, Account>, s: Slot) { x - {s} == y - {s} }

  lemma SameElsewhereStep(x: map<Slot, Account>, y: map<Slot, Account>, z: map<Slot, Account>, s: Slot)
    requires SameElsewhere(x, y, s)
    requires z == y || (s in z && z == y[s := z[s]])
    ensures SameElsewhere(x, z, s)
  {
  }

  // From height h on the stake covers what is locked; up to top the figure read is exact.
  ghost predicate CoveredFrom(a: Account, h: int, top: int) {
    && (forall k :: h <= k ==> OutstandingAll(a.locks, k) <= a.staked)
    && (forall k :: h <= k <= top ==> LockedAt(a.locks, k) == OutstandingAll(a.locks, k))
  }

  lemma SoundCoversLater(a: Account, h: int, top: int)
    requires Sound(a, h, top)
    ensures CoveredFrom(a, h, top)
  {
    forall k | h <= k
      ensures OutstandingAll(a.locks, k) <= a.staked
    {
      OutstandingFalls(a.locks, h, k);
    }
    forall k | h <= k <= top
      ensures LockedAt(a.locks, k) == OutstandingAll(a.locks, k)
    {
      SoundCovers(a, h, top, k);
    }
  }

  lemma {:induction false} PanicStays(locks: seq<Lock>, inds: seq<nat>, k: nat)
    requires k <= |inds| && RemoveEach(locks, inds[..k]) == Panic
    ensures RemoveEach(locks, inds) == Panic
    decreases |inds| - k
  {
    if k == |inds| {
      assert inds[..k] == inds;
    } else {
      assert inds[..k + 1][..k] == inds[..k];
      PanicStays(locks, inds, k + 1);
    }
  }
}
