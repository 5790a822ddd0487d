// Halving of block rewards (Savitri-contracts/src/fee.rs): the reward of a period is the initial reward
// shifted right once per completed period, by at most 63 places.
module Fees {
  import opened Arithmetic

  // ---------- Halving ----------

  /** n >> k */
  function ShiftRight(n: nat, k: nat): nat {
    if k == 0 then n else ShiftRight(n / 2, k - 1)
  }

  predicate HalvingAt(epoch: nat, interval: nat)
    requires interval > 0
  {
    epoch % interval == 0
  }

  /** Reward in halving period k; the shift is limited to 63 places. */
  function PeriodReward(k: nat, initial: nat): nat {
    ShiftRight(initial, if k < 63 then k else 63)
  }

  function Reward(epoch: nat, interval: nat, initial: nat): nat
    requires interval > 0
  {
    PeriodReward(epoch / interval, initial)
  }

  class HalvingEngine {
    var currentEpoch: nat
    const interval: nat
    const initialReward: nat

    constructor (interval: nat, initialReward: nat)
      ensures currentEpoch == 0 && this.interval == interval && this.initialReward == initialReward
    {
      currentEpoch := 0;
      this.interval, this.initialReward := interval, initialReward;
    }

    /** The reward never rises from one epoch to the next. */
    method AdvanceEpoch()
      requires interval > 0
      modifies this
      ensures currentEpoch == old(currentEpoch) + 1
      ensures Reward(currentEpoch, interval, initialReward) <= old(Reward(currentEpoch, interval, initialReward))
    {
      RewardsFall(currentEpoch, currentEpoch + 1, interval, initialReward);
      currentEpoch := currentEpoch + 1;
    }

    /** Advancing by this many epochs, and by no fewer, reaches the next halving. */
    method BlocksUntilHalving() returns (n: nat)
      requires interval > 0
      ensures 1 <= n <= interval && HalvingAt(currentEpoch + n, interval)
      ensures forall e :: currentEpoch < e < currentEpoch + n ==> !HalvingAt(e, interval)
      ensures (currentEpoch + n) / interval == currentEpoch / interval + 1
    {
      var next := (currentEpoch / interval + 1) * interval;
      NextMultiple(currentEpoch, interval);
      n := next - currentEpoch;
      forall e | currentEpoch < e < currentEpoch + n ensures !HalvingAt(e, interval) {
        Between(e, interval, currentEpoch / interval);
      }
    }
  }

  lemma Between(n: nat, d: nat, q: nat)
    requires d > 0 && d * q < n < d * q + d
    ensures n % d != 0
  {
    Quotient(n, d, q);
  }

  lemma NextMultiple(n: nat, d: nat)
    requires d > 0
    ensures n < (n / d + 1) * d <= n + d
    ensures (n / d + 1) * d % d == 0 && (n / d + 1) * d / d == n / d + 1
    ensures d * (n / d) <= n && (n / d + 1) * d == d * (n / d) + d
  {
    var q := n / d + 1;
    assert q * d == d * q;
    Quotient(q * d, d, q);
  }

  // ---------- Total issuance ----------

  /** Rewards of epochs 0 up to but not including n. */
  function Issued(n: nat, interval: nat, initial: nat): nat
    requires interval > 0
  {
    if n == 0 then 0 else Issued(n - 1, interval, initial) + Reward(n - 1, interval, initial)
  }

  function Pow2(k: nat): nat {
    if k == 0 then 1 else 2 * Pow2(k - 1)
  }

  lemma {:induction false} ShiftNext(n: nat, k: nat)
    ensures ShiftRight(n, k + 1) == ShiftRight(n, k) / 2
  {
    if k > 0 {
      ShiftNext(n / 2, k - 1);
    }
  }

  lemma {:induction false} ShiftIs(n: nat, k: nat)
    ensures Pow2(k) > 0 && Pow2(k) * ShiftRight(n, k) <= n < Pow2(k) * ShiftRight(n, k) + Pow2(k)
  {
    if k > 0 {
      ShiftIs(n / 2, k - 1);
      ShiftOnce(n, Pow2(k - 1), ShiftRight(n / 2, k - 1));
    }
  }

  lemma ShiftOnce(n: nat, p: nat, r: nat)
    requires p * r <= n / 2 < p * r + p
    ensures (2 * p) * r <= n < (2 * p) * r + 2 * p
  {
    assert (2 * p) * r == 2 * (p * r);
  }

  /** The reward of an epoch is the initial one divided by 2 for each completed interval, at most 63 times, and rounded
      down. */
  lemma RewardIs(epoch: nat, interval: nat, initial: nat, k: nat)
    requires interval > 0 && interval * k <= epoch < interval * k + interval
    ensures
      var p, r := Pow2(if k < 63 then k else 63), Reward(epoch, interval, initial);
      p * r <= initial < p * r + p
  {
    Quotient(epoch, interval, k);
    ShiftIs(initial, if k < 63 then k else 63);
  }

  lemma {:induction false} ShiftVanishes(n: nat, k: nat)
    ensures ShiftRight(n, k) == 0 <==> n < Pow2(k)
  {
    if k > 0 {
      ShiftVanishes(n / 2, k - 1);
    }
  }

  lemma PeriodRewardFalls(k: nat, initial: nat)
    ensures PeriodReward(k + 1, initial) <= PeriodReward(k, initial)
    ensures k < 63 ==> 2 * PeriodReward(k + 1, initial) <= PeriodReward(k, initial)
  {
    ShiftNext(initial, k);
  }

  lemma {:induction false} PeriodsFall(j: nat, k: nat, initial: nat)
    requires j <= k
    ensures PeriodReward(k, initial) <= PeriodReward(j, initial)
  {
    if j < k {
      PeriodsFall(j, k - 1, initial);
      PeriodRewardFalls(k - 1, initial);
    }
  }

  /** Rewards never increase. */
  lemma RewardsFall(m: nat, n: nat, interval: nat, initial: nat)
    requires interval > 0 && m <= n
    ensures Reward(n, interval, initial) <= Reward(m, interval, initial)
  {
    DivMonotone(m, n, interval);
    PeriodsFall(m / interval, n / interval, initial);
  }

  lemma RewardIn(e: nat, k: nat, interval: nat, initial: nat)
    requires interval > 0 && interval * k <= e < interval * k + interval
    ensures Reward(e, interval, initial) == PeriodReward(k, initial)
  {
    Quotient(e, interval, k);
  }

  lemma MulNext(r: nat, p: nat)
    ensures (r + 1) * p == r * p + p
  {
  }

  lemma {:induction false} WithinPeriod(start: nat, k: nat, r: nat, interval: nat, initial: nat)
    requires interval > 0 && r <= interval && start == interval * k
    ensures Issued(start + r, interval, initial) == Issued(start, interval, initial) + r * PeriodReward(k, initial)
  {
    if r > 0 {
      WithinPeriod(start, k, r - 1, interval, initial);
      RewardIn(start + r - 1, k, interval, initial);
      MulNext(r - 1, PeriodReward(k, initial));
    }
  }

  lemma PeriodHalves(k: nat, initial: nat)
    requires initial < Pow2(63)
    ensures 2 * PeriodReward(k + 1, initial) <= PeriodReward(k, initial)
  {
    PeriodRewardFalls(k, initial);
    ShiftVanishes(initial, 63);
  }

  lemma PeriodStep(k: nat, interval: nat, initial: nat)
    requires interval > 0
    ensures Issued(interval * (k + 1), interval, initial) ==
            Issued(interval * k, interval, initial) + interval * PeriodReward(k, initial)
  {
    WithinPeriod(interval * k, k, interval, interval, initial);
    Distribute(interval, k + 1, 1);
  }

  /** After k periods at most twice the first period's rewards, less twice what the next period pays per epoch. */
  lemma {:induction false} PeriodsBounded(k: nat, interval: nat, initial: nat)
    requires interval > 0 && initial < Pow2(63)
    ensures Issued(interval * k, interval, initial) <= interval * (2 * initial - 2 * PeriodReward(k, initial))
    ensures PeriodReward(k, initial) <= initial
  {
    if k > 0 {
      PeriodsBounded(k - 1, interval, initial);
      PeriodStep(k - 1, interval, initial);
      PeriodHalves(k - 1, initial);
      Scale(interval, initial, PeriodReward(k - 1, initial), PeriodReward(k, initial));
    }
  }

  lemma Scale(d: nat, i: nat, p: nat, q: nat)
    requires 2 * q <= p <= i
    ensures d * (2 * i - 2 * p) + d * p <= d * (2 * i - 2 * q)
  {
    assert d * (2 * i - 2 * p) + d * p == d * (2 * i - p);
    MulMonotone(d, 2 * i - p, 2 * i - 2 * q);
  }

  lemma {:induction false} IssuedGrows(m: nat, n: nat, interval: nat, initial: nat)
    requires interval > 0 && m <= n
    ensures Issued(m, interval, initial) <= Issued(n, interval, initial)
  {
    if m < n {
      IssuedGrows(m, n - 1, interval, initial);
    }
  }

  lemma MulGrows(d: nat, a: int, b: int)
    requires a <= b
    ensures d * a <= d * b && d * b == b * d
  {
  }

  lemma IssuedBy(n: nat, periods: nat, total: nat, interval: nat, initial: nat)
    requires interval > 0 && initial < Pow2(63) && total == interval * periods && n <= total
    ensures Issued(n, interval, initial) <= interval * (2 * initial)
  {
    IssuedGrows(n, total, interval, initial);
    PeriodsBounded(periods, interval, initial);
    MulGrows(interval, 2 * initial - 2 * PeriodReward(periods, initial), 2 * initial);
  }

  /** The schedule never issues more than 2 * interval * initial, over any number of epochs. */
  lemma IssuanceBounded(n: nat, interval: nat, initial: nat)
    requires interval > 0 && initial < Pow2(63)
    ensures Issued(n, interval, initial) <= interval * (2 * initial)
  {
    assert n <= interval * n by { MulGrows(n, 1, interval); }
    IssuedBy(n, n, interval * n, interval, initial);
  }

  lemma StillPays(k: nat, initial: nat)
    requires initial >= Pow2(63)
    ensures PeriodReward(k, initial) >= 1
  {
    PeriodsFall(k, k + 63, initial);
    ShiftVanishes(initial, 63);
  }

  lemma RewardPays(e: nat, interval: nat, initial: nat)
    requires interval > 0 && initial >= Pow2(63)
    ensures Reward(e, interval, initial) >= 1
  {
    StillPays(e / interval, initial);
  }

  lemma {:induction false} IssuanceKeepsPaying(n: nat, interval: nat, initial: nat)
    requires interval > 0 && initial >= Pow2(63)
    ensures Issued(n, interval, initial) >= n
  {
    if n > 0 {
      IssuanceKeepsPaying(n - 1, interval, initial);
      RewardPays(n - 1, interval, initial);
    }
  }

  ghost predicate NeverAbove(most: nat, interval: nat, initial: nat)
    requires interval > 0
  {
    forall n :: Issued(n, interval, initial) <= most
  }

  /** Total issuance is finite exactly when the initial reward is below 2^63: above that the limit on the
      shift keeps the reward from ever reaching zero. */
  lemma BoundedIff(interval: nat, initial: nat)
    requires interval > 0
    ensures (exists most :: NeverAbove(most, interval, initial)) <==> initial < Pow2(63)
  {
    if initial < Pow2(63) {
      forall n ensures Issued(n, interval, initial) <= interval * (2 * initial) {
        IssuanceBounded(n, interval, initial);
      }
      assert NeverAbove(interval * (2 * initial), interval, initial);
    } else {
      forall most: nat ensures !NeverAbove(most, interval, initial) {
        IssuanceKeepsPaying(most + 1, interval, initial);
      }
    }
  }
}
