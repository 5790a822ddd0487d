// The treasury and the distribution of fees (Savitri-contracts/src/fee.rs).
module Treasury {
  import opened Arithmetic
  import opened Basics

  const U128_MAX := 0xFFFF_FFFF_FFFF_FFFF_FFFF_FFFF_FFFF_FFFF

  function Saturate(n: nat): nat {
    if n <= U128_MAX then n else U128_MAX
  }

  datatype Rates = Rates(burn: nat, treasury: nat, validator: nat)

  datatype Amounts = Amounts(burn: nat, treasury: nat, validator: nat, proposer: nat)

  class Treasury {
    var balance: nat
    var totalCollected: nat
    var totalBurned: nat
    ghost var deposited: nat
    ghost var withdrawn: nat

    /** As long as deposits fit into 128 bits, everything collected is held, burned or paid out. */
    ghost predicate Valid()
      reads this
    {
      && balance <= U128_MAX && totalCollected <= U128_MAX && totalBurned <= U128_MAX
      && (deposited <= U128_MAX ==>
            totalCollected == deposited && totalCollected == balance + totalBurned + withdrawn)
    }

    constructor ()
      ensures Valid() && balance == totalCollected == totalBurned == deposited == withdrawn == 0
    {
      balance, totalCollected, totalBurned, deposited, withdrawn := 0, 0, 0, 0, 0;
    }

    method Deposit(amount: nat)
      requires Valid()
      modifies this
      ensures Valid() && deposited == old(deposited) + amount && withdrawn == old(withdrawn)
      ensures balance == Saturate(old(balance) + amount) && totalBurned == old(totalBurned)
      ensures totalCollected == Saturate(old(totalCollected) + amount)
    {
      balance := Saturate(balance + amount);
      totalCollected := Saturate(totalCollected + amount);
      deposited := deposited + amount;
    }

    method Withdraw(amount: nat) returns (ok: bool)
      requires Valid()
      modifies this
      ensures Valid() && ok == (old(balance) >= amount) && (!ok ==> unchanged(this))
      ensures balance == (if ok then old(balance) - amount else old(balance))
      ensures withdrawn == (if ok then old(withdrawn) + amount else old(withdrawn))
      ensures totalBurned == old(totalBurned) && totalCollected == old(totalCollected) && deposited == old(deposited)
    {
      ok := balance >= amount;
      if ok {
        balance := balance - amount;
        withdrawn := withdrawn + amount;
      }
    }

    /** At most a twentieth of the balance at a time. */
    method Spend(amount: nat) returns (ok: bool)
      requires Valid()
      modifies this
      ensures Valid() && ok == (amount <= old(balance) / 20)
      ensures balance == AfterSpend(old(balance), amount)
      ensures balance == old(balance) - if ok then amount else 0
      ensures withdrawn == old(withdrawn) + (old(balance) - balance)
      ensures totalBurned == old(totalBurned) && totalCollected == old(totalCollected) && deposited == old(deposited)
    {
      if amount > balance / 20 {
        return false;
      }
      ok := Withdraw(amount);
    }

    method Burn(amount: nat) returns (ok: bool)
      requires Valid()
      modifies this
      ensures Valid() && ok == (old(balance) >= amount) && (!ok ==> unchanged(this))
      ensures balance == (if ok then old(balance) - amount else old(balance))
      ensures totalBurned == (if ok then Saturate(old(totalBurned) + amount) else old(totalBurned))
      ensures totalCollected == old(totalCollected) && deposited == old(deposited) && withdrawn == old(withdrawn)
    {
      ok := balance >= amount;
      if ok {
        balance := balance - amount;
        totalBurned := Saturate(totalBurned + amount);
      }
    }
  }

  // ---------- Distribution ----------

  /** A rate in hundredths of a percent; the product wraps around at 128 bits in a release build. */
  function Part(total: nat, rate: nat): nat {
    total * rate % (U128_MAX + 1) / 10000
  }

  function FromTotal(total: nat, r: Rates): Amounts {
    var b, t, v := Part(total, r.burn), Part(total, r.treasury), Part(total, r.validator);
    Amounts(b, t, v, if total < b + t + v then 0 else total - (b + t + v))
  }

  function Sum(a: Amounts): nat {
    a.burn + a.treasury + a.validator + a.proposer
  }

  class FeeDistributor {
    const rates: Rates
    const treasury: Treasury

    constructor (rates: Rates, treasury: Treasury)
      ensures this.rates == rates && this.treasury == treasury
    {
      this.rates, this.treasury := rates, treasury;
    }

    /** Burns before it deposits, so it fails, changing nothing, when the treasury cannot cover the burn. */
    method Execute(amounts: Amounts) returns (ok: bool)
      requires treasury.Valid()
      modifies treasury
      ensures treasury.Valid() && ok == (old(treasury.balance) >= amounts.burn)
      ensures !ok ==> unchanged(treasury)
      ensures ok ==>
                && treasury.balance == Saturate(old(treasury.balance) - amounts.burn + amounts.treasury)
                && treasury.totalBurned == Saturate(old(treasury.totalBurned) + amounts.burn)
                && treasury.totalCollected == Saturate(old(treasury.totalCollected) + amounts.treasury)
    {
      ok := true;
      if amounts.burn > 0 {
        ok := treasury.Burn(amounts.burn);
        if !ok {
          return;
        }
      }
      if amounts.treasury > 0 {
        treasury.Deposit(amounts.treasury);
      }
    }

    method Distribute(total: nat) returns (r: Option<Amounts>)
      requires treasury.Valid()
      modifies treasury
      ensures treasury.Valid()
      ensures
        var amounts := FromTotal(total, rates);
        if old(treasury.balance) < amounts.burn then r == None && unchanged(treasury)
        else
          && r == Some(amounts)
          && treasury.balance == Saturate(old(treasury.balance) - amounts.burn + amounts.treasury)
          && treasury.totalBurned == Saturate(old(treasury.totalBurned) + amounts.burn)
          && treasury.totalCollected == Saturate(old(treasury.totalCollected) + amounts.treasury)
    {
      var amounts := FromTotal(total, rates);
      var ok := Execute(amounts);
      r := if ok then Some(amounts) else None;
    }
  }

  lemma ModAtMost(n: nat, m: nat)
    requires m > 0
    ensures n % m <= n
  {
    DivBounds(n, m);
    assert n == m * (n / m) + n % m;
  }

  /** Wrap-around only makes a part smaller. */
  lemma PartBound(total: nat, rate: nat)
    ensures 10000 * Part(total, rate) <= total * rate
  {
    ModAtMost(total * rate, U128_MAX + 1);
    DivBounds(total * rate % (U128_MAX + 1), 10000);
  }

  /** Each share is its own rate's part of the total, rounded down, of a product taken modulo 2^128; the proposer gets
      what is left, if anything. */
  lemma SharesAre(total: nat, r: Rates)
    ensures
      var a := FromTotal(total, r);
      && 10000 * a.burn <= total * r.burn % 0x1_0000_0000_0000_0000_0000_0000_0000_0000 < 10000 * a.burn + 10000
      && 10000 * a.treasury <= total * r.treasury % 0x1_0000_0000_0000_0000_0000_0000_0000_0000 < 10000 * a.treasury + 10000
      && 10000 * a.validator <= total * r.validator % 0x1_0000_0000_0000_0000_0000_0000_0000_0000 < 10000 * a.validator + 10000
      && (a.proposer == 0 || a.burn + a.treasury + a.validator + a.proposer == total)
      && (a.burn + a.treasury + a.validator < total ==> a.proposer > 0)
  {
    DivBounds(total * r.burn % (U128_MAX + 1), 10000);
    DivBounds(total * r.treasury % (U128_MAX + 1), 10000);
    DivBounds(total * r.validator % (U128_MAX + 1), 10000);
  }

  lemma PartsWithin(total: nat, r: Rates)
    requires r.burn + r.treasury + r.validator <= 10000
    ensures Sum(FromTotal(total, r)) == total
  {
    PartBound(total, r.burn);
    PartBound(total, r.treasury);
    PartBound(total, r.validator);
    assert total * r.burn + total * r.treasury + total * r.validator == total * (r.burn + r.treasury + r.validator);
    MulMonotone(total, r.burn + r.treasury + r.validator, 10000);
  }

  ghost predicate SplitsExactly(r: Rates) {
    forall total: nat :: total <= U128_MAX ==> Sum(FromTotal(total, r)) == total
  }

  lemma SmallPart(rate: nat)
    requires rate < 0x1_0000
    ensures Part(10000, rate) == rate
  {
    assert 10000 * rate < U128_MAX + 1;
    assert 10000 * rate % (U128_MAX + 1) == 10000 * rate;
    Quotient(10000 * rate, 10000, rate);
  }

  /** Every total is split without gain or loss exactly when the rates, which have 16 bits, add up to at most 100 percent. */
  lemma SplitExactIff(r: Rates)
    requires r.burn < 0x1_0000 && r.treasury < 0x1_0000 && r.validator < 0x1_0000
    ensures SplitsExactly(r) <==> r.burn + r.treasury + r.validator <= 10000
  {
    if r.burn + r.treasury + r.validator <= 10000 {
      forall total: nat | total <= U128_MAX ensures Sum(FromTotal(total, r)) == total {
        PartsWithin(total, r);
      }
    } else {
      SmallPart(r.burn);
      SmallPart(r.treasury);
      SmallPart(r.validator);
      assert Sum(FromTotal(10000, r)) > 10000;
    }
  }

  // ---------- The cap over many spendings ----------

  function AfterSpend(balance: nat, amount: nat): nat {
    if amount <= balance / 20 then balance - amount else balance
  }

  function AfterSpends(balance: nat, amounts: seq<nat>): nat {
    if amounts == [] then balance else AfterSpend(AfterSpends(balance, amounts[..|amounts| - 1]), amounts[|amounts| - 1])
  }

  function Power(b: nat, n: nat): nat {
    if n == 0 then 1 else b * Power(b, n - 1)
  }

  /** n spendings leave at least (19/20)^n of the balance. */
  lemma {:induction false} SpendsLeave(balance: nat, amounts: seq<nat>)
    ensures Power(20, |amounts|) * AfterSpends(balance, amounts) >= Power(19, |amounts|) * balance
  {
    if amounts != [] {
      var n := |amounts| - 1;
      SpendsLeave(balance, amounts[..n]);
      var b, b' := AfterSpends(balance, amounts[..n]), AfterSpends(balance, amounts);
      var p, q := Power(20, n), Power(19, n);
      assert 20 * b' >= 19 * b;
      Compose(p, q, b, b', balance);
    }
  }

  lemma Compose(p: nat, q: nat, b: nat, b': nat, balance: nat)
    requires 20 * b' >= 19 * b && p * b >= q * balance
    ensures (20 * p) * b' >= (19 * q) * balance
  {
    assert (20 * p) * b' == p * (20 * b');
    assert p * (20 * b') >= p * (19 * b);
    assert p * (19 * b) == 19 * (p * b);
    assert (19 * q) * balance == 19 * (q * balance);
  }

  /** However many there are, spendings never take a balance of 19 or more below 19, nor touch a smaller one. */
  lemma {:induction false} SpendsFloor(balance: nat, amounts: seq<nat>)
    ensures balance >= 19 ==> AfterSpends(balance, amounts) >= 19
    ensures balance < 20 ==> AfterSpends(balance, amounts) == balance
  {
    if amounts != [] {
      SpendsFloor(balance, amounts[..|amounts| - 1]);
    }
  }
}
