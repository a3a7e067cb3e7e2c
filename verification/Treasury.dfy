/** What consensus pays the treasury: per height, and summed by epoch. */
module Treasury {
  import opened Amounts
  import opened Arith
  import opened Bytes

  /** The six numbers the accrual is made of, as declared for the network. */
  datatype Constants = Constants(subsidy: nat, interval: nat, percent: nat, start: nat, last: nat, maxHalvings: nat)

  function Epoch(height: nat, k: Constants): nat
    requires height >= 1 && k.interval >= 1
  {
    (height - 1) / k.interval
  }

  /** The treasury's share of one block's subsidy, in atoms. */
  function TreasuryAt(height: nat, k: Constants): nat
    requires height >= 1 && k.interval >= 1
  {
    if height < k.start || height > k.last then 0
    else if Epoch(height, k) >= k.maxHalvings then 0
    else Shr(k.subsidy * COIN, Epoch(height, k)) * k.percent / 100
  }

  /** The consensus rule added up block by block: the slow form. */
  function Accrued(height: nat, k: Constants): nat
    requires k.interval >= 1
  {
    if height == 0 then 0 else Accrued(height - 1, k) + TreasuryAt(height, k)
  }

  function Max(x: nat, y: nat): nat { if x >= y then x else y }

  function EpochEnd(h: nat, k: Constants): nat
    requires h >= 1 && k.interval >= 1
  {
    (Epoch(h, k) + 1) * k.interval
  }

  /**
   `accrued_through` as it runs, jumping from epoch to epoch: it returns the block-by-block
   sum, and goes round at most once for each epoch up to the tip.
   */
  method AccruedThrough(height: nat, k: Constants) returns (total: nat, ghost rounds: nat)
    requires k.interval >= 1
    ensures total == Accrued(height, k)
    ensures rounds <= if height == 0 then 0 else Epoch(height, k) + 1
  {
    total := 0;
    rounds := 0;
    var h := Max(k.start, 1);
    ghost var top := Min(height, k.last);
    BeforeStart(h - 1, k);
    while h <= Min(height, k.last)
      invariant h >= Max(k.start, 1)
      invariant total == Accrued(h - 1, k)
      invariant rounds == 0 ==> h == Max(k.start, 1)
      invariant rounds > 0 ==> 2 <= h <= top + 1 && rounds <= Epoch(h - 1, k) + 1
      invariant rounds > 0 && h <= top ==> Epoch(h, k) == Epoch(h - 1, k) + 1
      decreases height + 1 - h
    {
      var epochEnd := Min(Min(height, k.last), EpochEnd(h, k));
      Jump(h, top, epochEnd, k);
      total := total + TreasuryAt(h, k) * (epochEnd - h + 1);
      rounds := rounds + 1;
      h := epochEnd + 1;
    }
    if rounds > 0 {
      AfterLast(h - 1, height, k);
      EpochGrows(h - 1, height, k);
    } else {
      NothingPaid(height, k);
    }
  }

  /** One turn of the loop: the rest of an epoch, or up to the top if that comes first. */
  lemma Jump(h: nat, top: nat, epochEnd: nat, k: Constants)
    requires k.interval >= 1 && Max(k.start, 1) <= h <= top <= k.last
    requires epochEnd == Min(top, EpochEnd(h, k))
    ensures h <= epochEnd && Epoch(epochEnd, k) == Epoch(h, k)
    ensures Accrued(epochEnd, k) == Accrued(h - 1, k) + TreasuryAt(h, k) * (epochEnd - h + 1)
    ensures epochEnd < top ==> Epoch(epochEnd + 1, k) == Epoch(h, k) + 1
  {
    EpochEndIs(h, k);
    EpochConstant(h, epochEnd, k);
    NextEpoch(h, k);
  }

  lemma NothingPaid(height: nat, k: Constants)
    requires k.interval >= 1 && Max(k.start, 1) > Min(height, k.last)
    ensures Accrued(height, k) == Accrued(Max(k.start, 1) - 1, k)
  {
    BeforeStart(Max(k.start, 1) - 1, k);
    if height < Max(k.start, 1) {
      BeforeStart(height, k);
    } else {
      AfterLast(Max(k.start, 1) - 1, height, k);
    }
  }

  lemma {:induction false} BeforeStart(height: nat, k: Constants)
    requires k.interval >= 1 && (height < k.start || height == 0)
    ensures Accrued(height, k) == 0
  {
    if height > 0 { BeforeStart(height - 1, k); }
  }

  lemma {:induction false} AfterLast(h: nat, height: nat, k: Constants)
    requires k.interval >= 1 && h <= height
    requires h == height || h >= k.last
    ensures Accrued(height, k) == Accrued(h, k)
    decreases height
  {
    if h < height { AfterLast(h, height - 1, k); }
  }

  /** The last height of the epoch `h` is in. */
  lemma EpochEndIs(h: nat, k: Constants)
    requires h >= 1 && k.interval >= 1
    ensures h <= EpochEnd(h, k)
    ensures forall i :: h <= i <= EpochEnd(h, k) ==> Epoch(i, k) == Epoch(h, k)
  {
    var e := Epoch(h, k);
    DivMod(h - 1, k.interval);
    assert (e + 1) * k.interval == e * k.interval + k.interval;
    forall i: nat | h <= i <= EpochEnd(h, k) ensures Epoch(i, k) == e {
      DivModIs(e, i - 1 - e * k.interval, k.interval);
    }
  }

  lemma NextEpoch(h: nat, k: Constants)
    requires h >= 1 && k.interval >= 1
    ensures Epoch(EpochEnd(h, k) + 1, k) == Epoch(h, k) + 1
    ensures EpochEnd(h, k) >= 1 && Epoch(EpochEnd(h, k), k) == Epoch(h, k)
  {
    EpochEndIs(h, k);
    DivModIs(Epoch(h, k) + 1, 0, k.interval);
  }

  lemma EpochGrows(h: nat, height: nat, k: Constants)
    requires 1 <= h <= height && k.interval >= 1
    ensures Epoch(h, k) <= Epoch(height, k)
  {
    DivideMonotone(h - 1, height - 1, k.interval);
  }

  /** Within one epoch every height pays the same. */
  lemma {:induction false} EpochConstant(h: nat, end: nat, k: Constants)
    requires k.interval >= 1 && 1 <= h && k.start <= h && h <= end + 1 && end <= k.last
    requires forall i :: h <= i <= end ==> Epoch(i, k) == Epoch(h, k)
    ensures Accrued(end, k) == Accrued(h - 1, k) + TreasuryAt(h, k) * (end - h + 1)
    decreases end
  {
    if end >= h {
      EpochConstant(h, end - 1, k);
      assert TreasuryAt(end, k) == TreasuryAt(h, k);
      hide TreasuryAt;
      assert TreasuryAt(h, k) * (end - h + 1) == TreasuryAt(h, k) * (end - h) + TreasuryAt(h, k);
    }
  }

  lemma {:induction false} AccruedGrows(h: nat, height: nat, k: Constants)
    requires k.interval >= 1 && h <= height
    ensures Accrued(h, k) <= Accrued(height, k)
    decreases height
  {
    if h < height { AccruedGrows(h, height - 1, k); }
  }

  // ------------------------------------------------------------------ WAM's numbers

  const MAINNET := Constants(50, 200_000, 5, 1, 400_000, 33)

  /** 2.5 WAM a block, then 1.25, then nothing. */
  function Schedule(height: nat): nat {
    if height <= 200_000 then 250_000_000 * height
    else if height <= 400_000 then 50_000_000_000_000 + 125_000_000 * (height - 200_000)
    else 75_000_000_000_000
  }

  lemma {:induction false} AccruedSchedule(height: nat)
    ensures Accrued(height, MAINNET) == Schedule(height)
  {
    if height > 0 {
      AccruedSchedule(height - 1);
      TreasuryRate(height);
    }
  }

  lemma TreasuryRate(height: nat)
    requires height >= 1
    ensures TreasuryAt(height, MAINNET)
         == if height <= 200_000 then 250_000_000 else if height <= 400_000 then 125_000_000 else 0
  {
    assert height <= 200_000 ==> Epoch(height, MAINNET) == 0;
    assert 200_000 < height <= 400_000 ==> Epoch(height, MAINNET) == 1;
    assert Shr(50 * COIN, 1) == 25 * COIN;
  }

  /**
   The operating budget never shrinks, never exceeds 750,000 WAM, and stands at exactly
   that from height 400,000 on and at no height before.
   */
  lemma OperatingBudget(h: nat, height: nat)
    requires h <= height
    ensures Accrued(h, MAINNET) <= Accrued(height, MAINNET) <= 750_000 * COIN
    ensures Accrued(height, MAINNET) == 750_000 * COIN <==> height >= 400_000
  {
    AccruedSchedule(height);
    AccruedGrows(h, height, MAINNET);
  }
}
