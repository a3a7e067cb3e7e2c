/** The block subsidy and its halvings: what is minted by each height, and in the end. */
module Emission {
  import opened Amounts
  import opened Arith
  import opened Bytes

  /** `(S) >> halvings`, and nothing once the maximum number of halvings is reached. */
  function SubsidyAt(initial: nat, interval: nat, maxHalvings: nat, height: nat): nat
    requires interval >= 1 && height >= 1
  {
    var halvings := (height - 1) / interval;
    if halvings >= maxHalvings then 0 else Shr(initial, halvings)
  }

  /** Everything minted by the blocks 1 to `height`, one block at a time. */
  function Minted(initial: nat, interval: nat, maxHalvings: nat, height: nat): nat
    requires interval >= 1
  {
    if height == 0 then 0
    else Minted(initial, interval, maxHalvings, height - 1) + SubsidyAt(initial, interval, maxHalvings, height)
  }

  /** The number of ones in the binary form of `n`. */
  function PopCount(n: nat): nat {
    if n == 0 then 0 else n % 2 + PopCount(n / 2)
  }

  /** S + (S >> 1) + ... over `epochs` epochs. */
  function Shifts(s: nat, epochs: nat): nat {
    if epochs == 0 then 0 else Shifts(s, epochs - 1) + Shr(s, epochs - 1)
  }

  lemma {:induction false} ShiftsFromFront(s: nat, epochs: nat)
    requires epochs > 0
    ensures Shifts(s, epochs) == s + Shifts(s / 2, epochs - 1)
  {
    if epochs > 1 {
      ShiftsFromFront(s, epochs - 1);
    }
  }

  /** Once every bit has been shifted out the halvings add up to 2S less one atom per set bit. */
  lemma {:induction false} ShiftsClosed(s: nat, epochs: nat)
    requires epochs >= BitLength(s)
    ensures Shifts(s, epochs) == 2 * s - PopCount(s)
    decreases epochs
  {
    if epochs > 0 {
      ShiftsFromFront(s, epochs);
      ShiftsClosed(s / 2, epochs - 1);
    }
  }

  lemma EpochOf(interval: nat, e: nat, r: nat)
    requires interval >= 1 && 1 <= r <= interval
    ensures (e * interval + r - 1) / interval == e
  {
    DivModIs(e, r - 1, interval);
  }

  /** Whole epochs in closed form, plus the part of the epoch the height sits in. */
  lemma {:induction false} MintedByEpoch(initial: nat, interval: nat, maxHalvings: nat, e: nat, r: nat, h: nat)
    requires interval >= 1 && r <= interval && (e < maxHalvings || (e == maxHalvings && r == 0))
    requires h == e * interval + r
    ensures Minted(initial, interval, maxHalvings, h)
         == interval * Shifts(initial, e) + r * Shr(initial, e)
    decreases e, r
  {
    if r == 0 && e == 0 {
      assert h == 0;
    } else if r > 0 {
      MintedByEpoch(initial, interval, maxHalvings, e, r - 1, h - 1);
      SubsidyInEpoch(initial, interval, maxHalvings, e, r, h);
      Distribute(r - 1, Shr(initial, e));
    } else {
      EpochBoundary(initial, interval, e);
      MintedByEpoch(initial, interval, maxHalvings, e - 1, interval, h);
    }
  }

  /** The end of one epoch, written as the start of the next. */
  lemma EpochBoundary(initial: nat, interval: nat, e: nat)
    requires e > 0
    ensures e * interval + 0 == (e - 1) * interval + interval
    ensures interval * Shifts(initial, e - 1) + interval * Shr(initial, e - 1)
         == interval * Shifts(initial, e) + 0 * Shr(initial, e)
  {
    Distribute(e - 1, interval);
    EpochTotal(interval, Shifts(initial, e - 1), Shr(initial, e - 1), Shifts(initial, e), Shr(initial, e));
  }

  lemma EpochTotal(interval: nat, before: nat, x: nat, after: nat, y: nat)
    requires after == before + x
    ensures interval * before + interval * x == interval * after + 0 * y
  {
    DistributeLeft(interval, before, x);
  }

  lemma SubsidyInEpoch(initial: nat, interval: nat, maxHalvings: nat, e: nat, r: nat, h: nat)
    requires interval >= 1 && 1 <= r <= interval && e < maxHalvings && h == e * interval + r
    ensures SubsidyAt(initial, interval, maxHalvings, h) == Shr(initial, e)
  {
    EpochOf(interval, e, r);
  }

  lemma Distribute(r: nat, x: nat)
    ensures (r + 1) * x == r * x + x
  {}

  lemma DistributeLeft(c: nat, x: nat, y: nat)
    ensures c * (x + y) == c * x + c * y
  {}

  lemma {:induction false} NothingAfter(initial: nat, interval: nat, maxHalvings: nat, height: nat)
    requires interval >= 1 && maxHalvings * interval <= height
    ensures Minted(initial, interval, maxHalvings, height)
         == Minted(initial, interval, maxHalvings, maxHalvings * interval)
    decreases height
  {
    if maxHalvings * interval < height {
      NothingAfter(initial, interval, maxHalvings, height - 1);
      RunOut(initial, interval, maxHalvings, height);
    }
  }

  lemma RunOut(initial: nat, interval: nat, maxHalvings: nat, height: nat)
    requires interval >= 1 && maxHalvings * interval < height
    ensures SubsidyAt(initial, interval, maxHalvings, height) == 0
  {
    DivideMonotone(maxHalvings * interval, height - 1, interval);
    DivModIs(maxHalvings, 0, interval);
  }

  /**
   The whole emission: for any subsidy and interval, and at least as many halvings as the
   subsidy has bits, L * (2S - popcount(S)).
   */
  lemma EmissionTotal(initial: nat, interval: nat, maxHalvings: nat, height: nat)
    requires interval >= 1 && maxHalvings >= BitLength(initial) && height >= maxHalvings * interval
    ensures Minted(initial, interval, maxHalvings, height) == interval * (2 * initial - PopCount(initial))
  {
    NothingAfter(initial, interval, maxHalvings, height);
    MintedByEpoch(initial, interval, maxHalvings, maxHalvings, 0, maxHalvings * interval);
    ShiftsClosed(initial, maxHalvings);
  }

  lemma {:induction false} MintedGrows(initial: nat, interval: nat, maxHalvings: nat, h: nat, height: nat)
    requires interval >= 1 && h <= height
    ensures Minted(initial, interval, maxHalvings, h) <= Minted(initial, interval, maxHalvings, height)
    decreases height
  {
    if h < height { MintedGrows(initial, interval, maxHalvings, h, height - 1); }
  }

  /** No height ever exceeds the total, and it is reached exactly when the subsidy has run out. */
  lemma EmissionBound(initial: nat, interval: nat, maxHalvings: nat, height: nat)
    requires interval >= 1 && maxHalvings >= BitLength(initial)
    ensures Minted(initial, interval, maxHalvings, height) <= interval * (2 * initial - PopCount(initial))
    ensures Minted(initial, interval, maxHalvings, height) == interval * (2 * initial - PopCount(initial))
       <==> height >= BitLength(initial) * interval
  {
    hide Minted, PopCount, BitLength;
    var b, total := BitLength(initial), interval * (2 * initial - PopCount(initial));
    EmissionAtMost(initial, interval, maxHalvings, height, total);
    if height >= b * interval {
      SpentAt(initial, interval, maxHalvings, b, total);
      MintedGrows(initial, interval, maxHalvings, b * interval, height);
    } else {
      QuotientBelow(height, b, interval);
      EmissionEarly(initial, interval, maxHalvings, height, height / interval, total);
    }
  }

  lemma EmissionAtMost(initial: nat, interval: nat, maxHalvings: nat, height: nat, total: int)
    requires interval >= 1 && maxHalvings >= BitLength(initial)
    requires total == interval * (2 * initial - PopCount(initial))
    ensures Minted(initial, interval, maxHalvings, height) <= total
  {
    var far := maxHalvings * interval + height;
    EmissionTotal(initial, interval, maxHalvings, far);
    MintedGrows(initial, interval, maxHalvings, height, far);
  }

  lemma EmissionEarly(initial: nat, interval: nat, maxHalvings: nat, height: nat, e: nat, total: int)
    requires interval >= 1 && maxHalvings >= BitLength(initial)
    requires e == height / interval && e < BitLength(initial)
    requires total == interval * (2 * initial - PopCount(initial))
    ensures Minted(initial, interval, maxHalvings, height) < total
  {
    StillPaying(initial, interval, maxHalvings, height, e);
    EmissionAtMost(initial, interval, maxHalvings, height + 1, total);
  }

  /** The last bit is shifted out at the end of epoch `BitLength - 1`. */
  lemma SpentAt(initial: nat, interval: nat, maxHalvings: nat, b: nat, total: int)
    requires interval >= 1 && maxHalvings >= b == BitLength(initial)
    requires total == interval * (2 * initial - PopCount(initial))
    ensures Minted(initial, interval, maxHalvings, b * interval) == total
  {
    MintedByEpoch(initial, interval, maxHalvings, b, 0, b * interval);
    ShiftsClosed(initial, b);
  }

  lemma StillPaying(initial: nat, interval: nat, maxHalvings: nat, height: nat, e: nat)
    requires interval >= 1 && maxHalvings >= BitLength(initial)
    requires e == height / interval && e < BitLength(initial)
    ensures SubsidyAt(initial, interval, maxHalvings, height + 1) > 0
  {
    TopBit(initial, e);
  }

  lemma {:induction false} TopBit(n: nat, e: nat)
    requires e < BitLength(n)
    ensures Shr(n, e) > 0
  {
    if e > 0 {
      TopBit(n / 2, e - 1);
    }
  }

  // ------------------------------------------------------------------ WAM's numbers

  const INITIAL_SUBSIDY := 50 * COIN
  const HALVING_INTERVAL := 200_000
  const MAX_HALVINGS := 33
  const MAX_MONEY := 22_000_000 * COIN

  lemma SubsidyBits()
    ensures BitLength(INITIAL_SUBSIDY) == MAX_HALVINGS && PopCount(INITIAL_SUBSIDY) == 11
  {
    FiveBytes(INITIAL_SUBSIDY, 0x01_2A_05_F2, 0x01_2A_05, 0x01_2A, 0x01);
  }

  /** The subsidy is 0x01_2A_05_F2_00: 33 bits, 1 + 3 + 2 + 5 of them set. */
  lemma FiveBytes(n: nat, a: nat, b: nat, c: nat, d: nat)
    requires n == 256 * a && a == 256 * b + 0xF2 && b == 256 * c + 0x05 && c == 256 * d + 0x2A && d == 1
    ensures BitLength(n) == 33 && PopCount(n) == 11
  {
    ByteOfBits(n);
    ByteOfBits(a);
    ByteOfBits(b);
    ByteOfBits(c);
    assert BitLength(d) == 1 + BitLength(0);
    PopCountByte(a, 0x00);
    PopCountByte(b, 0xF2);
    PopCountByte(c, 0x05);
    PopCountByte(d, 0x2A);
    SmallPopCounts();
    assert PopCount(d) == 1 + PopCount(0);
  }

  lemma SmallPopCounts()
    ensures PopCount(0xF2) == 5 && PopCount(0x05) == 2 && PopCount(0x2A) == 3
  {
    assert PopCount(1) == 1 && PopCount(3) == 2 && PopCount(7) == 3 && PopCount(0x0F) == 4;
    assert PopCount(0x1E) == 4 && PopCount(0x3C) == 4 && PopCount(0x79) == 5;
    assert PopCount(2) == 1 && PopCount(5) == 2 && PopCount(0x0A) == 2 && PopCount(0x15) == 3;
  }

  /** `q` shifted left by `k` bits. */
  function ShiftedLeft(q: nat, k: nat): nat {
    if k == 0 then q else 2 * ShiftedLeft(q, k - 1)
  }

  lemma HalfOf(n: nat, half: nat, r: nat)
    requires n == 2 * half + r
    ensures n / 2 == half + r / 2 && n % 2 == r % 2
  {}

  lemma {:induction false} PopCountSplit(n: nat, q: nat, r: nat, k: nat)
    requires r < Pow2(k) && n == ShiftedLeft(q, k) + r
    ensures PopCount(n) == PopCount(q) + PopCount(r)
  {
    if k > 0 {
      HalfOf(n, ShiftedLeft(q, k - 1), r);
      PopCountSplit(n / 2, q, r / 2, k - 1);
    }
  }

  lemma PopCountByte(q: nat, r: nat)
    requires r < 256
    ensures PopCount(256 * q + r) == PopCount(q) + PopCount(r)
  {
    hide PopCount;
    assert Pow2(8) == 256;
    assert ShiftedLeft(q, 1) == 2 * q && ShiftedLeft(q, 3) == 8 * q;
    assert ShiftedLeft(q, 5) == 32 * q && ShiftedLeft(q, 7) == 128 * q;
    assert ShiftedLeft(q, 8) == 256 * q;
    PopCountSplit(256 * q + r, q, r, 8);
  }

  /**
   The mining allocation: never more than 20,000,000 WAM less 2,200,000 atoms (0.022 WAM),
   and exactly that from height 6,600,000 on, not before.
   */
  lemma MiningAllocation(height: nat)
    ensures Minted(INITIAL_SUBSIDY, HALVING_INTERVAL, MAX_HALVINGS, height) <= 20_000_000 * COIN - 2_200_000
    ensures Minted(INITIAL_SUBSIDY, HALVING_INTERVAL, MAX_HALVINGS, height) == 20_000_000 * COIN - 2_200_000
       <==> height >= 6_600_000
  {
    SubsidyBits();
    EmissionBound(INITIAL_SUBSIDY, HALVING_INTERVAL, MAX_HALVINGS, height);
  }

  /** `GetTotalSupplyAtHeight`: the premine, whole epochs, then the partial one. */
  function TotalSupply(height: nat): nat {
    if height == 0 then GENESIS_PREMINE
    else GENESIS_PREMINE + EpochSum((height - 1) / HALVING_INTERVAL, (height - 1) % HALVING_INTERVAL + 1)
  }

  /** `completed` whole epochs and the first `into` blocks of the next. */
  function EpochSum(completed: nat, into: nat): nat {
    if completed < MAX_HALVINGS
    then HALVING_INTERVAL * Shifts(INITIAL_SUBSIDY, completed) + into * Shr(INITIAL_SUBSIDY, completed)
    else HALVING_INTERVAL * Shifts(INITIAL_SUBSIDY, MAX_HALVINGS)
  }

  lemma EpochSumExact(e: nat, r: nat)
    requires 1 <= r <= HALVING_INTERVAL
    ensures EpochSum(e, r)
         == Minted(INITIAL_SUBSIDY, HALVING_INTERVAL, MAX_HALVINGS, e * HALVING_INTERVAL + r)
  {
    if e < MAX_HALVINGS {
      MintedByEpoch(INITIAL_SUBSIDY, HALVING_INTERVAL, MAX_HALVINGS, e, r, e * HALVING_INTERVAL + r);
    } else {
      MulGrows(MAX_HALVINGS, e, HALVING_INTERVAL);
      NothingAfter(INITIAL_SUBSIDY, HALVING_INTERVAL, MAX_HALVINGS, e * HALVING_INTERVAL + r);
      MintedByEpoch(INITIAL_SUBSIDY, HALVING_INTERVAL, MAX_HALVINGS, MAX_HALVINGS, 0, MAX_HALVINGS * HALVING_INTERVAL);
    }
  }

  /** The epoch sum is the block-by-block sum, and the hard cap is never reached. */
  lemma TotalSupplyExact(height: nat)
    ensures TotalSupply(height)
         == GENESIS_PREMINE + Minted(INITIAL_SUBSIDY, HALVING_INTERVAL, MAX_HALVINGS, height)
    ensures TotalSupply(height) <= MAX_MONEY - 2_200_000
  {
    MiningAllocation(height);
    if height >= 1 {
      DivMod(height - 1, HALVING_INTERVAL);
      EpochSumExact((height - 1) / HALVING_INTERVAL, (height - 1) % HALVING_INTERVAL + 1);
    }
  }
}
