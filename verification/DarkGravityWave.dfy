/**
 The DarkGravityWave v3 retarget: a running mean of the last 24 targets, scaled by a
 clamped timespan, capped, and re-encoded. Integer division throughout.
 */
module DarkGravityWave {
  import opened Arith
  import opened Bytes
  import opened Compact

  const PAST_BLOCKS := 24
  const TARGET_SPACING := 120
  const CLAMP := 3
  const TARGET_TIMESPAN := PAST_BLOCKS * TARGET_SPACING

  datatype Block = Block(nbits: nat, time: int) {
    function Target(): nat { CompactToTarget(nbits) }
  }

  /** One step of the mean: `(avg * n + t) // (n + 1)`. */
  function Blend(avg: nat, t: nat, n: nat): nat { (avg * n + t) / (n + 1) }

  /** avg_1 = t_1, avg_n = (avg_{n-1} * n + t_n) / (n + 1); `ts` is newest first. */
  function RunningMean(ts: seq<nat>): nat
    requires ts != []
  {
    var n := |ts|;
    if n == 1 then ts[0] else Blend(RunningMean(ts[..n - 1]), ts[n - 1], n)
  }

  function Reverse<T>(s: seq<T>): (r: seq<T>)
    ensures |r| == |s| && forall i :: 0 <= i < |s| ==> r[i] == s[|s| - 1 - i]
  {
    if s == [] then [] else Reverse(s[1..]) + [s[0]]
  }

  function Targets(blocks: seq<Block>): (ts: seq<nat>)
    ensures |ts| == |blocks| && forall i :: 0 <= i < |ts| ==> ts[i] == blocks[i].Target()
  {
    seq(|blocks|, i requires 0 <= i < |blocks| => blocks[i].Target())
  }

  function Recent(window: seq<Block>): (r: seq<Block>)
    requires |window| >= PAST_BLOCKS
    ensures |r| == PAST_BLOCKS
  {
    window[|window| - PAST_BLOCKS..]
  }

  /** Newest minus oldest of the 24: the span of 23 intervals. */
  function Timespan(window: seq<Block>): int
    requires |window| >= PAST_BLOCKS
  {
    window[|window| - 1].time - window[|window| - PAST_BLOCKS].time
  }

  function Clamped(actual: int): (c: nat)
    ensures TARGET_TIMESPAN / CLAMP <= c <= TARGET_TIMESPAN * CLAMP
    ensures TARGET_TIMESPAN / CLAMP <= actual <= TARGET_TIMESPAN * CLAMP ==> c == actual
  {
    if actual < TARGET_TIMESPAN / CLAMP then TARGET_TIMESPAN / CLAMP
    else if actual > TARGET_TIMESPAN * CLAMP then TARGET_TIMESPAN * CLAMP
    else actual
  }

  function Mean(window: seq<Block>): nat
    requires |window| >= PAST_BLOCKS
  {
    RunningMean(Targets(Reverse(Recent(window))))
  }

  function Scale(avg: nat, span: nat): nat { avg * span / TARGET_TIMESPAN }

  /** The target before it is encoded. */
  function NewTarget(window: seq<Block>, powLimit: nat): nat
    requires |window| >= PAST_BLOCKS
  {
    Min(Scale(Mean(window), Clamped(Timespan(window))), powLimit)
  }

  /** The code the block after `window` must carry. */
  function NextBits(window: seq<Block>, powLimit: nat): nat {
    TargetToCompact(if |window| < PAST_BLOCKS then powLimit else NewTarget(window, powLimit))
  }

  /** `dgw` as it runs: the running mean in a loop, then the clamps in place. */
  method Dgw(window: seq<Block>, powLimit: nat) returns (nbits: nat)
    ensures nbits == NextBits(window, powLimit)
  {
    if |window| < PAST_BLOCKS {
      nbits := EncodeTarget(powLimit);
      return;
    }
    var newestFirst := Reverse(window[|window| - PAST_BLOCKS..]);
    ghost var ts := Targets(newestFirst);
    var avg: nat := 0;
    for i := 0 to |newestFirst|
      invariant i > 0 ==> avg == RunningMean(ts[..i])
    {
      var n := i + 1;
      var t := CompactToTarget(newestFirst[i].nbits);
      assert ts[..n][..i] == ts[..i];
      if n == 1 {
        avg := t;
      } else {
        avg := Blend(avg, t, n);
      }
    }
    assert ts[..|newestFirst|] == ts;
    var actual := newestFirst[0].time - newestFirst[|newestFirst| - 1].time;
    if actual < TARGET_TIMESPAN / CLAMP {
      actual := TARGET_TIMESPAN / CLAMP;
    }
    if actual > TARGET_TIMESPAN * CLAMP {
      actual := TARGET_TIMESPAN * CLAMP;
    }
    assert actual == Clamped(Timespan(window));
    assert avg == Mean(window);
    var new_ := Scale(avg, actual);
    if new_ > powLimit {
      new_ := powLimit;
    }
    nbits := EncodeTarget(new_);
  }

  // ------------------------------------------------------------------ the mean

  function Sum(ts: seq<nat>): nat {
    if ts == [] then 0 else Sum(ts[..|ts| - 1]) + ts[|ts| - 1]
  }

  /**
   The recurrence is an average in which the newest target counts twice and every other
   one once, less the remainders the divisions drop: those lose at most
   2 + 3 + ... + n in all.
   */
  lemma {:induction false} MeanFormula(ts: seq<nat>) returns (e: nat)
    requires ts != []
    ensures (|ts| + 1) * RunningMean(ts) == ts[0] + Sum(ts) - e
    ensures e <= |ts| * (|ts| + 1) / 2 - 1
  {
    var n := |ts|;
    if n == 1 {
      assert Sum(ts) == Sum([]) + ts[0];
      e := 0;
    } else {
      var before := ts[..n - 1];
      var e' := MeanFormula(before);
      assert before[0] == ts[0];
      var r := BlendFormula(RunningMean(before), ts[n - 1], n);
      e := e' + r;
      Triangle(n);
    }
  }

  lemma BlendFormula(avg: nat, t: nat, n: nat) returns (r: nat)
    ensures (n + 1) * Blend(avg, t, n) == n * avg + t - r && r <= n
  {
    DivMod(avg * n + t, n + 1);
    r := (avg * n + t) % (n + 1);
  }

  lemma Triangle(n: nat)
    requires n > 0
    ensures n * (n + 1) / 2 == (n - 1) * n / 2 + n
  {
    assert n * (n + 1) == (n - 1) * n + 2 * n;
  }

  lemma {:induction false} SumOfParts(a: seq<nat>, b: seq<nat>)
    ensures Sum(a + b) == Sum(a) + Sum(b)
  {
    if b == [] {
      assert a + b == a;
    } else {
      var n := |b| - 1;
      SumOfParts(a, b[..n]);
      assert (a + b)[..|a| + n] == a + b[..n];
    }
  }

  lemma {:induction false} SumReversed(ts: seq<nat>)
    ensures Sum(Reverse(ts)) == Sum(ts)
  {
    if ts != [] {
      SumReversed(ts[1..]);
      SumOfParts(Reverse(ts[1..]), [ts[0]]);
      SumOfParts([ts[0]], ts[1..]);
      assert ts == [ts[0]] + ts[1..];
    }
  }

  /** The average after each block of a list, the first first. */
  function Averages(ts: seq<nat>): (avgs: seq<nat>)
    ensures |avgs| == |ts|
    ensures forall k :: 0 <= k < |ts| ==> avgs[k] == RunningMean(ts[..k + 1])
  {
    seq(|ts|, k requires 0 <= k < |ts| => RunningMean(ts[..k + 1]))
  }

  /**
   The mean of a window by the places of its blocks alone: it starts from the newest and
   takes in the 23 before it going back, block `n - 1 - k` with weight 1 against `k + 1`.
   */
  lemma MeanOfWindow(window: seq<Block>) returns (avgs: seq<nat>)
    requires |window| >= 24
    ensures |avgs| == 24 && avgs[0] == window[|window| - 1].Target() && avgs[23] == Mean(window)
    ensures forall k :: 1 <= k < 24 ==>
              avgs[k] * (k + 2) <= avgs[k - 1] * (k + 1) + window[|window| - 1 - k].Target() < (avgs[k] + 1) * (k + 2)
  {
    var newest := Reverse(Recent(window));
    var ts := Targets(newest);
    forall k | 0 <= k < 24 ensures newest[k] == window[|window| - 1 - k] {}
    avgs := Averages(ts);
    assert ts[..24] == ts;
    hide *;
    forall k | 1 <= k < 24
      ensures avgs[k] * (k + 2) <= avgs[k - 1] * (k + 1) + window[|window| - 1 - k].Target() < (avgs[k] + 1) * (k + 2)
    {
      MeanTurn(ts, avgs, k);
    }
    FirstMean(ts);
  }

  lemma FirstMean(ts: seq<nat>)
    requires ts != []
    ensures RunningMean(ts[..1]) == ts[0]
  {}

  lemma MeanTurn(ts: seq<nat>, avgs: seq<nat>, k: nat)
    requires 1 <= k < |ts| == |avgs| && forall j :: 0 <= j < |ts| ==> avgs[j] == RunningMean(ts[..j + 1])
    ensures avgs[k] * (k + 2) <= avgs[k - 1] * (k + 1) + ts[k] < (avgs[k] + 1) * (k + 2)
  {
    assert ts[..k + 1][..k] == ts[..k];
    assert avgs[k] == Blend(avgs[k - 1], ts[k], k + 1);
    hide RunningMean;
    DivMod(avgs[k - 1] * (k + 1) + ts[k], k + 2);
    assert (avgs[k] + 1) * (k + 2) == avgs[k] * (k + 2) + (k + 2);
  }

  /** So in the mean the newest block counts twice, the 23 before it once, less what the divisions drop. */
  lemma NewestCountsTwice(window: seq<Block>) returns (e: nat)
    requires |window| >= 24
    ensures var n := |window|;
            25 * Mean(window) == 2 * window[n - 1].Target() + Sum(Targets(window[n - 24..n - 1])) - e && e <= 299
  {
    var n := |window|;
    var recent := Recent(window);
    var ts := Targets(recent);
    assert Targets(Reverse(recent)) == Reverse(ts);
    e := MeanFormula(Reverse(ts));
    SumReversed(ts);
    SumOfParts(Targets(window[n - 24..n - 1]), [window[n - 1].Target()]);
    assert ts == Targets(window[n - 24..n - 1]) + [window[n - 1].Target()];
    assert Sum([window[n - 1].Target()]) == Sum([]) + window[n - 1].Target();
  }

  /** The code for the next block: the mean scaled by the time between the ends of the window, within its clamps. */
  lemma NextBitsOfWindow(window: seq<Block>, powLimit: nat)
    ensures |window| < 24 ==> NextBits(window, powLimit) == TargetToCompact(powLimit)
    ensures |window| >= 24 ==>
              var actual := window[|window| - 1].time - window[|window| - 24].time;
              var span := if actual < 960 then 960 else if actual > 8640 then 8640 else actual;
              var scaled := Mean(window) * span / 2880;
              NextBits(window, powLimit) == TargetToCompact(if scaled > powLimit then powLimit else scaled)
  {
    hide Mean, TargetToCompact;
  }

  /** The mean never leaves the range of its targets. */
  lemma {:induction false} MeanBetween(ts: seq<nat>, lo: nat, hi: nat)
    requires ts != [] && forall i :: 0 <= i < |ts| ==> lo <= ts[i] <= hi
    ensures lo <= RunningMean(ts) <= hi
  {
    var n := |ts|;
    if n > 1 {
      MeanBetween(ts[..n - 1], lo, hi);
      BlendBetween(RunningMean(ts[..n - 1]), ts[n - 1], n, lo, hi);
    }
  }

  lemma BlendBetween(avg: nat, t: nat, n: nat, lo: nat, hi: nat)
    requires lo <= avg <= hi && lo <= t <= hi
    ensures lo <= Blend(avg, t, n) <= hi
  {
    MulGrows(lo, avg, n);
    MulGrows(avg, hi, n);
    assert lo * (n + 1) == lo * n + lo && hi * (n + 1) == hi * n + hi;
    DivideBetween(avg * n + t, n + 1, lo, hi);
  }

  lemma {:induction false} MeanMonotone(ts: seq<nat>, us: seq<nat>)
    requires |ts| == |us| > 0 && forall i :: 0 <= i < |ts| ==> ts[i] <= us[i]
    ensures RunningMean(ts) <= RunningMean(us)
  {
    var n := |ts|;
    if n > 1 {
      MeanMonotone(ts[..n - 1], us[..n - 1]);
      BlendMonotone(RunningMean(ts[..n - 1]), ts[n - 1], RunningMean(us[..n - 1]), us[n - 1], n);
    }
  }

  lemma BlendMonotone(avg: nat, t: nat, avg': nat, t': nat, n: nat)
    requires avg <= avg' && t <= t'
    ensures Blend(avg, t, n) <= Blend(avg', t', n)
  {
    MulGrows(avg, avg', n);
    DivideMonotone(avg * n + t, avg' * n + t', n + 1);
  }

  // ------------------------------------------------------------------ one step

  /** Every one of the last 24 targets is in the given range. */
  predicate Within(window: seq<Block>, lo: nat, hi: nat)
    requires |window| >= PAST_BLOCKS
  {
    forall i :: |window| - PAST_BLOCKS <= i < |window| ==> lo <= window[i].Target() <= hi
  }

  lemma WindowMeanBetween(window: seq<Block>, lo: nat, hi: nat)
    requires |window| >= PAST_BLOCKS && Within(window, lo, hi)
    ensures lo <= Mean(window) <= hi
  {
    var r := Reverse(Recent(window));
    forall i | 0 <= i < |r| ensures lo <= Targets(r)[i] <= hi {
      assert r[i] == window[|window| - 1 - i];
    }
    MeanBetween(Targets(r), lo, hi);
  }

  /**
   One step moves the target by at most a factor of three either way: the next decoded
   target is at most three times the largest in the window and never above the limit,
   and what is encoded is at least a third of the smallest (or the limit itself).
   */
  lemma StepBounds(window: seq<Block>, powLimit: nat, lo: nat, hi: nat)
    requires |window| >= PAST_BLOCKS && Within(window, lo, hi)
    ensures var next := CompactToTarget(NextBits(window, powLimit));
            next <= Min(powLimit, 3 * hi) && next <= NewTarget(window, powLimit)
    ensures NewTarget(window, powLimit) >= Min(powLimit, lo / 3)
    ensures CompactToTarget(NextBits(window, powLimit)) * 0x8001 >= Min(powLimit, lo / 3) * 0x8000
  {
    WindowMeanBetween(window, lo, hi);
    var avg, span := Mean(window), Clamped(Timespan(window));
    ScaleBounds(avg, span);
    DivideMonotone(lo, avg, 3);
    EncodeTruncates(NewTarget(window, powLimit));
  }

  lemma ScaleBounds(avg: nat, span: nat)
    requires TARGET_TIMESPAN / CLAMP <= span <= TARGET_TIMESPAN * CLAMP
    ensures avg / 3 <= Scale(avg, span) <= 3 * avg
  {
    MulGrows(960, span, avg);
    MulGrows(span, 8640, avg);
    assert span * avg == avg * span;
    DivideMonotone(avg * 960, avg * span, 2880);
    DivideMonotone(avg * span, avg * 8640, 2880);
  }

  /** Easier blocks and longer spans never make the next block harder. */
  lemma NextBitsMonotone(window: seq<Block>, window': seq<Block>, powLimit: nat)
    requires |window| == |window'| >= PAST_BLOCKS
    requires forall i :: |window| - PAST_BLOCKS <= i < |window| ==> window[i].Target() <= window'[i].Target()
    requires Timespan(window) <= Timespan(window')
    ensures NextBits(window, powLimit) <= NextBits(window', powLimit)
  {
    var r, r' := Reverse(Recent(window)), Reverse(Recent(window'));
    forall i | 0 <= i < |r| ensures Targets(r)[i] <= Targets(r')[i] {
      assert r[i] == window[|window| - 1 - i] && r'[i] == window'[|window| - 1 - i];
    }
    MeanMonotone(Targets(r), Targets(r'));
    var x, y := Mean(window), Mean(window');
    var s, s' := Clamped(Timespan(window)), Clamped(Timespan(window'));
    ScaleMonotone(x, s, y, s');
    EncodeMonotone(NewTarget(window, powLimit), NewTarget(window', powLimit));
  }

  lemma ScaleMonotone(x: nat, s: nat, y: nat, s': nat)
    requires x <= y && s <= s'
    ensures Scale(x, s) <= Scale(y, s')
  {
    MulGrows(x, y, s);
    MulGrows(s, s', y);
    assert x * s <= y * s == s * y && s' * y == y * s';
    DivideMonotone(x * s, y * s', TARGET_TIMESPAN);
  }

  // ------------------------------------------------------------------ equilibrium

  predicate Uniform(window: seq<Block>, nbits: nat)
    requires |window| >= PAST_BLOCKS
  {
    forall i :: |window| - PAST_BLOCKS <= i < |window| ==> window[i].nbits == nbits
  }

  lemma UniformTarget(window: seq<Block>, nbits: nat)
    requires |window| >= PAST_BLOCKS && Uniform(window, nbits)
    ensures Mean(window) == CompactToTarget(nbits)
  {
    var t := CompactToTarget(nbits);
    WindowMeanBetween(window, t, t);
  }

  /**
   A uniform window at or below the limit that spans exactly 2880 seconds is a fixed
   point of the rule exactly when its code is canonical.
   */
  lemma FixedPoint(window: seq<Block>, powLimit: nat, nbits: nat)
    requires |window| >= PAST_BLOCKS && Uniform(window, nbits)
    requires CompactToTarget(nbits) <= powLimit && Timespan(window) == TARGET_TIMESPAN
    ensures NextBits(window, powLimit) == nbits <==> Canonical(nbits)
  {
    hide Timespan, Mean, TargetToCompact, CompactToTarget, Canonical;
    UniformTarget(window, nbits);
    CanonicalExactly(nbits);
  }

  /**
   Blocks arriving exactly on the 120-second schedule are not a fixed point: 24 blocks
   span 23 intervals, so the target is cut to 23/24 of what it was.
   */
  lemma OnScheduleTightens(window: seq<Block>, powLimit: nat, nbits: nat)
    requires |window| >= PAST_BLOCKS && Uniform(window, nbits)
    requires 0 < CompactToTarget(nbits) <= powLimit
    requires forall i :: |window| - PAST_BLOCKS < i < |window| ==>
               window[i].time == window[i - 1].time + TARGET_SPACING
    ensures NewTarget(window, powLimit) == CompactToTarget(nbits) * 23 / 24
    ensures CompactToTarget(NextBits(window, powLimit)) < CompactToTarget(nbits)
  {
    UniformTarget(window, nbits);
    EvenSpan(window, PAST_BLOCKS - 1);
    var t := CompactToTarget(nbits);
    assert t * 2760 / 2880 == t * 23 / 24;
    EncodeTruncates(NewTarget(window, powLimit));
  }

  lemma {:induction false} EvenSpan(window: seq<Block>, k: nat)
    requires |window| >= PAST_BLOCKS > k
    requires forall i :: |window| - PAST_BLOCKS < i < |window| ==>
               window[i].time == window[i - 1].time + TARGET_SPACING
    ensures window[|window| - PAST_BLOCKS + k].time
         == window[|window| - PAST_BLOCKS].time + k * TARGET_SPACING
  {
    if k > 0 { EvenSpan(window, k - 1); }
  }

  // ------------------------------------------------------------------ recovery

  /** The hash rate has left: every block from `start` on is found at the upper clamp or later. */
  predicate SlowChain(chain: seq<Block>, start: nat, powLimit: nat) {
    PAST_BLOCKS <= start &&
    forall i :: start <= i < |chain| ==>
      chain[i].nbits == NextBits(chain[..i], powLimit) &&
      Timespan(chain[..i]) >= TARGET_TIMESPAN * CLAMP
  }

  /** The target the limit encodes to: the easiest a block can be. */
  function Ceiling(powLimit: nat): nat { CompactToTarget(TargetToCompact(powLimit)) }

  predicate AtLeast(window: seq<Block>, lo: nat)
    requires |window| >= PAST_BLOCKS
  {
    forall i :: |window| - PAST_BLOCKS <= i < |window| ==> lo <= window[i].Target()
  }

  /** At the clamp, the next target at least doubles the window's smallest, up to the ceiling. */
  lemma SlowStep(window: seq<Block>, powLimit: nat, lo: nat)
    requires |window| >= PAST_BLOCKS && AtLeast(window, lo)
    requires Timespan(window) >= TARGET_TIMESPAN * CLAMP
    ensures CompactToTarget(NextBits(window, powLimit)) >= Min(2 * lo, Ceiling(powLimit))
    ensures lo >= Ceiling(powLimit) ==> NextBits(window, powLimit) == TargetToCompact(powLimit)
  {
    var hi := Largest(window);
    WindowMeanBetween(window, lo, hi);
    SlowNewTarget(window, powLimit);
    SlowTarget(NewTarget(window, powLimit), powLimit, Mean(window), lo);
  }

  lemma SlowNewTarget(window: seq<Block>, powLimit: nat)
    requires |window| >= PAST_BLOCKS && Timespan(window) >= TARGET_TIMESPAN * CLAMP
    ensures NewTarget(window, powLimit) == Min(3 * Mean(window), powLimit)
  {
    hide Mean;
    TripleScale(Mean(window));
  }

  lemma TripleScale(avg: nat)
    ensures Scale(avg, 8640) == 3 * avg
  {}

  /** Truncation costs far less than the third doubling leaves over. */
  lemma SlowTarget(v: nat, powLimit: nat, avg: nat, lo: nat)
    requires v == Min(3 * avg, powLimit) && lo <= avg
    ensures CompactToTarget(TargetToCompact(v)) >= Min(2 * lo, Ceiling(powLimit))
    ensures lo >= Ceiling(powLimit) ==> v == powLimit
  {
    var c := Ceiling(powLimit);
    EncodeTruncates(powLimit);
    assert powLimit <= 3 * c;
    var d := CompactToTarget(TargetToCompact(v));
    EncodeTruncates(v);
    assert v <= d + d;
    assert 2 * v <= 3 * d;
  }

  lemma Largest(window: seq<Block>) returns (hi: nat)
    requires |window| >= PAST_BLOCKS
    ensures forall i :: |window| - PAST_BLOCKS <= i < |window| ==> window[i].Target() <= hi
  {
    hi := 0;
    for k := |window| - PAST_BLOCKS to |window|
      invariant forall i :: |window| - PAST_BLOCKS <= i < k ==> window[i].Target() <= hi
    {
      if hi < window[k].Target() { hi := window[k].Target(); }
    }
  }

  /** The smallest target in the window after `k` rounds of 24 slow blocks. */
  function Floor(m: nat, k: nat, powLimit: nat): nat { Min(Pow2(k) * m, Ceiling(powLimit)) }

  /**
   Every 24 slow blocks the smallest target in the window at least doubles, until it
   reaches the ceiling: block `i` of round `k` is at least Min(2^k * m, ceiling).
   */
  lemma {:induction false} SlowRounds(chain: seq<Block>, start: nat, powLimit: nat, m: nat, k: nat, i: nat)
    requires SlowChain(chain, start, powLimit)
    requires start <= |chain| && AtLeast(chain[..start], m)
    requires start + PAST_BLOCKS * k <= i + PAST_BLOCKS && i < |chain| && start - PAST_BLOCKS <= i
    ensures chain[i].Target() >= Floor(m, k, powLimit)
    decreases i
  {
    if i < start {
      assert chain[..start][i] == chain[i];
      assert k == 0;
    } else {
      var j := if k == 0 then 0 else k - 1;
      var lo := Floor(m, j, powLimit);
      var window := chain[..i];
      forall h | i - PAST_BLOCKS <= h < i ensures lo <= window[h].Target() {
        SlowRounds(chain, start, powLimit, m, j, h);
      }
      SlowStep(window, powLimit, lo);
      if k > 0 { DoubleFloor(m, j); }
    }
  }

  lemma DoubleFloor(m: nat, k: nat)
    ensures Pow2(k + 1) * m == 2 * (Pow2(k) * m)
  {}

  /**
   Recovery. From a window whose smallest target is m >= 1, if every later block is
   slow, then after 24 blocks for each doubling from m to the ceiling the chain carries
   exactly the encoded limit on every block.
   */
  lemma Recovers(chain: seq<Block>, start: nat, powLimit: nat, m: nat, k: nat, i: nat)
    requires SlowChain(chain, start, powLimit)
    requires start <= |chain| && AtLeast(chain[..start], m)
    requires Pow2(k) * m >= Ceiling(powLimit)
    requires start + PAST_BLOCKS * k <= i < |chain|
    ensures chain[i].nbits == TargetToCompact(powLimit)
  {
    var window := chain[..i];
    forall h | i - PAST_BLOCKS <= h < i ensures Ceiling(powLimit) <= window[h].Target() {
      SlowRounds(chain, start, powLimit, m, k, h);
    }
    SlowStep(window, powLimit, Ceiling(powLimit));
  }

  /** The doublings from `m` to the ceiling: the number of bits in their ratio. */
  function Rounds(powLimit: nat, m: nat): nat
    requires m >= 1
  {
    BitLength(Quotient(Ceiling(powLimit), m))
  }

  /** Recovery within 24 blocks for each bit of ceiling / m. */
  lemma RecoveryTime(chain: seq<Block>, start: nat, powLimit: nat, m: nat, i: nat)
    requires SlowChain(chain, start, powLimit)
    requires start <= |chain| && AtLeast(chain[..start], m) && m >= 1
    requires start + PAST_BLOCKS * Rounds(powLimit, m) <= i < |chain|
    ensures chain[i].nbits == TargetToCompact(powLimit)
  {
    RoundsSuffice(powLimit, m);
    Recovers(chain, start, powLimit, m, Rounds(powLimit, m), i);
  }

  lemma RoundsSuffice(powLimit: nat, m: nat)
    requires m >= 1
    ensures Pow2(Rounds(powLimit, m)) * m >= Ceiling(powLimit)
  {
    hide BitLength, Ceiling, Pow2, Quotient;
    BitLengthCovers(Quotient(Ceiling(powLimit), m));
    QuotientCovers(Ceiling(powLimit), m, Pow2(Rounds(powLimit, m)));
  }

  lemma QuotientCovers(c: nat, m: nat, p: nat)
    requires m >= 1 && Quotient(c, m) < p
    ensures p * m >= c
  {
    var q := c / m;
    DivMod(c, m);
    assert (q + 1) * m == q * m + m;
    MulGrows(q + 1, p, m);
  }

  lemma {:induction false} BitLengthCovers(n: nat)
    ensures n < Pow2(BitLength(n))
  {
    if n > 0 { BitLengthCovers(n / 2); }
  }

  /**
   The bound m >= 1 is needed: a window of zero targets stays at zero for ever, however
   slow the blocks are.
   */
  lemma {:induction false} ZeroNeverRecovers(chain: seq<Block>, start: nat, powLimit: nat, i: nat)
    requires SlowChain(chain, start, powLimit)
    requires start <= |chain| && Within(chain[..start], 0, 0)
    requires start - PAST_BLOCKS <= i < |chain|
    ensures chain[i].Target() == 0
    decreases i
  {
    if i < start {
      assert chain[..start][i] == chain[i];
    } else {
      var window := chain[..i];
      forall h | i - PAST_BLOCKS <= h < i ensures window[h].Target() == 0 {
        ZeroNeverRecovers(chain, start, powLimit, h);
      }
      StepBounds(window, powLimit, 0, 0);
    }
  }
}
