/**
 Where the recorded chain and the chain now seen part company: a bisection over sparse
 recorded heights, and the depth quoted from the bracket it ends with.
 */
module ForkBracket {
  import opened Bytes
  import opened Options
  import opened ReorgAudit
  import opened Sets

  /** The node's answer for one height. A read that fails outright raises. */
  datatype Answer = Is(hash: BlockHash) | Nothing | Raises

  /** `m in got and got[m] == known[m]` */
  predicate Matches(read: nat -> Answer, known: map<nat, BlockHash>, h: nat) {
    h in known && read(h) == Is(known[h])
  }

  function Between(known: map<nat, BlockHash>, low: nat, high: nat): set<nat> {
    set h | h in known && low < h < high
  }

  /** What a finished bisection shows: nothing recorded is left between `lo` and `hi`. */
  predicate IsBracket(read: nat -> Answer, known: map<nat, BlockHash>,
                      matching: nat, differing: nat, lo: nat, hi: nat) {
    && matching <= lo < hi <= differing
    && Between(known, lo, hi) == {}
    && (lo == matching || Matches(read, known, lo))
    && (hi == differing || (hi in known && !Matches(read, known, hi) && !read(hi).Raises?))
  }

  /** `fork_bracket`: `None` when one of its reads raised. */
  method Bisect(read: nat -> Answer, known: map<nat, BlockHash>, matching: nat, differing: nat)
    returns (bracket: Option<(nat, nat)>, asked: nat)
    requires matching < differing
    ensures asked <= BitLength(|Between(known, matching, differing)|)
    ensures bracket.Some? ==> IsBracket(read, known, matching, differing, bracket.value.0, bracket.value.1)
    ensures bracket.None? ==> exists h :: h in Between(known, matching, differing) && read(h).Raises?
  {
    hide Sorted, BitLength, Between;
    var lo, hi := matching, differing;
    var pool := Sorted(Between(known, lo, hi));
    asked := 0;
    while pool != []
      invariant matching <= lo < hi <= differing
      invariant Lists(pool, Between(known, lo, hi))
      invariant lo == matching || Matches(read, known, lo)
      invariant hi == differing || (hi in known && !Matches(read, known, hi) && !read(hi).Raises?)
      invariant asked + BitLength(|pool|) <= BitLength(|Between(known, matching, differing)|)
      decreases |pool|
    {
      var mid := |pool| / 2;
      var m := pool[mid];
      HalvesAreSmaller(|pool|);
      Halve(known, matching, differing, lo, hi, pool, mid);
      if read(m).Raises? {
        return None, asked + 1;
      }
      if Matches(read, known, m) {
        lo, pool := m, pool[mid + 1..];
      } else {
        hi, pool := m, pool[..mid];
      }
      asked := asked + 1;
    }
    EmptyPool(pool, Between(known, lo, hi));
    bracket := Some((lo, hi));
  }

  /** `pool` is the heights of `s`, in order. */
  ghost predicate Lists(pool: seq<nat>, s: set<nat>) { Ascending(pool) && forall h :: h in pool <==> h in s }

  /** In a sorted list the part after a position holds exactly the larger elements, the part before the smaller. */
  lemma Halve(known: map<nat, BlockHash>, matching: nat, differing: nat, lo: nat, hi: nat, pool: seq<nat>, mid: nat)
    requires Lists(pool, Between(known, lo, hi)) && mid < |pool|
    ensures pool[mid] in known && lo < pool[mid] < hi
    ensures matching <= lo && hi <= differing ==> pool[mid] in Between(known, matching, differing)
    ensures Lists(pool[mid + 1..], Between(known, pool[mid], hi))
    ensures Lists(pool[..mid], Between(known, lo, pool[mid]))
  {
    var m := pool[mid];
    assert m in pool;
    forall h | h in Between(known, m, hi) ensures h in pool[mid + 1..] {
      assert h in Between(known, lo, hi);
      var i :| 0 <= i < |pool| && pool[i] == h;
      assert pool[mid + 1..][i - mid - 1] == h;
    }
    forall h | h in Between(known, lo, m) ensures h in pool[..mid] {
      assert h in Between(known, lo, hi);
      var i :| 0 <= i < |pool| && pool[i] == h;
      assert pool[..mid][i] == h;
    }
    forall h | h in pool[mid + 1..] ensures h in Between(known, m, hi) { assert h in pool; }
    forall h | h in pool[..mid] ensures h in Between(known, lo, m) { assert h in pool; }
  }

  lemma EmptyPool(pool: seq<nat>, s: set<nat>)
    requires Lists(pool, s) && pool == []
    ensures s == {}
  {
    forall h ensures h !in s { assert h in pool <==> h in s; }
  }

  lemma {:induction false} BitLengthMonotone(a: nat, b: nat)
    requires a <= b
    ensures BitLength(a) <= BitLength(b)
  {
    if a > 0 { BitLengthMonotone(a / 2, b / 2); }
  }

  lemma HalvesAreSmaller(n: nat)
    requires n > 0
    ensures 1 + BitLength(n / 2) == BitLength(n)
    ensures 1 + BitLength(n - n / 2 - 1) <= BitLength(n)
  {
    BitLengthMonotone(n - n / 2 - 1, n / 2);
  }

  // ------------------------------------------------------------------ the report

  /** What the alarm says about how deep the rewrite went. */
  datatype Claim = Exactly(depth: int) | AtLeast(depth: int, deepest: int)

  predicate Covers(claim: Claim, depth: int) {
    match claim
    case Exactly(d) => depth == d
    case AtLeast(d, worst) => d <= depth <= worst
  }

  function StillGood(known: map<nat, BlockHash>, now: map<nat, BlockHash>, below: nat): set<nat> {
    set h | h in known && h in now && h < below && known[h] == now[h]
  }

  /** The wording, from a bracket and the tip of the last run; a tip of 0 asked as no tip. */
  function Phrase(prevTip: nat, changes: nat, floor: Option<nat>, shallowest: nat): Claim {
    var depth := if prevTip != 0 then prevTip - shallowest + 1 else changes;
    if prevTip != 0 && floor.Some? && prevTip - floor.value != 0 && prevTip - floor.value != depth
    then AtLeast(depth, prevTip - floor.value)
    else Exactly(depth)
  }

  /** How the bracket behind a report was obtained. */
  predicate Located(read: nat -> Answer, known: map<nat, BlockHash>, now: map<nat, BlockHash>,
                    floor: Option<nat>, shallowest: nat)
    requires Changed(known, now) != {}
  {
    var first := MinOf(Changed(known, now));
    var good := StillGood(known, now, first);
    if floor.Some? then
      good != {} && IsBracket(read, known, MaxOf(good), first, floor.value, shallowest)
    else
      && shallowest == first
      && (good == {} || exists h :: h in Between(known, MaxOf(good), first) && read(h).Raises?)
  }

  /** The comparison in `check`, once the heights of this run have been read. */
  method Compare(read: nat -> Answer, known: map<nat, BlockHash>, prevTip: nat, now: map<nat, BlockHash>)
    returns (claim: Option<Claim>, floor: Option<nat>, shallowest: nat)
    ensures claim.None? <==> Changed(known, now) == {}
    ensures claim.Some? ==> Located(read, known, now, floor, shallowest)
    ensures claim.Some? ==> claim.value == Phrase(prevTip, |Changed(known, now)|, floor, shallowest)
    ensures claim.Some? && prevTip == 0 ==> claim.value == Exactly(|Changed(known, now)|)
  {
    var changed := Changed(known, now);
    floor, shallowest := None, 0;
    if changed == {} {
      return None, floor, shallowest;
    }
    shallowest := MinOf(changed);
    var good := StillGood(known, now, shallowest);
    if good != {} {
      var bracket, _ := Bisect(read, known, MaxOf(good), shallowest);
      if bracket.Some? {
        floor, shallowest := Some(bracket.value.0), bracket.value.1;
      }
    }
    claim := Some(Phrase(prevTip, |changed|, floor, shallowest));
  }

  /** As far as reads succeed, the recorded chain and the chain now seen agree up to `fork` and nowhere above it. */
  ghost predicate ForkedAt(read: nat -> Answer, known: map<nat, BlockHash>, now: map<nat, BlockHash>, fork: int) {
    && (forall h :: h in known && !read(h).Raises? ==> (Matches(read, known, h) <==> h <= fork))
    && (forall h :: h in known && h in now ==> (known[h] == now[h] <==> h <= fork))
  }

  /** The fork lies in the bracket, wherever it is. */
  lemma BracketHoldsFork(read: nat -> Answer, known: map<nat, BlockHash>, now: map<nat, BlockHash>,
                         floor: Option<nat>, shallowest: nat, fork: int)
    requires Changed(known, now) != {} && ForkedAt(read, known, now, fork)
    requires Located(read, known, now, floor, shallowest)
    ensures fork < shallowest
    ensures floor.Some? ==> floor.value <= fork
    ensures floor.Some? ==> StillGood(known, now, MinOf(Changed(known, now))) != {}
    ensures (forall h :: h in known ==> !read(h).Raises?) ==>
              (floor.None? <==> StillGood(known, now, MinOf(Changed(known, now))) == {})
  {
    var first := MinOf(Changed(known, now));
    var good := StillGood(known, now, first);
    assert first in Changed(known, now);
    if good != {} {
      var g := MaxOf(good);
      assert g in good;
    }
  }

  /**
   The quoted depth. With a matching height below the change, what is quoted covers the
   true depth and a single number is the true one - but for one case: when the last tip is
   the bracket's floor, a worst case of 0 reads as none, and the single number left is
   right exactly when the fork is directly under the shallowest change.
   */
  lemma QuotedDepthCoversFork(read: nat -> Answer, known: map<nat, BlockHash>, now: map<nat, BlockHash>,
                              prevTip: nat, floor: Option<nat>, shallowest: nat, fork: int)
    requires Changed(known, now) != {} && ForkedAt(read, known, now, fork) && prevTip != 0
    requires Located(read, known, now, floor, shallowest) && floor.Some?
    ensures var claim := Phrase(prevTip, |Changed(known, now)|, floor, shallowest);
            && (Covers(claim, prevTip - fork) <==> prevTip != floor.value || fork == shallowest - 1)
            && (claim.Exactly? <==> prevTip == floor.value || floor.value + 1 == shallowest)
  {
    BracketHoldsFork(read, known, now, floor, shallowest, fork);
  }

  /**
   And the range is no wider than it has to be: the depths it covers are exactly those of
   the forks that everything on file and everything read allow.
   */
  lemma QuotedRangeIsTight(read: nat -> Answer, known: map<nat, BlockHash>, now: map<nat, BlockHash>,
                           prevTip: nat, floor: Option<nat>, shallowest: nat, fork: int, depth: int)
    requires Changed(known, now) != {} && ForkedAt(read, known, now, fork) && prevTip != 0
    requires Located(read, known, now, floor, shallowest) && floor.Some? && prevTip != floor.value
    ensures Covers(Phrase(prevTip, |Changed(known, now)|, floor, shallowest), depth)
       <==> ForkedAt(read, known, now, prevTip - depth)
  {
    var claim := Phrase(prevTip, |Changed(known, now)|, floor, shallowest);
    var f := prevTip - depth;
    BracketHoldsFork(read, known, now, floor, shallowest, fork);
    if ForkedAt(read, known, now, f) {
      BracketHoldsFork(read, known, now, floor, shallowest, f);
    }
    if floor.value <= f < shallowest { Indistinct(read, known, now, floor.value, shallowest, fork, f); }
    hide ForkedAt, Located;
  }

  /** Nothing recorded between the ends of the bracket tells two forks inside it apart. */
  lemma Indistinct(read: nat -> Answer, known: map<nat, BlockHash>, now: map<nat, BlockHash>,
                   lo: nat, hi: nat, fork: int, other: int)
    requires ForkedAt(read, known, now, fork) && Between(known, lo, hi) == {}
    requires lo <= fork < hi && lo <= other < hi
    ensures ForkedAt(read, known, now, other)
  {
    forall h | h in known ensures h <= fork <==> h <= other {
      assert h !in Between(known, lo, hi);
    }
  }

  /**
   With no bracket, because no height below the change still matches or because a read of
   the bisection raised, the alarm names one depth all the same. It is never too deep, and
   right exactly when the fork is directly under the shallowest changed height.
   */
  lemma UnbracketedDepth(read: nat -> Answer, known: map<nat, BlockHash>, now: map<nat, BlockHash>,
                         prevTip: nat, floor: Option<nat>, shallowest: nat, fork: int)
    requires Changed(known, now) != {} && ForkedAt(read, known, now, fork) && prevTip != 0
    requires Located(read, known, now, floor, shallowest) && floor.None?
    ensures var claim := Phrase(prevTip, |Changed(known, now)|, floor, shallowest);
            claim.Exactly? && claim.depth <= prevTip - fork
            && (Covers(claim, prevTip - fork) <==> fork == MinOf(Changed(known, now)) - 1)
  {
    BracketHoldsFork(read, known, now, floor, shallowest, fork);
  }

  /** One height on file, the tip itself, and a fork five blocks below it: the alarm says one block. */
  lemma LoneHeightUnderstates(read: nat -> Answer, was: BlockHash, isNow: BlockHash)
    requires was != isNow && read(100) == Is(isNow)
    ensures var known, now := map[100 := was], map[100 := isNow];
            && Changed(known, now) != {} && ForkedAt(read, known, now, 95)
            && Located(read, known, now, None, 100)
            && Phrase(100, |Changed(known, now)|, None, 100) == Exactly(1)
  {
    var known, now := map[100 := was], map[100 := isNow];
    assert Changed(known, now) == {100};
    assert MinOf({100}) in {100};
    assert StillGood(known, now, 100) == {};
  }

  /** The last tip is the bracket's floor: the alarm quotes -4 for a fork whose depth below that tip is -1. */
  lemma FloorTipMisquotes(read: nat -> Answer, a: BlockHash, b: BlockHash, c: BlockHash)
    requires b != c && read(5) == Is(a) && read(10) == Is(c)
    ensures var known, now := map[5 := a, 10 := b], map[5 := a, 10 := c];
            && Changed(known, now) != {} && ForkedAt(read, known, now, 6)
            && Located(read, known, now, Some(5), 10)
            && Phrase(5, |Changed(known, now)|, Some(5), 10) == Exactly(-4)
            && !Covers(Exactly(-4), 5 - 6)
  {
    var known, now := map[5 := a, 10 := b], map[5 := a, 10 := c];
    assert Changed(known, now) == {10};
    assert MinOf({10}) in {10};
    assert StillGood(known, now, 10) == {5};
    assert MaxOf({5}) in {5};
    assert Between(known, 5, 10) == {};
  }
}
