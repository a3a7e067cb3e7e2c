/**
 The bounded re-reading of recorded block hashes: the heights near the tip on every run,
 and a rotating slice of the older ones, remembered by a cursor between runs.
 */
module ReorgAudit {
  import opened Arith
  import opened Sets

  const OFFSETS: seq<nat> := [1, 2, 3, 4, 5, 6, 8, 10, 15, 20, 30, 50, 75, 100, 150, 200, 300, 500, 1000]
  const FORGET_AFTER := 5000
  const AUDIT_PER_RUN := 60

  type BlockHash = string

  /** What is kept on disk between runs. */
  datatype Saved = Saved(known: map<nat, BlockHash>, cursor: int)

  function Near(tip: nat): set<nat> { set o: nat | o in OFFSETS && o <= tip :: tip - o }

  /** The other recorded heights that are still remembered. */
  function OldSet(near: set<nat>, tip: nat, known: map<nat, BlockHash>): set<nat> {
    set h | h in known && tip - FORGET_AFTER < h <= tip && h !in near
  }

  function Old(near: set<nat>, tip: nat, known: map<nat, BlockHash>): seq<nat> { Sorted(OldSet(near, tip, known)) }

  /** `(list + list)[start:start + 60]`, where `start` is the cursor within the list. */
  function Slice(list: seq<nat>, cursor: int): seq<nat>
    requires list != []
  {
    var start := cursor % |list|;
    (list + list)[start..Min(start + AUDIT_PER_RUN, 2 * |list|)]
  }

  function SetOf(q: seq<nat>): set<nat> { set x | x in q }

  /** The heights a run re-reads, and the cursor it leaves. */
  function HeightsToCheck(near: set<nat>, tip: nat, known: map<nat, BlockHash>, cursor: int): (set<nat>, int) {
    var list := Old(near, tip, known);
    if list == [] then (near, 0)
    else (near + SetOf(Slice(list, cursor)), (cursor % |list| + AUDIT_PER_RUN) % |list|)
  }

  function Wanted(s: Saved, near: set<nat>, tip: nat): set<nat> { HeightsToCheck(near, tip, s.known, s.cursor).0 }

  /** The recorded heights whose answer is not what was recorded. */
  function Changed(known: map<nat, BlockHash>, answers: map<nat, BlockHash>): set<nat> {
    set h | h in known && h in answers && known[h] != answers[h]
  }

  /** What a run saves, given the node's answers: merged, not replaced. */
  function Next(s: Saved, near: set<nat>, tip: nat, answers: map<nat, BlockHash>): Saved {
    var (wanted, cursor) := HeightsToCheck(near, tip, s.known, s.cursor);
    if wanted == {} then Saved(map[], 0)
    else Saved((map h | h in s.known && h > tip - FORGET_AFTER :: s.known[h]) + answers, cursor)
  }

  // ------------------------------------------------------------------ bounded work

  lemma {:induction false} FewImages(os: seq<nat>, tip: nat)
    ensures |set o: nat | o in os && o <= tip :: tip - o| <= |os|
  {
    var image := set o: nat | o in os && o <= tip :: tip - o;
    if os == [] {
      assert image == {};
    } else {
      FewImages(os[1..], tip);
      var rest := set o: nat | o in os[1..] && o <= tip :: tip - o;
      var first: nat := if os[0] <= tip then tip - os[0] else 0;
      forall h | h in image ensures h in rest + {first} {
        var o: nat :| o in os && o <= tip && h == tip - o;
        assert o == os[0] || o in os[1..];
      }
      SubsetSmaller(image, rest + {first});
    }
  }

  lemma SubsetSmaller(a: set<nat>, b: set<nat>)
    requires a <= b
    ensures |a| <= |b|
  {
    if a != {} {
      var x :| x in a;
      SubsetSmaller(a - {x}, b - {x});
    }
  }

  lemma SetOfSize(q: seq<nat>)
    ensures |SetOf(q)| <= |q|
  {
    if q == [] {
      assert SetOf(q) == {};
    } else {
      SetOfSize(q[1..]);
      assert SetOf(q) == {q[0]} + SetOf(q[1..]);
    }
  }

  /** Whatever is recorded and however long the chain, a run reads at most 79 heights. */
  lemma BoundedWork(s: Saved, tip: nat)
    ensures |Wanted(s, Near(tip), tip)| <= 79
  {
    FewImages(OFFSETS, tip);
    AtMostSixtyMore(s, Near(tip), tip);
  }

  lemma AtMostSixtyMore(s: Saved, near: set<nat>, tip: nat)
    ensures |Wanted(s, near, tip)| <= |near| + AUDIT_PER_RUN
  {
    var list := Old(near, tip, s.known);
    if list != [] {
      SetOfSize(Slice(list, s.cursor));
      UnionSmaller(near, SetOf(Slice(list, s.cursor)));
    }
  }

  lemma UnionSmaller(a: set<nat>, b: set<nat>)
    ensures |a + b| <= |a| + |b|
  {
    assert a + b == a + (b - a) && a !! (b - a);
    SubsetSmaller(b - a, b);
  }

  // ------------------------------------------------------------------ a fixed tip

  /**
   A chain that stands still: its tip, the heights near it that every run reads, the block
   at each height, and the heights each run gets an answer for. A run in which the reading
   itself fails saves nothing and is not counted. What `near` holds comes in at the end.
   */
  datatype Chain = Chain(near: set<nat>, tip: nat, hash: nat -> BlockHash, heard: nat -> set<nat>)

  /** What run `k` learns: some of what it asked for. */
  function Answers(before: Saved, c: Chain, k: nat): map<nat, BlockHash> {
    map h | h in Wanted(before, c.near, c.tip) && h in c.heard(k) :: c.hash(h)
  }

  /** The state after `k` runs. */
  function After(s: Saved, c: Chain, k: nat): Saved {
    if k == 0 then s
    else
      var before := After(s, c, k - 1);
      Next(before, c.near, c.tip, Answers(before, c, k - 1))
  }

  function ReadOn(s: Saved, c: Chain, k: nat): set<nat> {
    Wanted(After(s, c, k), c.near, c.tip)
  }

  function HeardOn(s: Saved, c: Chain, k: nat): set<nat> { ReadOn(s, c, k) * c.heard(k) }

  /** The heights reported as changed by run number `k`. */
  function ReportedOn(s: Saved, c: Chain, k: nat): set<nat> {
    var before := After(s, c, k);
    Changed(before.known, Answers(before, c, k))
  }

  predicate Recorded(s: Saved, c: Chain, h: nat) { h in s.known && c.tip - FORGET_AFTER < h <= c.tip }

  /** One run leaves the rotating list as it is and moves the cursor sixty places along it. */
  lemma StepStands(before: Saved, c: Chain, k: nat)
    requires c.near != {}
    ensures var n := |Old(c.near, c.tip, before.known)|;
            var after := Next(before, c.near, c.tip, Answers(before, c, k));
            && OldSet(c.near, c.tip, after.known) == OldSet(c.near, c.tip, before.known)
            && (n > 0 ==> after.cursor == (before.cursor % n + AUDIT_PER_RUN) % n)
  {
    hide Slice, Sorted;
    WantedIsLocal(before, c);
  }

  /** The rotating list never changes, and the cursor moves sixty places a run. */
  lemma {:induction false} ListStands(s: Saved, c: Chain, k: nat)
    requires c.near != {}
    ensures var n := |Old(c.near, c.tip, s.known)|;
            && OldSet(c.near, c.tip, After(s, c, k).known) == OldSet(c.near, c.tip, s.known)
            && (n > 0 ==> After(s, c, k).cursor % n == (s.cursor + AUDIT_PER_RUN * k) % n)
  {
    hide Next, Wanted, OldSet, Sorted, Answers;
    if k > 0 {
      ListStands(s, c, k - 1);
      var before := After(s, c, k - 1);
      var n := |Old(c.near, c.tip, s.known)|;
      StepStands(before, c, k - 1);
      if n > 0 { CursorStep(before.cursor, s.cursor + AUDIT_PER_RUN * (k - 1), n); }
    }
  }

  lemma CursorStep(cursor: int, turned: int, n: nat)
    requires n > 0 && cursor % n == turned % n
    ensures (cursor % n + AUDIT_PER_RUN) % n % n == (turned + AUDIT_PER_RUN) % n
  {
    var r := turned % n;
    var q := (r + AUDIT_PER_RUN) / n;
    DivMod(turned, n);
    DivMod(r + AUDIT_PER_RUN, n);
    assert turned + AUDIT_PER_RUN == (turned / n + q) * n + (r + AUDIT_PER_RUN) % n by {
      assert (turned / n + q) * n == turned / n * n + q * n;
    }
    DivModIs(turned / n + q, (r + AUDIT_PER_RUN) % n, n);
    DivModIs(0, (r + AUDIT_PER_RUN) % n, n);
  }

  /** A run reads only heights near the tip and heights of the list. */
  lemma WantedIsLocal(s: Saved, c: Chain)
    ensures c.near <= Wanted(s, c.near, c.tip) <= c.near + OldSet(c.near, c.tip, s.known)
  {
    var list := Old(c.near, c.tip, s.known);
    if list != [] {
      forall x | x in SetOf(Slice(list, s.cursor)) ensures x in OldSet(c.near, c.tip, s.known) {
        assert x in list + list;
      }
    }
  }

  /** One run keeps every recorded height, and refreshes those it gets an answer for. */
  lemma StepFile(before: Saved, c: Chain, k: nat, h: nat)
    requires c.near != {} && Recorded(before, c, h)
    ensures var after := Next(before, c.near, c.tip, Answers(before, c, k));
            && Recorded(after, c, h)
            && after.known[h] == if h in Answers(before, c, k) then c.hash(h) else before.known[h]
  {
    WantedIsLocal(before, c);
    hide Slice, Sorted;
  }

  /** What is on file for a recorded height: the chain's hash once a run got it, the earlier one until then. */
  lemma {:induction false} OnFile(s: Saved, c: Chain, k: nat, h: nat)
    requires c.near != {} && Recorded(s, c, h)
    ensures Recorded(After(s, c, k), c, h)
    ensures After(s, c, k).known[h]
         == if exists j: nat :: j < k && h in HeardOn(s, c, j) then c.hash(h) else s.known[h]
  {
    hide Next, Wanted;
    if k > 0 {
      OnFile(s, c, k - 1, h);
      var before := After(s, c, k - 1);
      StepFile(before, c, k - 1, h);
      assert h in HeardOn(s, c, k - 1) <==> h in Answers(before, c, k - 1);
    }
  }

  /** Where the cursor has to be for run `j` to read position `p` of the list. */
  lemma SliceReaches(list: seq<nat>, cursor: int, d: nat, p: nat)
    requires list != [] && p < |list| && d < AUDIT_PER_RUN && d < |list|
    requires (cursor % |list| + d) % |list| == p
    ensures list[p] in Slice(list, cursor)
  {
    var n := |list|;
    var start := cursor % n;
    var at := start + d;
    assert (list + list)[at] == list[p] by {
      if at < n { DivModIs(0, at, n); } else { DivModIs(1, at - n, n); }
    }
    assert Slice(list, cursor)[d] == (list + list)[at];
  }

  function Runs(n: nat): nat { (n + AUDIT_PER_RUN - 1) / AUDIT_PER_RUN }

  lemma SliceIsRead(before: Saved, c: Chain, h: nat)
    requires var list := Old(c.near, c.tip, before.known); list != [] && h in Slice(list, before.cursor)
    ensures h in Wanted(before, c.near, c.tip)
  {
    hide Slice, Sorted, OldSet;
  }

  /** The cursor need only stand where sixty places a run would have brought it. */
  lemma TurnedReaches(list: seq<nat>, cursor: int, turned: int, d: nat, p: nat)
    requires list != [] && p < |list| && d < AUDIT_PER_RUN && d < |list|
    requires cursor % |list| == turned % |list| && (turned % |list| + d) % |list| == p
    ensures list[p] in Slice(list, cursor)
  {
    SliceReaches(list, cursor, d, p);
  }

  lemma SameList(s: Saved, c: Chain, k: nat)
    requires c.near != {}
    ensures Old(c.near, c.tip, After(s, c, k).known) == Old(c.near, c.tip, s.known)
  {
    ListStands(s, c, k);
    hide OldSet, Sorted, After;
  }

  lemma ReadAtTurn(s: Saved, c: Chain, j: nat, d: nat, p: nat)
    requires c.near != {} && p < |Old(c.near, c.tip, s.known)|
    requires var n := |Old(c.near, c.tip, s.known)|;
             d < AUDIT_PER_RUN && d < n && ((s.cursor + AUDIT_PER_RUN * j) % n + d) % n == p
    ensures Old(c.near, c.tip, s.known)[p] in ReadOn(s, c, j)
  {
    hide After, Next, Old, OldSet, Slice, Sorted, Wanted;
    SameList(s, c, j);
    ListStands(s, c, j);
    var list, now := Old(c.near, c.tip, s.known), After(s, c, j);
    TurnedReaches(list, now.cursor, s.cursor + AUDIT_PER_RUN * j, d, p);
    SliceIsRead(now, c, list[p]);
  }

  /** The run, out of ceil(n / 60), that reads a given height of the list. */
  lemma RunThatReads(s: Saved, c: Chain, h: nat) returns (j: nat)
    requires c.near != {} && h in OldSet(c.near, c.tip, s.known)
    ensures j < Runs(|Old(c.near, c.tip, s.known)|) && h in ReadOn(s, c, j)
  {
    hide *;
    var p := PositionOf(s, c, h);
    var d: nat;
    j, d := TurnsTo(s.cursor, p, |Old(c.near, c.tip, s.known)|);
    ReadAtTurn(s, c, j, d, p);
  }

  lemma PositionOf(s: Saved, c: Chain, h: nat) returns (p: nat)
    requires h in OldSet(c.near, c.tip, s.known)
    ensures var list := Old(c.near, c.tip, s.known); p < |list| && list[p] == h
  {
    var list := Old(c.near, c.tip, s.known);
    assert h in list;
    p :| 0 <= p < |list| && list[p] == h;
  }

  /** How many runs, and how far into the slice of the next, until the cursor comes to a position. */
  lemma TurnsTo(cursor: int, p: nat, n: nat) returns (j: nat, d: nat)
    requires p < n
    ensures j < Runs(n) && d < AUDIT_PER_RUN && d < n
    ensures ((cursor + AUDIT_PER_RUN * j) % n + d) % n == p
  {
    var distance := (p - cursor) % n;
    j, d := distance / AUDIT_PER_RUN, distance % AUDIT_PER_RUN;
    Landing(cursor, p, j, d, n);
  }

  lemma Landing(cursor: int, p: nat, j: nat, d: nat, n: nat)
    requires n > 0 && p < n && AUDIT_PER_RUN * j + d == (p - cursor) % n
    ensures ((cursor + AUDIT_PER_RUN * j) % n + d) % n == p
  {
    var turned := cursor + AUDIT_PER_RUN * j;
    DivMod(p - cursor, n);
    DivMod(turned, n);
    var q := (p - cursor) / n;
    assert turned + d == p - q * n;
    var r := turned % n + d;
    assert r == (0 - q - turned / n) * n + p by {
      assert (0 - q - turned / n) * n == 0 - q * n - turned / n * n;
    }
    DivModIs(0 - q - turned / n, p, n);
  }

  /** A changed hash is reported exactly by the first run that gets an answer for it: failed reads cost time only. */
  lemma ReportedAtFirstAnswer(s: Saved, c: Chain, h: nat, k: nat)
    requires c.near != {} && Recorded(s, c, h) && s.known[h] != c.hash(h)
    ensures h in ReportedOn(s, c, k) <==> h in HeardOn(s, c, k) && forall j: nat :: j < k ==> h !in HeardOn(s, c, j)
  {
    OnFile(s, c, k, h);
    hide After, Wanted;
    assert h in HeardOn(s, c, k) <==> h in Answers(After(s, c, k), c, k);
  }

  ghost predicate AllHeard(s: Saved, c: Chain) { forall k: nat :: ReadOn(s, c, k) <= c.heard(k) }

  /**
   Detection. On a chain that stands still and answers every read, every recorded height of
   the last 5000 whose hash changed is reported by exactly one run, and that run is among
   the first max(1, ceil(n / 60)), where n is the length of the rotating list.
   */
  lemma ReportedExactlyOnce(s: Saved, c: Chain, h: nat) returns (j: nat)
    requires c.near != {} && Recorded(s, c, h) && s.known[h] != c.hash(h) && AllHeard(s, c)
    ensures j < Runs(|Old(c.near, c.tip, s.known)|) || j == 0
    ensures h in ReportedOn(s, c, j)
    ensures forall i: nat :: i != j ==> h !in ReportedOn(s, c, i)
  {
    j := FirstRead(s, c, h);
    hide ReadOn, ReportedOn, Old;
    forall i: nat ensures h in ReportedOn(s, c, i) <==> i == j {
      ReportedAtFirstAnswer(s, c, h, i);
      assert ReadOn(s, c, i) <= c.heard(i) && ReadOn(s, c, j) <= c.heard(j);
      if i > j { assert h in HeardOn(s, c, j); }
    }
  }

  lemma FirstRead(s: Saved, c: Chain, h: nat) returns (j: nat)
    requires c.near != {} && Recorded(s, c, h)
    ensures j < Runs(|Old(c.near, c.tip, s.known)|) || j == 0
    ensures h in ReadOn(s, c, j)
    ensures forall i: nat :: i < j ==> h !in ReadOn(s, c, i)
  {
    hide After, Next, Slice, Sorted;
    var top := 0;
    if h !in c.near {
      top := RunThatReads(s, c, h);
    } else {
      WantedIsLocal(s, c);
      assert h in ReadOn(s, c, 0);
    }
    j := 0;
    while h !in ReadOn(s, c, j)
      invariant j <= top
      invariant forall i: nat :: i < j ==> h !in ReadOn(s, c, i)
      decreases top - j
    {
      j := j + 1;
    }
  }

  /** A height whose hash did not change is never reported. */
  lemma NoFalseReport(s: Saved, c: Chain, h: nat, k: nat)
    requires c.near != {} && Recorded(s, c, h) && s.known[h] == c.hash(h)
    ensures h !in ReportedOn(s, c, k)
  {
    OnFile(s, c, k, h);
  }

  // ------------------------------------------------------------------ the heights near the tip

  /** The heights read on every run are those just so far below the tip: the last six, then ever fewer. */
  lemma NearExactly(tip: nat, h: nat)
    ensures h in Near(tip) <==>
              tip - h in {1, 2, 3, 4, 5, 6, 8, 10, 15, 20, 30, 50, 75, 100, 150, 200, 300, 500, 1000}
  {
    if h in Near(tip) { var o: nat :| o in OFFSETS && o <= tip && h == tip - o; }
    if tip - h in OFFSETS { assert (tip - h) as nat in OFFSETS; }
  }

  /**
   Whatever is on file and wherever the cursor stands: each of the last six blocks below
   the tip is read, and so is the block at every other listed distance; nothing else is
   but recorded heights of the last 5000.
   */
  lemma AlwaysRead(s: Saved, tip: nat, h: nat)
    ensures h < tip <= h + 6 ==> h in Wanted(s, Near(tip), tip)
    ensures tip - h in {8, 10, 15, 20, 30, 50, 75, 100, 150, 200, 300, 500, 1000} ==> h in Wanted(s, Near(tip), tip)
    ensures h in Wanted(s, Near(tip), tip) && tip - h !in OFFSETS ==> h in s.known && tip - FORGET_AFTER < h <= tip
  {
    NearExactly(tip, h);
    NearIsWanted(s, Near(tip), tip);
    hide Near, Wanted, Old;
  }

  lemma NearIsWanted(s: Saved, near: set<nat>, tip: nat)
    ensures near <= Wanted(s, near, tip) <= near + OldSet(near, tip, s.known)
  {
    WantedIsLocal(s, Chain(near, tip, _ => "", _ => {}));
  }

  /** A rewrite of one of the last six blocks, or at another listed distance, is reported by the very next run. */
  lemma ReportedAtOnce(s: Saved, c: Chain, h: nat)
    requires c.near == Near(c.tip) && h in s.known && s.known[h] != c.hash(h)
    requires h < c.tip <= h + 6 || c.tip - h in {8, 10, 15, 20, 30, 50, 75, 100, 150, 200, 300, 500, 1000}
    ensures h in ReportedOn(s, c, 0) <==> h in c.heard(0)
  {
    AlwaysRead(s, c.tip, h);
    hide Wanted;
  }

  /** After a run the file holds what was answered, and of the rest exactly what is not over 5000 below the tip. */
  lemma FileAfterRun(s: Saved, c: Chain, h: nat)
    requires c.near == Near(c.tip) && c.tip >= 1
    ensures h in After(s, c, 1).known <==>
              (h in s.known && h > c.tip - FORGET_AFTER) || (h in Wanted(s, c.near, c.tip) && h in c.heard(0))
    ensures h in After(s, c, 1).known ==> h > c.tip - FORGET_AFTER
  {
    OldIsRecent(c.near, c.tip, s.known, h);
    NearExactly(c.tip, c.tip - 1);
    WantedIsLocal(s, c);
    if h in c.near { NearExactly(c.tip, h); }
    hide Near, OldSet, HeightsToCheck, Next;
    NextHas(s, c.near, c.tip, Answers(s, c, 0), h);
    assert After(s, c, 0) == s;
  }

  lemma OldIsRecent(near: set<nat>, tip: nat, known: map<nat, BlockHash>, h: nat)
    ensures h in OldSet(near, tip, known) ==> h > tip - FORGET_AFTER
  {}

  lemma NextHas(s: Saved, near: set<nat>, tip: nat, answers: map<nat, BlockHash>, h: nat)
    requires Wanted(s, near, tip) != {}
    ensures h in Next(s, near, tip, answers).known <==> (h in s.known && h > tip - FORGET_AFTER) || h in answers
  {
    hide HeightsToCheck;
  }

  // ------------------------------------------------------------------ how long a round takes

  /** The heights of the list read by the first `k` runs. */
  function Covered(s: Saved, c: Chain, k: nat): set<nat> {
    if k == 0 then {}
    else Covered(s, c, k - 1) + ReadOn(s, c, k - 1) * OldSet(c.near, c.tip, s.known)
  }

  lemma {:induction false} CoveredHas(s: Saved, c: Chain, j: nat, k: nat, h: nat)
    requires j < k && h in ReadOn(s, c, j) && h in OldSet(c.near, c.tip, s.known)
    ensures h in Covered(s, c, k)
  {
    hide Next, HeightsToCheck;
    if j < k - 1 { CoveredHas(s, c, j, k - 1, h); }
  }

  lemma OneSlice(before: Saved, c: Chain)
    ensures |Wanted(before, c.near, c.tip) * OldSet(c.near, c.tip, before.known)| <= AUDIT_PER_RUN
  {
    var list := Old(c.near, c.tip, before.known);
    var read := Wanted(before, c.near, c.tip) * OldSet(c.near, c.tip, before.known);
    if list == [] {
      assert OldSet(c.near, c.tip, before.known) == {};
      assert read == {};
    } else {
      SetOfSize(Slice(list, before.cursor));
      assert read <= SetOf(Slice(list, before.cursor));
      SubsetSmaller(read, SetOf(Slice(list, before.cursor)));
    }
  }

  lemma {:induction false} CoveredSize(s: Saved, c: Chain, k: nat)
    requires c.near != {}
    ensures |Covered(s, c, k)| <= AUDIT_PER_RUN * k
  {
    hide After, Wanted, Old, OldSet;
    if k > 0 {
      CoveredSize(s, c, k - 1);
      assert |ReadOn(s, c, k - 1) * OldSet(c.near, c.tip, s.known)| <= AUDIT_PER_RUN by {
        ListStands(s, c, k - 1);
        OneSlice(After(s, c, k - 1), c);
      }
      UnionSmaller(Covered(s, c, k - 1), ReadOn(s, c, k - 1) * OldSet(c.near, c.tip, s.known));
    }
  }

  /**
   The whole list is re-read within `k` runs exactly when it has at most 60k heights. An
   hour of runs two minutes apart is 30 runs, so "within the hour" holds up to 1800
   heights and not for the 5000 that can be on file.
   */
  lemma RoundTime(s: Saved, c: Chain, k: nat)
    requires c.near != {}
    ensures OldSet(c.near, c.tip, s.known) <= Covered(s, c, k) <==> |Old(c.near, c.tip, s.known)| <= AUDIT_PER_RUN * k
  {
    var n := |Old(c.near, c.tip, s.known)|;
    if OldSet(c.near, c.tip, s.known) <= Covered(s, c, k) {
      CoveredSize(s, c, k);
      SubsetSmaller(OldSet(c.near, c.tip, s.known), Covered(s, c, k));
    }
    if n <= AUDIT_PER_RUN * k {
      forall h | h in OldSet(c.near, c.tip, s.known) ensures h in Covered(s, c, k) {
        var j := RunThatReads(s, c, h);
        assert Runs(n) <= k;
        CoveredHas(s, c, j, k, h);
      }
    }
  }

  function Upto(n: nat): (s: set<nat>)
    ensures |s| == n && forall h: nat :: h in s <==> h < n
  {
    if n == 0 then {} else Upto(n - 1) + {n - 1}
  }

  lemma AllButFew(a: set<nat>, b: set<nat>)
    ensures |a - b| >= |a| - |b|
  {
    assert a <= (a - b) + b;
    SubsetSmaller(a, (a - b) + b);
    UnionSmaller(a - b, b);
  }

  lemma LongList(s: Saved, c: Chain, n: nat)
    requires c.tip + 1 == n <= FORGET_AFTER && s.known.Keys == Upto(n)
    ensures |Old(c.near, c.tip, s.known)| >= n - |c.near|
  {
    hide Sorted;
    AllButFew(Upto(n), c.near);
    assert OldSet(c.near, c.tip, s.known) == Upto(n) - c.near;
  }

  lemma RoundTooShort(s: Saved, c: Chain, n: nat, k: nat)
    requires c.tip + 1 == n <= FORGET_AFTER && s.known.Keys == Upto(n) && c.near != {}
    requires n - |c.near| > AUDIT_PER_RUN * k
    ensures !(OldSet(c.near, c.tip, s.known) <= Covered(s, c, k))
  {
    LongList(s, c, n);
    hide Old, OldSet, Covered, Upto;
    RoundTime(s, c, k);
  }

  lemma NearTheTip(tip: nat)
    requires tip >= 1
    ensures Near(tip) != {} && |Near(tip)| <= 19
  {
    FewImages(OFFSETS, tip);
    assert OFFSETS[0] in OFFSETS && tip - OFFSETS[0] in Near(tip);
  }

  /** A chain of 1820 blocks, all on file: thirty runs, an hour of them, leave some of the list unread. */
  lemma HourIsTooShort(s: Saved, c: Chain)
    requires c.tip == 1819 && c.near == Near(c.tip) && s.known.Keys == Upto(c.tip + 1)
    ensures !(OldSet(c.near, c.tip, s.known) <= Covered(s, c, 30))
  {
    NearTheTip(c.tip);
    hide Near, OldSet, Covered, Upto;
    RoundTooShort(s, c, c.tip + 1, 30);
  }
}
