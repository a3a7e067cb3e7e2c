/**
 The strided nonce search, as interleaved steps of any number of workers that share
 `found`, `stop` and `counters`. The hash of a nonce is any function; a worker may also
 die of an exception at any point, as a thread does.
 */
module Mining {
  import opened Arith
  import opened Options

  const LAST_NONCE := 0xFFFF_FFFF

  /** Where a worker is: about to test the loop condition, to hash, to take the lock, ... */
  datatype Pc = Start | Check | Hash | Claim | SetStop | Tally | Done | Dead

  datatype Worker = Worker(pc: Pc, nonce: nat, local: nat)

  /** The winning nonce and its hash. */
  datatype Found = Found(nonce: nat, hash: nat)

  /** `tried` is the log of hashed nonces; the program does not keep it. */
  datatype State = State(workers: seq<Worker>, found: Option<Found>, stop: bool,
                         counters: seq<nat>, tried: seq<nat>)

  /** The hash of the header with a nonce, and the number it must not exceed. */
  datatype Puzzle = Puzzle(pow: nat -> nat, target: nat) {
    predicate Meets(nonce: nat) { pow(nonce) <= target }
  }

  function Initial(threads: nat): State {
    State(seq(threads, i requires 0 <= i < threads => Worker(Start, i, 0)), None, false,
          seq(threads, _ => 0), [])
  }

  function Put(s: State, i: nat, w: Worker): State
    requires i < |s.workers|
  {
    s.(workers := s.workers[i := w])
  }

  /** One step of worker `i`; nothing if there is no such worker or it has ended. */
  function Advance(p: Puzzle, s: State, i: nat): (s': State)
    ensures |s'.workers| == |s.workers|
  {
    if i >= |s.workers| || i >= |s.counters| then s else
    var w := s.workers[i];
    match w.pc
    case Start => Put(s, i, w.(pc := Check))
    case Check => Put(s, i, w.(pc := if !s.stop && w.nonce <= LAST_NONCE then Hash else Tally))
    case Hash =>
      var local := w.local + 1;
      var s' := s.(tried := s.tried + [w.nonce],
                   counters := if local % 64 == 0 then s.counters[i := local] else s.counters);
      Put(s', i, if p.Meets(w.nonce) then Worker(Claim, w.nonce, local)
                 else Worker(Check, w.nonce + |s.workers|, local))
    case Claim =>
      Put(if s.found.None? then s.(found := Some(Found(w.nonce, p.pow(w.nonce)))) else s,
          i, w.(pc := SetStop))
    case SetStop => Put(s.(stop := true), i, w.(pc := Tally))
    case Tally => Put(s.(counters := s.counters[i := w.local]), i, w.(pc := Done))
    case Done => s
    case Dead => s
  }

  /** An exception ends worker `i` where it stands. */
  function Die(s: State, i: nat): (s': State)
    ensures |s'.workers| == |s.workers|
  {
    if i < |s.workers| && s.workers[i].pc != Done then Put(s, i, s.workers[i].(pc := Dead)) else s
  }

  datatype Event = Step(worker: nat) | Raise(worker: nat)

  function Apply(p: Puzzle, s: State, e: Event): State {
    match e
    case Step(i) => Advance(p, s, i)
    case Raise(i) => Die(s, i)
  }

  /** The state after any interleaving of events. */
  function Run(p: Puzzle, threads: nat, events: seq<Event>): (s: State)
    ensures |s.workers| == threads
  {
    if events == [] then Initial(threads)
    else Apply(p, Run(p, threads, events[..|events| - 1]), events[|events| - 1])
  }

  // ------------------------------------------------------------------ the invariant

  function SumLocal(ws: seq<Worker>): nat {
    if ws == [] then 0 else SumLocal(ws[..|ws| - 1]) + ws[|ws| - 1].local
  }

  function Sum(ns: seq<nat>): nat {
    if ns == [] then 0 else Sum(ns[..|ns| - 1]) + ns[|ns| - 1]
  }

  predicate NoDuplicates(ns: seq<nat>) {
    forall i, j :: 0 <= i < j < |ns| ==> ns[i] != ns[j]
  }

  /** The `k`-th nonce of worker `i` of `threads`. */
  function Stride(i: nat, k: nat, threads: nat): nat { k * threads + i }

  /** The worker has hashed its first `local` nonces and stands at the next one. */
  predicate Fresh(s: State, i: nat) requires i < |s.workers| {
    s.workers[i].nonce == Stride(i, s.workers[i].local, |s.workers|)
  }

  /** The worker stands at a nonce it has just hashed and found good. */
  predicate Hit(p: Puzzle, s: State, i: nat) requires i < |s.workers| {
    var w := s.workers[i];
    w.local > 0 && w.nonce == Stride(i, w.local - 1, |s.workers|) && p.Meets(w.nonce)
  }

  predicate WorkerOk(p: Puzzle, s: State, i: nat)
    requires i < |s.workers| == |s.counters|
  {
    var w := s.workers[i];
    && s.counters[i] == (if w.pc == Done then w.local else w.local - w.local % 64)
    && (match w.pc
        case Start => Fresh(s, i)
        case Check => Fresh(s, i)
        case Hash => Fresh(s, i) && w.nonce <= LAST_NONCE
        case Claim => Hit(p, s, i)
        case SetStop => Hit(p, s, i) && s.found.Some?
        case Tally => Ended(p, s, i)
        case Done => Ended(p, s, i)
        case Dead => Fresh(s, i) || Hit(p, s, i))
  }

  predicate Ended(p: Puzzle, s: State, i: nat) requires i < |s.workers| {
    || (Hit(p, s, i) && s.found.Some?)
    || (Fresh(s, i) && (s.stop || s.workers[i].nonce > LAST_NONCE))
  }

  /** A nonce was hashed when its worker has come past it. */
  predicate Passed(s: State, n: nat) requires s.workers != [] {
    n / |s.workers| < s.workers[n % |s.workers|].local
  }

  /** A good nonce that was hashed holds its worker there, on the way to claiming it. */
  predicate HitHolds(s: State, n: nat) requires s.workers != [] {
    var w := s.workers[n % |s.workers|];
    w.nonce == n && w.pc !in {Start, Check, Hash} && (w.pc in {SetStop, Tally, Done} ==> s.found.Some?)
  }

  ghost predicate Inv(p: Puzzle, s: State) {
    && s.workers != [] && |s.counters| == |s.workers|
    && (forall i :: 0 <= i < |s.workers| ==> WorkerOk(p, s, i))
    && (forall n: nat :: n in s.tried <==> Passed(s, n))
    && (forall n: nat :: n in s.tried ==> n <= LAST_NONCE)
    && (forall n: nat :: n in s.tried && p.Meets(n) ==> HitHolds(s, n))
    && NoDuplicates(s.tried)
    && |s.tried| == SumLocal(s.workers)
    && (s.stop ==> s.found.Some?)
    && (s.found.Some? ==> var f := s.found.value;
          && f.nonce in s.tried
          && p.Meets(f.nonce)
          && f.hash == p.pow(f.nonce))
  }

  lemma InitialOk(p: Puzzle, threads: nat)
    requires threads > 0
    ensures Inv(p, Initial(threads))
  {
    var s := Initial(threads);
    SumLocalZero(s.workers);
    forall i | 0 <= i < threads ensures WorkerOk(p, s, i) {
      assert Stride(i, 0, threads) == i;
    }
    forall n: nat ensures !Passed(s, n) { DivMod(n, threads); }
  }

  lemma {:induction false} SumLocalZero(ws: seq<Worker>)
    requires forall i :: 0 <= i < |ws| ==> ws[i].local == 0
    ensures SumLocal(ws) == 0
  {
    if ws != [] { SumLocalZero(ws[..|ws| - 1]); }
  }

  lemma {:induction false} SumLocalPut(ws: seq<Worker>, i: nat, w: Worker)
    requires i < |ws|
    ensures SumLocal(ws[i := w]) == SumLocal(ws) - ws[i].local + w.local
  {
    var k := |ws| - 1;
    if i < k {
      SumLocalPut(ws[..k], i, w);
      assert ws[i := w][..k] == ws[..k][i := w];
    } else {
      assert ws[i := w][..k] == ws[..k];
    }
  }

  /** A nonce is in one worker's stride only, at one place. */
  lemma StrideUnique(i: nat, k: nat, threads: nat)
    requires i < threads
    ensures Stride(i, k, threads) % threads == i && Stride(i, k, threads) / threads == k
  {
    DivModIs(k, i, threads);
  }

  lemma StrideNext(i: nat, k: nat, threads: nat)
    ensures Stride(i, k + 1, threads) == Stride(i, k, threads) + threads
  {
    assert (k + 1) * threads == k * threads + threads;
  }

  lemma NextMultiple(local: nat)
    ensures (local + 1) - (local + 1) % 64 == if (local + 1) % 64 == 0 then local + 1 else local - local % 64
  {}

  lemma HashOwnOk(p: Puzzle, s: State, i: nat)
    requires Inv(p, s) && i < |s.workers| && s.workers[i].pc == Hash
    ensures WorkerOk(p, Advance(p, s, i), i)
  {
    assert WorkerOk(p, s, i);
    StrideNext(i, s.workers[i].local, |s.workers|);
    NextMultiple(s.workers[i].local);
  }

  lemma HashWorkersOk(p: Puzzle, s: State, i: nat)
    requires Inv(p, s) && i < |s.workers| && s.workers[i].pc == Hash
    ensures forall j :: 0 <= j < |s.workers| ==> WorkerOk(p, Advance(p, s, i), j)
  {
    var s' := Advance(p, s, i);
    HashOwnOk(p, s, i);
    forall j | 0 <= j < |s.workers| ensures WorkerOk(p, s', j) {
      if j != i {
        assert WorkerOk(p, s, j);
        OtherWorkerOk(p, s, s', j);
      }
    }
  }

  /** Hashing is the only step that touches the log; every other one moves a worker along. */
  lemma HashOk(p: Puzzle, s: State, i: nat)
    requires Inv(p, s) && i < |s.workers| && s.workers[i].pc == Hash
    ensures Inv(p, Advance(p, s, i))
  {
    var w, s', t := s.workers[i], Advance(p, s, i), |s.workers|;
    var w' := s'.workers[i];
    HashWorkersOk(p, s, i);
    assert Fresh(s, i) && w.nonce <= LAST_NONCE by { assert WorkerOk(p, s, i); }
    hide WorkerOk;
    StrideUnique(i, w.local, t);
    assert !Passed(s, w.nonce);
    SumLocalPut(s.workers, i, w');
    forall n: nat ensures n in s'.tried <==> Passed(s', n) {
      DivMod(n, t);
      assert n in s'.tried <==> n in s.tried || n == w.nonce;
    }
    forall n: nat | n in s'.tried && p.Meets(n) ensures HitHolds(s', n) {
      if n in s.tried { assert HitHolds(s, n); }
    }
  }

  /** A quiet step leaves every worker's place and count alone. */
  predicate SamePlaces(s: State, s': State) {
    && |s'.workers| == |s.workers|
    && (forall j :: 0 <= j < |s.workers| ==>
          s'.workers[j].nonce == s.workers[j].nonce && s'.workers[j].local == s.workers[j].local)
  }

  lemma SamePlacesKeep(p: Puzzle, s: State, s': State, j: nat)
    requires SamePlaces(s, s') && j < |s.workers|
    ensures Fresh(s', j) == Fresh(s, j) && Hit(p, s', j) == Hit(p, s, j)
  {}

  lemma QuietWorkersOk(p: Puzzle, s: State, i: nat, s': State)
    requires Inv(p, s) && i < |s.workers|
    requires (s' == Advance(p, s, i) && s.workers[i].pc != Hash) || s' == Die(s, i)
    ensures SamePlaces(s, s') && s'.tried == s.tried && |s'.counters| == |s.counters|
    ensures forall j :: 0 <= j < |s.workers| ==> WorkerOk(p, s', j)
  {
    OwnWorkerOk(p, s, i, s');
    forall j | 0 <= j < |s.workers| ensures WorkerOk(p, s', j) {
      if j != i { OtherWorkerOk(p, s, s', j); }
    }
  }

  lemma OwnWorkerOk(p: Puzzle, s: State, i: nat, s': State)
    requires Inv(p, s) && i < |s.workers|
    requires (s' == Advance(p, s, i) && s.workers[i].pc != Hash) || s' == Die(s, i)
    ensures |s'.counters| == |s.counters| && WorkerOk(p, s', i)
  {
    assert WorkerOk(p, s, i);
    SamePlacesKeep(p, s, s', i);
  }

  /** Nothing a worker relies on is undone by another: `found` and `stop` only ever appear. */
  lemma OtherWorkerOk(p: Puzzle, s: State, s': State, j: nat)
    requires j < |s.workers| == |s.counters| == |s'.workers| == |s'.counters|
    requires WorkerOk(p, s, j)
    requires s'.workers[j] == s.workers[j] && s'.counters[j] == s.counters[j]
    requires s.found.Some? ==> s'.found.Some?
    requires s.stop ==> s'.stop
    ensures WorkerOk(p, s', j)
  {
    assert Fresh(s', j) == Fresh(s, j) && Hit(p, s', j) == Hit(p, s, j);
  }

  lemma QuietStepOk(p: Puzzle, s: State, i: nat, s': State)
    requires Inv(p, s) && i < |s.workers|
    requires (s' == Advance(p, s, i) && s.workers[i].pc != Hash) || s' == Die(s, i)
    ensures Inv(p, s')
  {
    QuietWorkersOk(p, s, i, s');
    assert s.workers[i].pc == Claim ==> Hit(p, s, i) by { assert WorkerOk(p, s, i); }
    assert s.workers[i].pc == SetStop ==> s.found.Some? by { assert WorkerOk(p, s, i); }
    hide WorkerOk, Hit, HitHolds;
    SumLocalPut(s.workers, i, s'.workers[i]);
    if s'.workers != s.workers { assert s'.workers == s.workers[i := s'.workers[i]]; }
    var t := |s.workers|;
    forall n: nat ensures Passed(s', n) <==> Passed(s, n) { DivMod(n, t); }
    forall n: nat | n in s.tried && p.Meets(n) ensures HitHolds(s', n) {
      QuietHitHolds(p, s, i, s', n);
    }
    if s.workers[i].pc == Claim { ClaimedWasTried(p, s, i); }
  }

  lemma QuietHitHolds(p: Puzzle, s: State, i: nat, s': State, n: nat)
    requires Inv(p, s) && i < |s.workers| && n in s.tried && p.Meets(n)
    requires (s' == Advance(p, s, i) && s.workers[i].pc != Hash) || s' == Die(s, i)
    ensures HitHolds(s', n)
  {
    DivMod(n, |s.workers|);
    assert HitHolds(s, n);
    assert s.workers[i].pc == SetStop ==> s.found.Some? by { assert WorkerOk(p, s, i); }
    hide WorkerOk, Passed;
  }

  lemma ClaimedWasTried(p: Puzzle, s: State, i: nat)
    requires Inv(p, s) && i < |s.workers| && Hit(p, s, i)
    ensures s.workers[i].nonce in s.tried
  {
    StrideUnique(i, s.workers[i].local - 1, |s.workers|);
    assert Passed(s, s.workers[i].nonce);
  }

  lemma ApplyOk(p: Puzzle, s: State, e: Event)
    requires Inv(p, s)
    ensures Inv(p, Apply(p, s, e)) && |Apply(p, s, e).workers| == |s.workers|
  {
    if e.worker < |s.workers| {
      if e.Step? && s.workers[e.worker].pc == Hash {
        HashOk(p, s, e.worker);
      } else {
        QuietStepOk(p, s, e.worker, Apply(p, s, e));
      }
    }
  }

  lemma {:induction false} RunOk(p: Puzzle, threads: nat, events: seq<Event>)
    requires threads > 0
    ensures Inv(p, Run(p, threads, events)) && |Run(p, threads, events).workers| == threads
  {
    if events == [] {
      InitialOk(p, threads);
    } else {
      RunOk(p, threads, events[..|events| - 1]);
      ApplyOk(p, Run(p, threads, events[..|events| - 1]), events[|events| - 1]);
    }
  }

  // ------------------------------------------------------------------ what it gives

  /**
   Over every interleaving: no nonce is hashed twice, none outside the 32-bit space is
   hashed at all, and whatever `found` holds is a hashed nonce that meets the target.
   */
  lemma NoNonceTwice(p: Puzzle, threads: nat, events: seq<Event>)
    requires threads > 0
    ensures var s := Run(p, threads, events);
            && NoDuplicates(s.tried)
            && (forall n :: n in s.tried ==> n <= LAST_NONCE)
            && (s.found.Some? ==> s.found.value.nonce in s.tried)
            && (s.found.Some? ==> s.found.value.hash == p.pow(s.found.value.nonce) <= p.target)
  {
    RunOk(p, threads, events);
  }

  /** `found` is written at most once: no later event changes it. */
  lemma {:induction false} FoundOnce(p: Puzzle, threads: nat, events: seq<Event>, more: seq<Event>)
    requires Run(p, threads, events).found.Some?
    ensures Run(p, threads, events + more).found == Run(p, threads, events).found
  {
    if more == [] {
      assert events + more == events;
    } else {
      var all := events + more;
      assert all[..|all| - 1] == events + more[..|more| - 1];
      FoundOnce(p, threads, events, more[..|more| - 1]);
    }
  }

  predicate Joined(s: State) {
    forall i :: 0 <= i < |s.workers| ==> s.workers[i].pc in {Done, Dead}
  }

  predicate NobodyDied(s: State) {
    forall i :: 0 <= i < |s.workers| ==> s.workers[i].pc != Dead
  }

  /**
   After the joins the counters never add up to more than the number of hashes, and to
   exactly that when each worker that died had hashed a multiple of 64 nonces; so they do
   when nobody died.
   */
  lemma CountersExact(p: Puzzle, threads: nat, events: seq<Event>)
    requires threads > 0 && Joined(Run(p, threads, events))
    ensures var s := Run(p, threads, events);
            && Sum(s.counters) <= |s.tried|
            && (Sum(s.counters) == |s.tried| <==>
                  forall i :: 0 <= i < threads && s.workers[i].pc == Dead ==> s.workers[i].local % 64 == 0)
            && (NobodyDied(s) ==> Sum(s.counters) == |s.tried|)
  {
    RunOk(p, threads, events);
    var s := Run(p, threads, events);
    forall i | 0 <= i < threads
      ensures s.counters[i] <= s.workers[i].local
      ensures s.counters[i] == s.workers[i].local <==> (s.workers[i].pc == Dead ==> s.workers[i].local % 64 == 0)
    {
      assert WorkerOk(p, s, i);
    }
    hide Run;
    SumsCompare(s.workers, s.counters);
  }

  lemma {:induction false} SumsCompare(ws: seq<Worker>, ns: seq<nat>)
    requires |ws| == |ns| && forall i :: 0 <= i < |ws| ==> ns[i] <= ws[i].local
    ensures Sum(ns) <= SumLocal(ws)
    ensures Sum(ns) == SumLocal(ws) <==> forall i :: 0 <= i < |ws| ==> ns[i] == ws[i].local
  {
    if ws != [] {
      var n := |ws| - 1;
      SumsCompare(ws[..n], ns[..n]);
      assert forall i :: 0 <= i < n ==> ws[..n][i] == ws[i] && ns[..n][i] == ns[i];
    }
  }

  /**
   When every worker has ended and nothing was found, each worker that finished of its
   own accord has hashed the whole of its stride, and none of it meets the target.
   */
  lemma FinishedStrideFails(p: Puzzle, threads: nat, events: seq<Event>, n: nat)
    requires threads > 0 && n <= LAST_NONCE
    requires Joined(Run(p, threads, events)) && Run(p, threads, events).found.None?
    requires Run(p, threads, events).workers[n % threads].pc == Done
    ensures n in Run(p, threads, events).tried && !p.Meets(n)
  {
    RunOk(p, threads, events);
    var s := Run(p, threads, events);
    var i := n % threads;
    var w := s.workers[i];
    DivMod(n, threads);
    assert WorkerOk(p, s, i);
    assert n in s.tried && p.Meets(n) ==> HitHolds(s, n);
    PassedUpTo(s, n);
  }

  /** A nonce below the one its worker stands at, fresh, has been hashed. */
  lemma PassedUpTo(s: State, n: nat)
    requires s.workers != []
    requires var i := n % |s.workers|; n < Stride(i, s.workers[i].local, |s.workers|)
    ensures Passed(s, n)
  {
    var t := |s.workers|;
    DivMod(n, t);
    MulOrder(s.workers[n % t].local, n / t, t);
  }

  /**
   So with no exception the failure to find anything is a proof: every 32-bit nonce was
   hashed and every one of them fails.
   */
  lemma ExhaustedMeansNone(p: Puzzle, threads: nat, events: seq<Event>)
    requires threads > 0
    requires Joined(Run(p, threads, events)) && NobodyDied(Run(p, threads, events))
    requires Run(p, threads, events).found.None?
    ensures forall n: nat :: n <= LAST_NONCE ==> n in Run(p, threads, events).tried && !p.Meets(n)
  {
    RunOk(p, threads, events);
    forall n: nat | n <= LAST_NONCE ensures n in Run(p, threads, events).tried && !p.Meets(n) {
      DivMod(n, threads);
      FinishedStrideFails(p, threads, events, n);
    }
  }

  /**
   An exception breaks it: after one a search can end with nothing found, and so report
   the space exhausted, when no nonce has been hashed.
   */
  lemma DeadWorkerHidesNonces(p: Puzzle)
    ensures var s := Run(p, 1, [Raise(0)]);
            Joined(s) && s.found.None? && s.tried == []
  {
    var e := [Raise(0)];
    assert e[..0] == [];
    assert Run(p, 1, e[..0]) == Initial(1);
  }

  /** One worker, up to the loop test at nonce `k`. */
  function Rounds(k: nat): seq<Event> {
    if k == 0 then [Step(0)] else Rounds(k - 1) + [Step(0)] + [Step(0)]
  }

  lemma RunOneMore(p: Puzzle, threads: nat, events: seq<Event>, e: Event)
    ensures Run(p, threads, events + [e]) == Apply(p, Run(p, threads, events), e)
  {
    assert (events + [e])[..|events|] == events;
  }

  /** A lone worker stands at the loop test with `k` nonces behind it. */
  ghost predicate Standing(s: State, k: nat) {
    && s.workers == [Worker(Check, k, k)] && |s.counters| == 1
    && s.found.None? && !s.stop
    && (forall n: nat :: n < k ==> n in s.tried)
  }

  lemma OneRound(p: Puzzle, s: State, k: nat)
    requires Standing(s, k) && k <= LAST_NONCE
    ensures var t := Advance(p, Advance(p, s, 0), 0);
            if p.Meets(k) then
              t.workers == [Worker(Claim, k, k + 1)] && t.found.None? && forall n: nat :: n <= k ==> n in t.tried
            else Standing(t, k + 1)
  {
    var t := Advance(p, Advance(p, s, 0), 0);
    assert t.tried == s.tried + [k];
    forall n: nat | n <= k ensures n in t.tried { assert n in s.tried || n == k; }
  }

  lemma TwoSteps(p: Puzzle, events: seq<Event>)
    ensures Run(p, 1, events + [Step(0)] + [Step(0)]) == Advance(p, Advance(p, Run(p, 1, events), 0), 0)
  {
    RunOneMore(p, 1, events, Step(0));
    RunOneMore(p, 1, events + [Step(0)], Step(0));
    hide Run, Advance;
  }

  lemma FirstStep(p: Puzzle)
    ensures Standing(Run(p, 1, Rounds(0)), 0)
  {
    assert Rounds(0)[..0] == [];
  }

  lemma {:induction false} RoundsReach(p: Puzzle, k: nat)
    requires k <= LAST_NONCE && forall n: nat :: n < k ==> !p.Meets(n)
    ensures Standing(Run(p, 1, Rounds(k)), k)
  {
    hide Run, Standing, Advance;
    if k == 0 {
      FirstStep(p);
    } else {
      RoundsReach(p, k - 1);
      OneRound(p, Run(p, 1, Rounds(k - 1)), k - 1);
      TwoSteps(p, Rounds(k - 1));
    }
  }

  /**
   Hashing every nonce is not enough either: a worker that dies between hashing the good
   nonce and writing it down leaves the space reported exhausted with that nonce in it.
   */
  lemma DeadWorkerHidesHit(p: Puzzle)
    requires p.Meets(LAST_NONCE) && forall n: nat :: n < LAST_NONCE ==> !p.Meets(n)
    ensures var s := Run(p, 1, Rounds(LAST_NONCE) + [Step(0)] + [Step(0)] + [Raise(0)]);
            && Joined(s) && s.found.None?
            && (forall n: nat :: n <= LAST_NONCE ==> n in s.tried)
  {
    HitIsLost(p, LAST_NONCE);
  }

  lemma HitIsLost(p: Puzzle, k: nat)
    requires k <= LAST_NONCE && p.Meets(k) && forall n: nat :: n < k ==> !p.Meets(n)
    ensures var s := Run(p, 1, Rounds(k) + [Step(0)] + [Step(0)] + [Raise(0)]);
            Joined(s) && s.found.None? && forall n: nat :: n <= k ==> n in s.tried
  {
    RoundsReach(p, k);
    OneRound(p, Run(p, 1, Rounds(k)), k);
    TwoSteps(p, Rounds(k));
    hide Run, Rounds, Standing, Advance;
    RunOneMore(p, 1, Rounds(k) + [Step(0)] + [Step(0)], Raise(0));
  }

  /**
   The report is right - every nonce was hashed and every one of them fails - exactly when
   each worker that died had already moved past the last nonce.
   */
  lemma ExhaustedExactly(p: Puzzle, threads: nat, events: seq<Event>)
    requires threads > 0
    requires Joined(Run(p, threads, events)) && Run(p, threads, events).found.None?
    ensures (forall n: nat :: n <= LAST_NONCE ==> n in Run(p, threads, events).tried && !p.Meets(n))
       <==> (forall i :: 0 <= i < threads && Run(p, threads, events).workers[i].pc == Dead ==>
               Run(p, threads, events).workers[i].nonce > LAST_NONCE)
  {
    RunOk(p, threads, events);
    var s := Run(p, threads, events);
    if forall n: nat :: n <= LAST_NONCE ==> n in s.tried && !p.Meets(n) {
      forall i | 0 <= i < threads && s.workers[i].pc == Dead ensures s.workers[i].nonce > LAST_NONCE {
        assert WorkerOk(p, s, i);
        if Fresh(s, i) {
          StrideUnique(i, s.workers[i].local, threads);
          assert !Passed(s, s.workers[i].nonce);
        } else {
          ClaimedWasTried(p, s, i);
        }
      }
    }
    if forall i :: 0 <= i < threads && s.workers[i].pc == Dead ==> s.workers[i].nonce > LAST_NONCE {
      forall n: nat | n <= LAST_NONCE ensures n in s.tried && !p.Meets(n) {
        DivMod(n, threads);
        if s.workers[n % threads].pc == Dead {
          DeadPastEnd(p, s, n);
        } else {
          FinishedStrideFails(p, threads, events, n);
        }
      }
    }
  }

  lemma DeadPastEnd(p: Puzzle, s: State, n: nat)
    requires Inv(p, s) && n <= LAST_NONCE
    requires s.workers[n % |s.workers|].nonce > LAST_NONCE && s.workers[n % |s.workers|].pc == Dead
    ensures n in s.tried && !p.Meets(n)
  {
    var i := n % |s.workers|;
    DivMod(n, |s.workers|);
    assert WorkerOk(p, s, i);
    if Hit(p, s, i) { ClaimedWasTried(p, s, i); }
    PassedUpTo(s, n);
    assert p.Meets(n) ==> HitHolds(s, n);
  }

  // ------------------------------------------------------------------ the search ends

  /** The steps worker `i` takes in a run of events. */
  function StepsOf(events: seq<Event>, i: nat): nat {
    if events == [] then 0
    else StepsOf(events[..|events| - 1], i) + if events[|events| - 1] == Step(i) then 1 else 0
  }

  /** The nonces a stride still has from `nonce` on. */
  function Strides(nonce: nat, threads: nat): nat
    requires threads > 0
  {
    if nonce > LAST_NONCE then 0 else 1 + Quotient(LAST_NONCE - nonce, threads)
  }

  /** A bound on the steps a worker still takes: two for each nonce and a few to end; few if `stop` is set. */
  function StepsLeft(w: Worker, threads: nat, stop: bool): nat
    requires threads > 0
  {
    match w.pc
    case Start => if stop then 4 else 2 * Strides(w.nonce, threads) + 4
    case Check => if stop then 3 else 2 * Strides(w.nonce, threads) + 3
    case Hash => if stop then 4 else 2 * Strides(w.nonce + threads, threads) + 4
    case Claim => 3
    case SetStop => 2
    case Tally => 1
    case Done => 0
    case Dead => 0
  }

  lemma NextStride(nonce: nat, threads: nat)
    requires threads > 0 && nonce <= LAST_NONCE
    ensures Strides(nonce, threads) == 1 + Strides(nonce + threads, threads)
  {
    var x := LAST_NONCE - nonce;
    DivMod(x, threads);
    if x >= threads {
      DivMod(x - threads, threads);
      DivModIs(x / threads - 1, x % threads, threads);
      assert (x / threads - 1) * threads == x / threads * threads - threads;
    } else {
      DivModIs(0, x, threads);
    }
  }

  /** A worker's own step brings its end nearer; no other event puts it off. */
  lemma EventBringsEnd(p: Puzzle, s: State, e: Event, i: nat)
    requires s.workers != [] && i < |s.workers| == |s.counters|
    ensures var s', t := Apply(p, s, e), |s.workers|;
            && |s'.workers| == |s'.counters| == t
            && StepsLeft(s'.workers[i], t, s'.stop) <= StepsLeft(s.workers[i], t, s.stop)
            && (e == Step(i) && s.workers[i].pc !in {Done, Dead} ==>
                  StepsLeft(s'.workers[i], t, s'.stop) < StepsLeft(s.workers[i], t, s.stop))
  {
    hide Strides;
    if e == Step(i) {
      OwnStep(p, s, i);
    } else {
      assert Apply(p, s, e).workers[i] == s.workers[i] || e == Raise(i);
      assert s.stop ==> Apply(p, s, e).stop;
    }
  }

  lemma OwnStep(p: Puzzle, s: State, i: nat)
    requires i < |s.workers| == |s.counters|
    ensures var s', t := Advance(p, s, i), |s.workers|;
            && |s'.workers| == |s'.counters| == t
            && StepsLeft(s'.workers[i], t, s'.stop) <= StepsLeft(s.workers[i], t, s.stop)
            && (s.workers[i].pc !in {Done, Dead} ==>
                  StepsLeft(s'.workers[i], t, s'.stop) < StepsLeft(s.workers[i], t, s.stop))
  {
    hide Strides;
    var w, t := s.workers[i], |s.workers|;
    if w.nonce <= LAST_NONCE { NextStride(w.nonce, t); }
  }

  /** After any run, the steps a worker has left and those it took come to no more than it had at the start. */
  lemma {:induction false} StepsAreSpent(p: Puzzle, threads: nat, events: seq<Event>, more: seq<Event>, i: nat)
    requires i < threads
    ensures var s, s' := Run(p, threads, events), Run(p, threads, events + more);
            && |s.workers| == |s'.workers| == threads
            && (s'.workers[i].pc in {Done, Dead}
                || StepsLeft(s'.workers[i], threads, s'.stop) + StepsOf(more, i)
                     <= StepsLeft(s.workers[i], threads, s.stop))
  {
    hide Advance, StepsLeft;
    if more == [] {
      assert events + more == events;
    } else {
      var n := |more| - 1;
      var all := events + more;
      StepsAreSpent(p, threads, events, more[..n], i);
      assert all[..|all| - 1] == events + more[..n];
      RunOk(p, threads, events + more[..n]);
      EventBringsEnd(p, Run(p, threads, events + more[..n]), more[n], i);
      if Run(p, threads, events + more[..n]).workers[i].pc in {Done, Dead} {
        EndedStays(p, Run(p, threads, events + more[..n]), more[n], i);
      }
    }
  }

  lemma EndedStays(p: Puzzle, s: State, e: Event, i: nat)
    requires i < |s.workers| == |s.counters| && s.workers[i].pc in {Done, Dead}
    ensures Apply(p, s, e).workers[i].pc in {Done, Dead}
  {}

  /** The steps that surely end a worker: two for every nonce of its stride, and four. */
  function Enough(threads: nat, i: nat): nat
    requires threads > 0
  {
    2 * Strides(i, threads) + 4
  }

  /** The search ends: once every worker has taken enough steps, or died, all can be joined, in any interleaving. */
  lemma SearchEnds(p: Puzzle, threads: nat, events: seq<Event>)
    requires threads > 0
    requires forall i :: 0 <= i < threads ==>
               StepsOf(events, i) >= Enough(threads, i) || Run(p, threads, events).workers[i].pc == Dead
    ensures Joined(Run(p, threads, events))
  {
    forall i | 0 <= i < threads ensures Run(p, threads, events).workers[i].pc in {Done, Dead} {
      StepsAreSpent(p, threads, [], events, i);
      assert [] + events == events;
      Beginning(p, threads, i);
      SomeLeft(Run(p, threads, events).workers[i], threads, Run(p, threads, events).stop);
    }
    hide Run;
  }

  lemma Beginning(p: Puzzle, threads: nat, i: nat)
    requires i < threads
    ensures var s := Run(p, threads, []); StepsLeft(s.workers[i], threads, s.stop) == Enough(threads, i)
  {}

  lemma SomeLeft(w: Worker, threads: nat, stop: bool)
    requires threads > 0
    ensures StepsLeft(w, threads, stop) == 0 ==> w.pc in {Done, Dead}
  {}

  /** `stop` is heeded: once it is set, four more steps end any worker, wherever it stands. */
  lemma StopIsHeeded(p: Puzzle, threads: nat, events: seq<Event>, more: seq<Event>, i: nat)
    requires i < threads && Run(p, threads, events).stop && StepsOf(more, i) >= 4
    ensures Run(p, threads, events + more).workers[i].pc in {Done, Dead}
  {
    StepsAreSpent(p, threads, events, more, i);
    var s := Run(p, threads, events + more);
    SomeLeft(s.workers[i], threads, s.stop);
    hide Run;
  }
}
