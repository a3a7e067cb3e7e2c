/**
 The pool's accounting chain: each task is hung on the promise of the one before it, and
 the chain itself catches. Promises settle and callbacks run as separate steps, in any order.
 */
module Accounting {

  /**
   Why a task failed: with null or undefined, with the TypeError the catch handler throws
   when it asks those for their message, or with an error of its own.
   */
  datatype Reason = Nullish | HandlerFault | Because(message: string)

  datatype Outcome = Done(value: int) | Failed(reason: Reason)

  /** The promise handed to the caller: `accounting.then(fn)`. */
  datatype Promise = Waiting | Running | Settled(outcome: Outcome)

  /** The promise the next task waits for: `run.catch(log)`. It breaks if the handler throws. */
  datatype Tail = Open | Clear | Broken

  datatype Link = Link(run: Promise, tail: Tail, ran: bool)

  /** The tasks in submission order, and the order in which they were started. */
  datatype State = State(links: seq<Link>, started: seq<nat>)

  datatype Event =
    | Submit
    | Turn(k: nat)    // a callback of link k is taken from the microtask queue
    | Finish(k: nat)  // the work of task k completes

  function Before(links: seq<Link>, k: nat): Tail
    requires k <= |links|
  {
    if k == 0 then Clear else links[k - 1].tail
  }

  /** `err.message` of nothing throws inside the catch handler. */
  function Caught(outcome: Outcome): Tail { if outcome == Failed(Nullish) then Broken else Clear }

  function TurnLink(s: State, k: nat): State
    requires k < |s.links|
  {
    var l := s.links[k];
    if l.run.Waiting? && Before(s.links, k).Clear? then
      State(s.links[k := Link(Running, l.tail, true)], s.started + [k])
    else if l.run.Waiting? && Before(s.links, k).Broken? then
      State(s.links[k := Link(Settled(Failed(HandlerFault)), l.tail, l.ran)], s.started)
    else if l.run.Settled? && l.tail.Open? then
      State(s.links[k := Link(l.run, Caught(l.run.outcome), l.ran)], s.started)
    else s
  }

  /** One step; `will` is what each task does when it runs. An event that is not due does nothing. */
  function Apply(will: nat -> Outcome, s: State, e: Event): State {
    match e
    case Submit => State(s.links + [Link(Waiting, Open, false)], s.started)
    case Turn(k) => if k < |s.links| then TurnLink(s, k) else s
    case Finish(k) =>
      if k < |s.links| && s.links[k].run.Running?
      then State(s.links[k := s.links[k].(run := Settled(will(k)))], s.started)
      else s
  }

  function After(will: nat -> Outcome, events: seq<Event>): State {
    if events == [] then State([], [])
    else Apply(will, After(will, events[..|events| - 1]), events[|events| - 1])
  }

  /** Whether a task's function is never called. */
  predicate Skipped(will: nat -> Outcome, k: nat)
    decreases k, 0
  {
    k > 0 && Seen(will, k - 1) == Failed(Nullish)
  }

  /** What the caller of task k sees. */
  function Seen(will: nat -> Outcome, k: nat): Outcome
    decreases k, 1
  {
    if Skipped(will, k) then Failed(HandlerFault) else will(k)
  }

  predicate LinkOk(will: nat -> Outcome, links: seq<Link>, k: nat)
    requires k < |links|
  {
    var l := links[k];
    && (l.run.Settled? ==> l.run.outcome == Seen(will, k))
    && (!l.tail.Open? ==> l.run.Settled? && l.tail == Caught(l.run.outcome))
    && (!l.run.Waiting? ==> !Before(links, k).Open?)
    && (l.ran <==> !l.run.Waiting? && !Skipped(will, k))
    && (l.run.Running? ==> l.ran)
  }

  ghost predicate Inv(will: nat -> Outcome, s: State) {
    && (forall k: nat :: k < |s.links| ==> LinkOk(will, s.links, k))
    && (forall i, j :: 0 <= i < j < |s.started| ==> s.started[i] < s.started[j])
    && (forall k: nat :: k in s.started <==> k < |s.links| && s.links[k].ran)
  }

  lemma BeforeSettled(will: nat -> Outcome, s: State, k: nat)
    requires Inv(will, s) && 0 < k < |s.links| && !Before(s.links, k).Open?
    ensures Before(s.links, k) == Caught(Seen(will, k - 1))
    ensures Before(s.links, k).Broken? <==> Skipped(will, k)
  {
    assert LinkOk(will, s.links, k - 1);
  }

  /** Changing one link without taking anything back keeps the others in order. */
  lemma OthersOk(will: nat -> Outcome, links: seq<Link>, k: nat, l: Link, j: nat)
    requires k < |links| && j < |links| && j != k && LinkOk(will, links, j)
    requires links[k].tail.Open? || l.tail == links[k].tail
    ensures LinkOk(will, links[k := l], j)
  {}

  lemma FirstLink(will: nat -> Outcome, s: State, k: nat)
    requires Inv(will, s) && k < |s.links| && s.links[k].run.Waiting? && !s.links[k].ran
    ensures Before(s.links, k).Clear? ==> forall x :: x in s.started ==> x < k
  {
    if Before(s.links, k).Clear? {
      forall x | x in s.started ensures x < k {
        assert LinkOk(will, s.links, x);
        if x > k { InOrder(will, s, k, x); }
      }
    }
  }

  /** Each task starts only after every earlier one has settled, and its failure been dealt with. */
  lemma {:induction false} InOrder(will: nat -> Outcome, s: State, j: nat, k: nat)
    requires Inv(will, s) && j < k < |s.links| && !s.links[k].run.Waiting?
    ensures s.links[j].run.Settled? && !s.links[j].tail.Open?
    decreases k
  {
    assert LinkOk(will, s.links, k);
    assert LinkOk(will, s.links, k - 1);
    if j < k - 1 { InOrder(will, s, j, k - 1); }
  }

  lemma TurnKeeps(will: nat -> Outcome, s: State, k: nat)
    requires Inv(will, s) && k < |s.links|
    ensures Inv(will, TurnLink(s, k))
  {
    var t, l := TurnLink(s, k), s.links[k];
    assert LinkOk(will, s.links, k);
    if k > 0 && !Before(s.links, k).Open? { BeforeSettled(will, s, k); }
    forall j: nat | j < |t.links| ensures LinkOk(will, t.links, j) {
      if j != k { OthersOk(will, s.links, k, t.links[k], j); }
    }
    if l.run.Waiting? && Before(s.links, k).Clear? {
      FirstLink(will, s, k);
      assert t.started == s.started + [k] && t.links[k].ran;
      forall i | 0 <= i < |s.started| ensures s.started[i] < k { assert s.started[i] in s.started; }
      forall x: nat ensures x in t.started <==> x < |t.links| && t.links[x].ran {
        assert x in t.started <==> x in s.started || x == k;
      }
    }
  }

  lemma FinishKeeps(will: nat -> Outcome, s: State, k: nat)
    requires Inv(will, s)
    ensures Inv(will, Apply(will, s, Finish(k)))
  {
    if k < |s.links| && s.links[k].run.Running? {
      var t := Apply(will, s, Finish(k));
      assert LinkOk(will, s.links, k);
      forall j: nat | j < |t.links| ensures LinkOk(will, t.links, j) {
        if j != k { OthersOk(will, s.links, k, t.links[k], j); }
      }
    }
  }

  lemma SubmitKeeps(will: nat -> Outcome, s: State)
    requires Inv(will, s)
    ensures Inv(will, Apply(will, s, Submit))
  {
    var t := Apply(will, s, Submit);
    forall j: nat | j < |t.links| ensures LinkOk(will, t.links, j) {
      if j < |s.links| { assert LinkOk(will, s.links, j); }
    }
  }

  lemma {:induction false} AlwaysOk(will: nat -> Outcome, events: seq<Event>)
    ensures Inv(will, After(will, events))
  {
    if events != [] {
      var before := After(will, events[..|events| - 1]);
      AlwaysOk(will, events[..|events| - 1]);
      match events[|events| - 1]
      case Submit => SubmitKeeps(will, before);
      case Turn(k) => if k < |before.links| { TurnKeeps(will, before, k); }
      case Finish(k) => FinishKeeps(will, before, k);
    }
  }

  // ------------------------------------------------------------------ the promises

  /**
   Over every interleaving: tasks start in submission order, none before all earlier ones
   have settled, and each caller sees an outcome that depends on the tasks alone.
   */
  lemma OneAtATimeInOrder(will: nat -> Outcome, events: seq<Event>)
    ensures var s := After(will, events);
            && (forall i, j :: 0 <= i < j < |s.started| ==> s.started[i] < s.started[j])
            && (forall j, k :: 0 <= j < k < |s.links| && !s.links[k].run.Waiting? ==> s.links[j].run.Settled?)
            && (forall k: nat :: k < |s.links| && s.links[k].run.Settled? ==> s.links[k].run.outcome == Seen(will, k))
            && (forall k: nat :: k < |s.links| && s.links[k].run.Settled? ==> (k in s.started <==> !Skipped(will, k)))
  {
    var s := After(will, events);
    AlwaysOk(will, events);
    forall j: nat, k: nat | j < k < |s.links| && !s.links[k].run.Waiting? ensures s.links[j].run.Settled? {
      InOrder(will, s, j, k);
    }
    forall k: nat | k < |s.links| && s.links[k].run.Settled?
      ensures s.links[k].run.outcome == Seen(will, k) && (k in s.started <==> !Skipped(will, k))
    {
      assert LinkOk(will, s.links, k);
    }
  }

  lemma SkipRule(will: nat -> Outcome, k: nat)
    requires k > 0
    ensures Skipped(will, k) <==> !Skipped(will, k - 1) && will(k - 1) == Failed(Nullish)
  {}

  /**
   Over every interleaving: a settled task was never started exactly when the one before it
   was started and came out rejected with null or undefined. Its caller then sees the
   handler's error, and the next task is not skipped in its turn.
   */
  lemma SkippedExactlyWhen(will: nat -> Outcome, events: seq<Event>, k: nat)
    requires 0 < k < |After(will, events).links| && After(will, events).links[k].run.Settled?
    ensures var s := After(will, events);
            && s.links[k - 1].run.Settled?
            && (k !in s.started <==> k - 1 in s.started && s.links[k - 1].run.outcome == Failed(Nullish))
            && (k !in s.started ==> s.links[k].run.outcome == Failed(HandlerFault))
            && (k !in s.started && k + 1 < |s.links| && s.links[k + 1].run.Settled? ==> k + 1 in s.started)
  {
    OneAtATimeInOrder(will, events);
    SkipRule(will, k);
    SkipRule(will, k + 1);
  }

  /**
   "One failure never stops everything after it" is true, but a failure can skip the one
   after it. Every one of `n` tasks runs, and every caller sees its own task's outcome,
   exactly when no task but the last is rejected with null or undefined.
   */
  lemma {:induction false} NobodySkipped(will: nat -> Outcome, n: nat)
    ensures (forall k: nat :: k < n ==> !Skipped(will, k))
       <==> (forall k: nat :: k + 1 < n ==> will(k) != Failed(Nullish))
    ensures (forall k: nat :: k + 1 < n ==> will(k) != Failed(Nullish)) ==>
              forall k: nat :: k < n ==> Seen(will, k) == will(k)
  {
    if n > 0 {
      NobodySkipped(will, n - 1);
      if n > 1 { SkipRule(will, n - 1); }
      if forall k: nat :: k + 1 < n ==> will(k) != Failed(Nullish) {
        forall k: nat | k < n ensures !Skipped(will, k) {
          if k == n - 1 && k > 0 { assert (n - 2) + 1 < n; }
        }
      }
      if forall k: nat :: k < n ==> !Skipped(will, k) {
        forall k: nat | k + 1 < n ensures will(k) != Failed(Nullish) {
          if k == n - 2 { assert !Skipped(will, n - 1) && !Skipped(will, n - 2); }
        }
      }
    }
  }

  /** Callbacks and completions still due. */
  function Work(links: seq<Link>): nat {
    if links == [] then 0 else
    var l := links[|links| - 1];
    Work(links[..|links| - 1])
    + (if l.run.Waiting? then 3 else if l.run.Running? then 2 else if l.tail.Open? then 1 else 0)
  }

  predicate Due(s: State, e: Event) {
    match e
    case Submit => false
    case Turn(k) => k < |s.links| && TurnLink(s, k) != s
    case Finish(k) => k < |s.links| && s.links[k].run.Running?
  }

  lemma {:induction false} WorkPut(links: seq<Link>, k: nat, l: Link)
    requires k < |links|
    ensures Work(links[k := l]) - Work(links) == Work([l]) - Work([links[k]])
  {
    var n := |links| - 1;
    if k < n {
      assert links[k := l][..n] == links[..n][k := l];
      WorkPut(links[..n], k, l);
    } else {
      assert links[k := l][..n] == links[..n];
      assert [l][..0] == [links[k]][..0] == [];
    }
  }

  /**
   The chain is never stuck: until every task has settled something is due, and each
   thing done brings the end nearer. So whatever fails, every later task is reached.
   */
  lemma NeverStuck(will: nat -> Outcome, events: seq<Event>)
    ensures var s := After(will, events);
            (exists k: nat :: k < |s.links| && !s.links[k].run.Settled?)
            ==> exists e: Event :: Due(s, e)
    ensures forall e: Event :: Due(After(will, events), e) ==>
              Work(Apply(will, After(will, events), e).links) < Work(After(will, events).links)
  {
    var s := After(will, events);
    AlwaysOk(will, events);
    hide After, Work;
    if k: nat :| k < |s.links| && !s.links[k].run.Settled? {
      var first := FirstUnsettled(s, k);
      SomethingDue(will, s, first);
    }
    forall e: Event | Due(s, e) ensures Work(Apply(will, s, e).links) < Work(s.links) {
      hide Due, Apply;
      WorkFalls(will, s, e);
    }
  }

  lemma SomethingDue(will: nat -> Outcome, s: State, first: nat)
    requires Inv(will, s) && first < |s.links| && !s.links[first].run.Settled?
    requires first > 0 ==> s.links[first - 1].run.Settled?
    ensures exists e: Event :: Due(s, e)
  {
    if s.links[first].run.Running? {
      assert Due(s, Finish(first));
    } else if first > 0 && s.links[first - 1].tail.Open? {
      assert Due(s, Turn(first - 1));
    } else {
      assert Due(s, Turn(first));
    }
  }

  lemma WorkFalls(will: nat -> Outcome, s: State, e: Event)
    requires Due(s, e)
    ensures Work(Apply(will, s, e).links) < Work(s.links)
  {
    var t := Apply(will, s, e);
    WorkPut(s.links, e.k, t.links[e.k]);
    assert t.links == s.links[e.k := t.links[e.k]];
    WorkOfOne(t.links[e.k]);
    WorkOfOne(s.links[e.k]);
    hide Work;
  }

  lemma WorkOfOne(l: Link)
    ensures Work([l]) == if l.run.Waiting? then 3 else if l.run.Running? then 2 else if l.tail.Open? then 1 else 0
  {
    assert [l][..0] == [];
  }

  lemma FirstUnsettled(s: State, k: nat) returns (first: nat)
    requires k < |s.links| && !s.links[k].run.Settled?
    ensures first <= k && !s.links[first].run.Settled?
    ensures first > 0 ==> s.links[first - 1].run.Settled?
  {
    first := k;
    while first > 0 && !s.links[first - 1].run.Settled?
      invariant first <= k && !s.links[first].run.Settled?
    {
      first := first - 1;
    }
  }

  lemma OneMore(will: nat -> Outcome, events: seq<Event>, e: Event)
    ensures After(will, events + [e]) == Apply(will, After(will, events), e)
  {
    assert (events + [e])[..|events|] == events;
  }

  /** Two tasks, the first rejected with null: the second settles without ever being started. */
  lemma NullSkipsNext(will: nat -> Outcome, submits: seq<Event>)
    requires will(0) == Failed(Nullish) && submits == [Submit] + [Submit]
    ensures var s := After(will, submits + [Turn(0)] + [Finish(0)] + [Turn(0)] + [Turn(1)]);
            s.started == [0] && |s.links| == 2 && s.links[1].run == Settled(Failed(HandlerFault))
  {
    var waiting := Link(Waiting, Open, false);
    assert submits[..1] == [Submit] && [Submit][..0] == [];
    assert After(will, [Submit]) == State([waiting], []);
    assert After(will, submits) == State([waiting, waiting], []);
    var e1 := submits + [Turn(0)];
    OneMore(will, submits, Turn(0));
    OneMore(will, e1, Finish(0));
    OneMore(will, e1 + [Finish(0)], Turn(0));
    OneMore(will, e1 + [Finish(0)] + [Turn(0)], Turn(1));
    hide After;
  }
}
