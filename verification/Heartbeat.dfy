/**
 The daily post at a fixed UTC hour, over whole runs of the bot. Times are milliseconds
 since the epoch; a last post of 0 is none at all.
 */
module Heartbeat {

  const HOUR := 3_600_000
  const DAY := 24 * HOUR
  const LATE := 36 * HOUR

  /** Today's slot. Nothing keeps the configured hour below 24. */
  function DueToday(now: nat, hour: nat): nat { now / DAY * DAY + hour * HOUR }

  predicate Overdue(last: nat, now: nat) { last != 0 && now - last >= LATE }

  /** Whether a tick posts: today's slot has passed with nothing since, or 36 hours of silence. */
  predicate Beats(last: nat, now: nat, hour: nat) {
    var due := DueToday(now, hour);
    (now >= due && last < due) || Overdue(last, now)
  }

  /** The 24-hour period, starting at the slot, that a time falls in. */
  function Period(t: nat, hour: nat): int { (t - hour * HOUR) / DAY }

  /** The last post after a run of ticks; the state file carries it across restarts. */
  function LastAfter(hour: nat, last: nat, ticks: seq<nat>): nat {
    if ticks == [] then last else
    var n := |ticks| - 1;
    var before := LastAfter(hour, last, ticks[..n]);
    if Beats(before, ticks[n], hour) then ticks[n] else before
  }

  predicate BeatAt(hour: nat, last: nat, ticks: seq<nat>, i: nat)
    requires i < |ticks|
  {
    Beats(LastAfter(hour, last, ticks[..i]), ticks[i], hour)
  }

  predicate Clock(last: nat, ticks: seq<nat>) {
    && (forall i :: 0 <= i < |ticks| ==> 1 <= ticks[i] && last <= ticks[i])
    && (forall i, j :: 0 <= i < j < |ticks| ==> ticks[i] <= ticks[j])
  }

  /** A post needs a new period: either rule puts at least the slot between two posts. */
  lemma BeatNeedsNewPeriod(last: nat, now: nat, hour: nat)
    requires hour < 24 && last != 0 && last <= now && Beats(last, now, hour)
    ensures Period(last, hour) < Period(now, hour)
  {}

  lemma {:induction false} LastKnows(hour: nat, last: nat, ticks: seq<nat>, i: nat)
    requires Clock(last, ticks) && i < |ticks| && BeatAt(hour, last, ticks, i)
    ensures ticks[i] <= LastAfter(hour, last, ticks) <= ticks[|ticks| - 1]
  {
    var n := |ticks| - 1;
    if i < n {
      var before := ticks[..n];
      assert before[..i] == ticks[..i];
      LastKnows(hour, last, before, i);
    } else {
      assert ticks[..i] == ticks[..n];
    }
  }

  /** At most one post in each period, over any run and whatever was posted before it. */
  lemma AtMostOnePerPeriod(hour: nat, last: nat, ticks: seq<nat>, i: nat, j: nat)
    requires hour < 24 && Clock(last, ticks) && i < j < |ticks|
    requires BeatAt(hour, last, ticks, i) && BeatAt(hour, last, ticks, j)
    ensures Period(ticks[i], hour) < Period(ticks[j], hour)
  {
    var before := ticks[..j];
    assert before[..i] == ticks[..i];
    LastKnows(hour, last, before, i);
    BeatNeedsNewPeriod(LastAfter(hour, last, before), ticks[j], hour);
    PeriodMonotone(ticks[i], LastAfter(hour, last, before), hour);
  }

  lemma PeriodMonotone(s: nat, t: nat, hour: nat)
    requires s <= t
    ensures Period(s, hour) <= Period(t, hour)
  {}

  /** Where the last post came from: a tick that posted, or the state the run began with. */
  lemma {:induction false} LastWasABeat(hour: nat, last: nat, ticks: seq<nat>) returns (i: int)
    ensures -1 <= i < |ticks|
    ensures i == -1 ==> LastAfter(hour, last, ticks) == last
    ensures i >= 0 ==> BeatAt(hour, last, ticks, i) && LastAfter(hour, last, ticks) == ticks[i]
  {
    if ticks == [] { return -1; }
    var n := |ticks| - 1;
    if BeatAt(hour, last, ticks, n) {
      assert ticks[..n] == ticks[..|ticks| - 1];
      return n;
    }
    i := LastWasABeat(hour, last, ticks[..n]);
    if i >= 0 { assert ticks[..n][..i] == ticks[..i]; }
  }

  /** After every tick the last post, if there ever was one, is less than 36 hours old. */
  lemma NeverSilentFor36Hours(hour: nat, last: nat, ticks: seq<nat>)
    requires Clock(last, ticks) && ticks != [] && LastAfter(hour, last, ticks) != 0
    ensures ticks[|ticks| - 1] - LastAfter(hour, last, ticks) < LATE
  {}

  /** So with ticks at most `gap` apart, two consecutive posts are less than 36 hours and a gap apart. */
  lemma SilenceIsBounded(hour: nat, last: nat, ticks: seq<nat>, i: nat, j: nat, gap: nat)
    requires Clock(last, ticks) && i < j < |ticks|
    requires BeatAt(hour, last, ticks, i)
    requires forall k :: i < k < j ==> !BeatAt(hour, last, ticks, k)
    requires forall k :: 0 < k < |ticks| ==> ticks[k] - ticks[k - 1] <= gap
    ensures ticks[j] - ticks[i] < LATE + gap
  {
    hide Beats, LastAfter;
    var before := ticks[..j];
    var k := LastWasABeat(hour, last, before);
    assert before[..i] == ticks[..i];
    LastKnows(hour, last, before, i);
    if k >= 0 {
      assert before[..k] == ticks[..k];
      assert BeatAt(hour, last, ticks, k);
    }
    NeverSilentFor36Hours(hour, last, before);
    assert ticks[j] - ticks[j - 1] <= gap;
  }

  /** A tick that runs between the slot and midnight. */
  predicate SameDay(t: nat, hour: nat) { t / DAY == Period(t, hour) }

  lemma SlotBeats(last: nat, now: nat, hour: nat)
    requires hour < 24 && SameDay(now, hour)
    ensures Beats(last, now, hour) || Period(now, hour) <= Period(last, hour) 
  {}

  lemma BeatIsDue(last: nat, now: nat, hour: nat)
    requires hour < 24 && Beats(last, now, hour)
    ensures SameDay(now, hour) || Overdue(last, now)
  {}

  ghost predicate Posted(hour: nat, ticks: seq<nat>, p: int) {
    exists i :: 0 <= i < |ticks| && Period(ticks[i], hour) == p && BeatAt(hour, 0, ticks, i)
  }

  /** A tick of period `p` that runs before midnight, or finds the last post 36 hours old. */
  ghost predicate Reached(hour: nat, ticks: seq<nat>, p: int) {
    exists i :: 0 <= i < |ticks| && Period(ticks[i], hour) == p
             && (SameDay(ticks[i], hour) || Overdue(LastAfter(hour, 0, ticks[..i]), ticks[i]))
  }

  /**
   Which periods get their post, from a fresh start: exactly those in which the bot ran
   at least once between the slot and midnight, or after midnight with 36 hours behind it.
   */
  lemma PeriodIsPosted(hour: nat, ticks: seq<nat>, p: int)
    requires hour < 24 && Clock(DAY, ticks)
    ensures Posted(hour, ticks, p) <==> Reached(hour, ticks, p)
  {
    if Posted(hour, ticks, p) {
      var i :| 0 <= i < |ticks| && Period(ticks[i], hour) == p && BeatAt(hour, 0, ticks, i);
      BeatIsDue(LastAfter(hour, 0, ticks[..i]), ticks[i], hour);
    }
    if Reached(hour, ticks, p) {
      var i :| 0 <= i < |ticks| && Period(ticks[i], hour) == p
            && (SameDay(ticks[i], hour) || Overdue(LastAfter(hour, 0, ticks[..i]), ticks[i]));
      if !BeatAt(hour, 0, ticks, i) { PostedBefore(hour, ticks, i); }
    }
  }

  lemma PostedBefore(hour: nat, ticks: seq<nat>, i: nat)
    requires hour < 24 && Clock(DAY, ticks) && i < |ticks|
    requires SameDay(ticks[i], hour) && !BeatAt(hour, 0, ticks, i)
    ensures Posted(hour, ticks, Period(ticks[i], hour))
  {
    var before := ticks[..i];
    var k := LastWasABeat(hour, 0, before);
    var last := LastAfter(hour, 0, before);
    SlotBeats(last, ticks[i], hour);
    assert k >= 0;
    assert before[..k] == ticks[..k];
    PeriodMonotone(ticks[k], ticks[i], hour);
    assert BeatAt(hour, 0, ticks, k);
  }

  /** The first post needs a tick between the slot and midnight. */
  lemma {:induction false} FirstPost(hour: nat, ticks: seq<nat>)
    requires Clock(DAY, ticks)
    ensures LastAfter(hour, 0, ticks) != 0 <==> exists i :: 0 <= i < |ticks| && SameDay(ticks[i], hour)
  {
    if ticks != [] {
      var n := |ticks| - 1;
      FirstPost(hour, ticks[..n]);
      forall i | 0 <= i < n ensures SameDay(ticks[i], hour) <==> SameDay(ticks[..n][i], hour) {}
      FirstBeat(ticks[n], hour);
      assert SameDay(ticks[n], hour) ==> exists i :: 0 <= i < |ticks| && SameDay(ticks[i], hour);
    }
  }

  lemma FirstBeat(now: nat, hour: nat)
    requires now >= DAY
    ensures Beats(0, now, hour) <==> SameDay(now, hour)
  {}

  /** An hour of 24 or more is accepted, and then the bot never posts at all. */
  lemma HourOutOfRange(hour: nat, ticks: seq<nat>)
    requires Clock(DAY, ticks) && hour >= 24
    ensures LastAfter(hour, 0, ticks) == 0
  {
    FirstPost(hour, ticks);
  }
}
