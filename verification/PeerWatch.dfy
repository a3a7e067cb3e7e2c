/**
 The watch one seed keeps on the others through its own peer list: the record it holds
 of each, and when it speaks.
 */
module PeerWatch {
  import opened Options
  import opened Sets
  import Toggle

  const MISSES_BEFORE_ALARM := 3

  datatype Record = Record(misses: nat, alarmed: bool, since: int)

  datatype Alarm = Gone(ip: string, misses: nat, minutes: int) | Back(ip: string, minutes: int)

  /** `int(seconds / 60)`, which truncates. */
  function Minutes(seconds: int): int { if seconds >= 0 then seconds / 60 else 0 - (0 - seconds) / 60 }

  /** The record a run starts from. */
  function Base(rec: Option<Record>, now: int): Record {
    if rec.Some? then rec.value else Record(0, false, now)
  }

  function Step(rec: Option<Record>, visible: bool, now: int): Record {
    var r := Base(rec, now);
    if visible then Record(0, false, now)
    else Record(r.misses + 1, r.alarmed || r.misses + 1 >= MISSES_BEFORE_ALARM, if r.misses == 0 then now else r.since)
  }

  function Says(ip: string, rec: Option<Record>, visible: bool, now: int): seq<Alarm> {
    var r, next := Base(rec, now), Step(rec, visible, now);
    if visible then
      if r.alarmed then [Back(ip, Minutes(now - r.since))] else []
    else if next.alarmed && !r.alarmed then [Gone(ip, next.misses, Minutes(now - next.since))]
    else []
  }

  function Get(records: map<string, Record>, ip: string): Option<Record> {
    if ip in records then Some(records[ip]) else None
  }

  function StepAll(records: map<string, Record>, watched: seq<string>, seen: set<string>, now: int)
    : map<string, Record>
  {
    records + map ip | ip in watched :: Step(Get(records, ip), ip in seen, now)
  }

  function SaysAll(records: map<string, Record>, watched: seq<string>, seen: set<string>, now: int): seq<Alarm> {
    if watched == [] then [] else
    var n := |watched| - 1;
    SaysAll(records, watched[..n], seen, now) + Says(watched[n], Get(records, watched[n]), watched[n] in seen, now)
  }

  predicate Distinct(q: seq<string>) { forall i, j :: 0 <= i < j < |q| ==> q[i] != q[j] }

  /** The state file, and one run over it. */
  class Watcher {
    var records: map<string, Record>

    constructor ()
      ensures records == map[]
    {
      records := map[];
    }

    method Check(watched: seq<string>, seen: Option<set<string>>, now: int) returns (alarms: seq<Alarm>)
      requires Distinct(watched)
      modifies this
      ensures seen.None? ==> records == old(records) && alarms == []
      ensures seen.Some? ==> records == StepAll(old(records), watched, seen.value, now)
      ensures seen.Some? ==> alarms == SaysAll(old(records), watched, seen.value, now)
    {
      hide Step, Says, StepAll, SaysAll, Get;
      alarms := [];
      if seen.None? { return; }
      ghost var was := records;
      var i := 0;
      NobodyWatched(was, watched, seen.value, now);
      while i < |watched|
        invariant 0 <= i <= |watched|
        invariant records == StepAll(was, watched[..i], seen.value, now)
        invariant alarms == SaysAll(was, watched[..i], seen.value, now)
      {
        var ip := watched[i];
        assert watched[..i + 1] == watched[..i] + [ip] && ip !in watched[..i];
        NotYetLookedAt(was, watched[..i], ip, seen.value, now);
        StepOneMore(was, watched[..i], ip, seen.value, now);
        var said := LookAt(ip, ip in seen.value, now);
        alarms := alarms + said;
        i := i + 1;
      }
      assert watched[..i] == watched;
    }

    method LookAt(ip: string, visible: bool, now: int) returns (alarms: seq<Alarm>)
      modifies this
      ensures records == old(records)[ip := Step(Get(old(records), ip), visible, now)]
      ensures alarms == Says(ip, Get(old(records), ip), visible, now)
    {
      alarms := [];
      var rec := if ip in records then records[ip] else Record(0, false, now);
      if visible {
        if rec.alarmed { alarms := [Back(ip, Minutes(now - rec.since))]; }
        rec := Record(0, false, now);
      } else {
        rec := rec.(misses := rec.misses + 1);
        if rec.misses == 1 { rec := rec.(since := now); }
        if rec.misses >= MISSES_BEFORE_ALARM && !rec.alarmed {
          rec := rec.(alarmed := true);
          alarms := [Gone(ip, rec.misses, Minutes(now - rec.since))];
        }
      }
      records := records[ip := rec];
    }
  }

  lemma NobodyWatched(records: map<string, Record>, watched: seq<string>, seen: set<string>, now: int)
    ensures StepAll(records, watched[..0], seen, now) == records && SaysAll(records, watched[..0], seen, now) == []
  {}

  lemma NotYetLookedAt(records: map<string, Record>, watched: seq<string>, ip: string, seen: set<string>, now: int)
    requires ip !in watched
    ensures Get(StepAll(records, watched, seen, now), ip) == Get(records, ip)
  {}

  lemma StepOneMore(records: map<string, Record>, watched: seq<string>, ip: string, seen: set<string>, now: int)
    requires ip !in watched
    ensures StepAll(records, watched + [ip], seen, now)
         == StepAll(records, watched, seen, now)[ip := Step(Get(records, ip), ip in seen, now)]
    ensures SaysAll(records, watched + [ip], seen, now)
         == SaysAll(records, watched, seen, now) + Says(ip, Get(records, ip), ip in seen, now)
  {
    hide Step, Says;
    assert (watched + [ip])[..|watched|] == watched;
  }

  /** A run says at most one thing of each seed, in the order they are watched, and leaves none out. */
  lemma {:induction false} OfEachSeed(records: map<string, Record>, watched: seq<string>, seen: set<string>, now: int)
    returns (at: seq<nat>)
    ensures var said := SaysAll(records, watched, seen, now);
            && |at| == |said| && Ascending(at)
            && (forall k :: 0 <= k < |at| ==>
                  at[k] < |watched| && SaidOf(records, watched[at[k]], seen, now) == [said[k]])
            && (forall n :: 0 <= n < |watched| && SaidOf(records, watched[n], seen, now) != [] ==> n in at)
  {
    hide Says, Get, SaidOf, SaysAll;
    at := [];
    NoneSaid(records, seen, now);
    if watched != [] {
      var n := |watched| - 1;
      at := OfEachSeed(records, watched[..n], seen, now);
      SaidOfLast(records, watched, seen, now);
      assert forall k :: 0 <= k < n ==> watched[..n][k] == watched[k];
      AtMostOne(records, watched[n], seen, now);
      if SaidOf(records, watched[n], seen, now) != [] { at := at + [n]; }
    }
  }

  lemma NoneSaid(records: map<string, Record>, seen: set<string>, now: int)
    ensures SaysAll(records, [], seen, now) == []
  {}

  lemma SaidOfLast(records: map<string, Record>, watched: seq<string>, seen: set<string>, now: int)
    requires watched != []
    ensures var n := |watched| - 1;
            SaysAll(records, watched, seen, now)
              == SaysAll(records, watched[..n], seen, now) + SaidOf(records, watched[n], seen, now)
  {}

  function SaidOf(records: map<string, Record>, ip: string, seen: set<string>, now: int): seq<Alarm> {
    Says(ip, Get(records, ip), ip in seen, now)
  }

  lemma AtMostOne(records: map<string, Record>, ip: string, seen: set<string>, now: int)
    ensures |SaidOf(records, ip, seen, now)| <= 1
  {}

  // ------------------------------------------------------------------ one seed over whole runs

  /** One run: the peers seen, if the node answered at all, and whether the state could be written. */
  datatype Run = Run(seen: Option<set<string>>, now: int, saved: bool)

  datatype Look = Look(visible: bool, now: int)

  /** What is on file for a seed after some runs. */
  function OnFile(ip: string, runs: seq<Run>): Option<Record> {
    if runs == [] then None else
    var n := |runs| - 1;
    var before := OnFile(ip, runs[..n]);
    if runs[n].seen.Some? && runs[n].saved then Some(Step(before, ip in runs[n].seen.value, runs[n].now)) else before
  }

  /** The runs that count: answered, and written down. */
  function Looks(ip: string, runs: seq<Run>): seq<Look> {
    if runs == [] then [] else
    var n := |runs| - 1;
    Looks(ip, runs[..n])
    + if runs[n].seen.Some? && runs[n].saved then [Look(ip in runs[n].seen.value, runs[n].now)] else []
  }

  /** The misses since the last sighting. */
  function Misses(looks: seq<Look>): (k: nat)
    ensures k <= |looks|
    ensures forall i :: |looks| - k <= i < |looks| ==> !looks[i].visible
    ensures k < |looks| ==> looks[|looks| - k - 1].visible
  {
    if looks == [] || looks[|looks| - 1].visible then 0 else 1 + Misses(looks[..|looks| - 1])
  }

  /** When the present stretch began: the first of the trailing misses, or the last sighting. */
  function Began(looks: seq<Look>): int
    requires looks != []
  {
    var k := Misses(looks);
    looks[|looks| - if k == 0 then 1 else k].now
  }

  /** The record the looks call for. */
  function Recorded(looks: seq<Look>): Option<Record> {
    if looks == [] then None
    else Some(Record(Misses(looks), Misses(looks) >= MISSES_BEFORE_ALARM, Began(looks)))
  }

  /** The record is a function of the looks alone; a run whose node did not answer changes nothing. */
  lemma {:induction false} RecordIsHistory(ip: string, runs: seq<Run>)
    ensures OnFile(ip, runs) == Recorded(Looks(ip, runs))
  {
    if runs != [] {
      var n := |runs| - 1;
      RecordIsHistory(ip, runs[..n]);
      var before, looks := Looks(ip, runs[..n]), Looks(ip, runs);
      if runs[n].seen.Some? && runs[n].saved {
        assert looks[..|looks| - 1] == before;
      } else {
        assert looks == before;
      }
    }
  }

  /** What is due after some looks, on a further one. */
  function Due(ip: string, looks: seq<Look>, visible: bool, now: int): seq<Alarm> {
    if !visible && Misses(looks) == 2 then [Gone(ip, 3, Minutes(now - Began(looks)))]
    else if visible && Misses(looks) >= 3 then [Back(ip, Minutes(now - Began(looks)))]
    else []
  }

  /**
   When it speaks: an alarm exactly on the third consecutive miss, counting from the
   last sighting, and a recovery exactly on the first sighting after three misses or more.
   */
  lemma SpeaksExactlyWhen(ip: string, runs: seq<Run>, visible: bool, now: int)
    ensures Says(ip, OnFile(ip, runs), visible, now) == Due(ip, Looks(ip, runs), visible, now)
  {
    RecordIsHistory(ip, runs);
  }

  /** The very first run says nothing, so skipping its alarms loses none. */
  lemma {:induction false} FirstRunIsQuiet(watched: seq<string>, seen: set<string>, now: int)
    ensures SaysAll(map[], watched, seen, now) == []
  {
    if watched != [] { FirstRunIsQuiet(watched[..|watched| - 1], seen, now); }
  }

  /** Everything said about one seed. */
  function Heard(ip: string, runs: seq<Run>): seq<Alarm> {
    if runs == [] then [] else
    var n := |runs| - 1;
    Heard(ip, runs[..n])
    + if runs[n].seen.Some? then Says(ip, OnFile(ip, runs[..n]), ip in runs[n].seen.value, runs[n].now) else []
  }

  predicate AllSaved(runs: seq<Run>) { forall i :: 0 <= i < |runs| ==> runs[i].saved }

  predicate Alternates(q: seq<Alarm>) { forall i :: 0 <= i < |q| ==> (q[i].Gone? <==> i % 2 == 0) }

  /** Whether a run that finds this record on file speaks, whatever its clock. */
  predicate Speaks(rec: Option<Record>, visible: bool) {
    rec.Some? && if visible then rec.value.alarmed else !rec.value.alarmed && rec.value.misses >= 2
  }

  lemma SaysWhenItSpeaks(ip: string, rec: Option<Record>, visible: bool, now: int)
    ensures |Says(ip, rec, visible, now)| == if Speaks(rec, visible) then 1 else 0
    ensures Speaks(rec, visible) ==> (Says(ip, rec, visible, now)[0].Gone? <==> !visible)
  {}

  predicate SpeaksAt(ip: string, runs: seq<Run>, i: nat)
    requires i < |runs|
  {
    runs[i].seen.Some? && Speaks(OnFile(ip, runs[..i]), ip in runs[i].seen.value)
  }

  predicate Alarmed(rec: Option<Record>) { rec.Some? && rec.value.alarmed }

  /** The record turns only at a written word: to alarmed by an alarm, back by a recovery. */
  lemma AlarmedTurns(rec: Option<Record>, visible: bool, now: int)
    ensures Speaks(rec, visible) ==> (visible <==> Alarmed(rec))
    ensures Step(rec, visible, now).alarmed <==> Alarmed(rec) != Speaks(rec, visible)
  {}

  /** Every run that has something to say, but for the last that does, was written down. */
  predicate WordsWritten(ip: string, runs: seq<Run>) {
    forall j, k :: 0 <= j < k < |runs| && SpeaksAt(ip, runs, j) && SpeaksAt(ip, runs, k) ==> runs[j].saved
  }

  /** The runs as turns of a flag on disk, which is `alarmed`. */
  function Turns(ip: string, runs: seq<Run>): (steps: seq<Toggle.Step>)
    ensures |steps| == |runs|
  {
    if runs == [] then [] else
    var n := |runs| - 1;
    Turns(ip, runs[..n]) + [Toggle.Step(SpeaksAt(ip, runs, n), runs[n].saved)]
  }

  function AreGone(q: seq<Alarm>): seq<bool> { seq(|q|, i requires 0 <= i < |q| => q[i].Gone?) }

  lemma {:induction false} TurnAt(ip: string, runs: seq<Run>, i: nat)
    requires i < |runs|
    ensures Turns(ip, runs)[i] == Toggle.Step(SpeaksAt(ip, runs, i), runs[i].saved)
  {
    var n := |runs| - 1;
    if i < n {
      TurnAt(ip, runs[..n], i);
      assert runs[..n][..i] == runs[..i];
    }
  }

  /** What the last of some runs adds to what was heard: the word the record it finds calls for, or nothing. */
  lemma HeardOneMore(ip: string, runs: seq<Run>) returns (more: seq<Alarm>)
    requires runs != []
    ensures Heard(ip, runs) == Heard(ip, runs[..|runs| - 1]) + more
    ensures |more| == if SpeaksAt(ip, runs, |runs| - 1) then 1 else 0
    ensures more != [] ==> (more[0].Gone? <==> !Alarmed(OnFile(ip, runs[..|runs| - 1])))
    ensures Alarmed(OnFile(ip, runs)) <==>
              Alarmed(OnFile(ip, runs[..|runs| - 1])) != (SpeaksAt(ip, runs, |runs| - 1) && runs[|runs| - 1].saved)
  {
    var n := |runs| - 1;
    var rec, r := OnFile(ip, runs[..n]), runs[n];
    more := [];
    if r.seen.Some? {
      var visible := ip in r.seen.value;
      more := Says(ip, rec, visible, r.now);
      SaysWhenItSpeaks(ip, rec, visible, r.now);
      AlarmedTurns(rec, visible, r.now);
    }
    hide Says, Step, Speaks;
  }

  lemma {:induction false} TurnsTheFlag(ip: string, runs: seq<Run>)
    ensures Toggle.Flag(false, Turns(ip, runs)) == Alarmed(OnFile(ip, runs))
    ensures Toggle.Words(false, Turns(ip, runs)) == AreGone(Heard(ip, runs))
  {
    if runs != [] {
      var n := |runs| - 1;
      TurnsTheFlag(ip, runs[..n]);
      var more := HeardOneMore(ip, runs);
      assert Turns(ip, runs)[..n] == Turns(ip, runs[..n]);
      assert AreGone(Heard(ip, runs)) == AreGone(Heard(ip, runs[..n])) + AreGone(more);
      hide Heard, OnFile, Alarmed, SpeaksAt;
    }
  }

  lemma TurnsAreAlarms(q: seq<Alarm>)
    ensures Alternates(q) <==> Toggle.Alternates(false, AreGone(q))
  {
    assert forall i :: 0 <= i < |q| ==> AreGone(q)[i] == q[i].Gone?;
  }

  lemma TurnsAreWritten(ip: string, runs: seq<Run>)
    ensures Toggle.Written(Turns(ip, runs)) <==> WordsWritten(ip, runs)
  {
    hide SpeaksAt, Turns;
    forall i | 0 <= i < |runs| ensures Turns(ip, runs)[i] == Toggle.Step(SpeaksAt(ip, runs, i), runs[i].saved) {
      TurnAt(ip, runs, i);
    }
  }

  /**
   "It says it once ... when the host comes back it says that once too": over any runs,
   written or not, alarms and recoveries strictly alternate, an alarm first, exactly when
   every run that says one, but for the last that does, was written down.
   */
  lemma AlternatesExactly(ip: string, runs: seq<Run>)
    ensures Alternates(Heard(ip, runs)) <==> WordsWritten(ip, runs)
  {
    hide *;
    TurnsTheFlag(ip, runs);
    Toggle.AlternatesExactly(false, Turns(ip, runs));
    TurnsAreAlarms(Heard(ip, runs));
    TurnsAreWritten(ip, runs);
  }

  /** So they do when every write succeeds, and then the record says which came last. */
  lemma AlarmsAlternate(ip: string, runs: seq<Run>)
    requires AllSaved(runs)
    ensures Alternates(Heard(ip, runs))
    ensures |Heard(ip, runs)| % 2 == 1 <==> Alarmed(OnFile(ip, runs))
  {
    AlternatesExactly(ip, runs);
    ParityIsFlag(ip, runs);
  }

  lemma {:induction false} ParityIsFlag(ip: string, runs: seq<Run>)
    requires AllSaved(runs)
    ensures |Heard(ip, runs)| % 2 == 1 <==> Alarmed(OnFile(ip, runs))
  {
    if runs != [] {
      ParityIsFlag(ip, runs[..|runs| - 1]);
      var more := HeardOneMore(ip, runs);
      hide Heard, OnFile, Alarmed, SpeaksAt;
    }
  }

  predicate AllUnsaved(runs: seq<Run>) { forall i :: 0 <= i < |runs| ==> !runs[i].saved }

  /** The answered runs that find a record to speak about. */
  function Loud(ip: string, rec: Option<Record>, runs: seq<Run>): nat {
    if runs == [] then 0 else
    var r := runs[|runs| - 1];
    Loud(ip, rec, runs[..|runs| - 1]) + if r.seen.Some? && Speaks(rec, ip in r.seen.value) then 1 else 0
  }

  /** What runs say when they all find the same record. */
  function SaidAgainst(ip: string, rec: Option<Record>, runs: seq<Run>): seq<Alarm> {
    if runs == [] then [] else
    var r := runs[|runs| - 1];
    SaidAgainst(ip, rec, runs[..|runs| - 1])
    + if r.seen.Some? then Says(ip, rec, ip in r.seen.value, r.now) else []
  }

  /**
   "It says it once" needs the write. While the file cannot be written the record stands
   still, and every answered run that finds it worth a word says that word again: after two
   written misses each further miss is an alarm, after an alarm each sighting a recovery.
   */
  lemma {:induction false} UnsavedRunsRepeat(ip: string, runs: seq<Run>, more: seq<Run>)
    requires AllUnsaved(more)
    ensures OnFile(ip, runs + more) == OnFile(ip, runs)
    ensures Heard(ip, runs + more) == Heard(ip, runs) + SaidAgainst(ip, OnFile(ip, runs), more)
    ensures |SaidAgainst(ip, OnFile(ip, runs), more)| == Loud(ip, OnFile(ip, runs), more)
  {
    if more == [] {
      assert runs + more == runs;
    } else {
      var n := |more| - 1;
      assert (runs + more)[..|runs| + n] == runs + more[..n];
      UnsavedRunsRepeat(ip, runs, more[..n]);
      if more[n].seen.Some? { SaysWhenItSpeaks(ip, OnFile(ip, runs), ip in more[n].seen.value, more[n].now); }
    }
  }

  /** Two misses were written down; from then on every miss that is not raises the alarm, at any clock. */
  lemma UnsavedMissAlarms(ip: string, runs: seq<Run>, more: seq<Run>, now: int)
    requires AllUnsaved(more) && Misses(Looks(ip, runs)) == 2
    ensures Says(ip, OnFile(ip, runs + more), false, now)
         == [Gone(ip, 3, Minutes(now - Began(Looks(ip, runs))))]
  {
    UnsavedRunsRepeat(ip, runs, more);
    SpeaksExactlyWhen(ip, runs, false, now);
  }

  /** And a file that never could be written means silence: a dead seed is never announced at all. */
  lemma NeverWrittenNeverSpeaks(ip: string, runs: seq<Run>)
    requires AllUnsaved(runs)
    ensures OnFile(ip, runs) == None && Heard(ip, runs) == []
  {
    UnsavedRunsRepeat(ip, [], runs);
    NothingLoud(ip, runs);
    assert [] + runs == runs;
  }

  lemma {:induction false} NothingLoud(ip: string, runs: seq<Run>)
    ensures Loud(ip, None, runs) == 0
  {
    if runs != [] { NothingLoud(ip, runs[..|runs| - 1]); }
  }

  /** Watching the others does not disturb the watch on one: the file holds `OnFile` of every seed. */
  lemma {:induction false} FileHoldsEachSeed(watched: seq<string>, runs: seq<Run>, ip: string)
    requires ip in watched
    ensures Get(FileAfter(watched, runs), ip) == OnFile(ip, runs)
  {
    if runs != [] { FileHoldsEachSeed(watched, runs[..|runs| - 1], ip); }
  }

  function FileAfter(watched: seq<string>, runs: seq<Run>): map<string, Record> {
    if runs == [] then map[] else
    var n := |runs| - 1;
    var before := FileAfter(watched, runs[..n]);
    if runs[n].seen.Some? && runs[n].saved then StepAll(before, watched, runs[n].seen.value, runs[n].now) else before
  }
}
