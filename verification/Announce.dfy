/**
 The announcement bot's `tick`: what it remembers in its state file, what it says, and
 what whole runs of it say, crashes included.
 */
module Announce {
  import opened Options
  import Heartbeat
  import opened Sets
  import Toggle

  datatype Config = Config(milestones: seq<nat>, stallMinutes: int, hour: nat)

  /** A published release, and whether what can be downloaded of it verifies. */
  datatype Release = Release(tag: string, verifies: bool)

  /** What one tick reads: the clock in milliseconds, the node, the releases page. */
  datatype Sight = Sight(now: nat, height: nat, subsidy: Option<int>, seedHeight: Option<int>,
                         release: Option<Release>)

  datatype Message =
    | Halving(before: int, after: int, height: nat)
    | Rotation(seedHeight: int, height: nat)
    | Milestone(target: nat)
    | Stall(minutes: int, height: nat)
    | Recovered(height: nat, minutes: int)
    | Published(tag: string)
    | Held(tag: string)
    | Beat

  /** The messages that go to the operator and not to the channels. */
  predicate OpsOnly(m: Message) { m.Stall? || m.Recovered? || m.Held? }

  datatype Memory = Memory(lastSubsidy: Option<int>, lastSeedHeight: Option<int>, milestonesSeen: set<nat>,
                           lastHeight: Option<nat>, lastHeightAt: nat, stallAnnounced: bool,
                           lastReleaseTag: Option<string>, releaseHeldTag: Option<string>, lastHeartbeatAt: nat)

  const FRESH := Memory(None, None, {}, None, 0, false, None, None, 0)

  // ------------------------------------------------------------------ one tick, part by part

  function Latest<T>(seen: Option<T>, before: Option<T>): Option<T> { if seen.Some? then seen else before }

  function SayHalving(m: Memory, s: Sight): seq<Message> {
    if s.subsidy.Some? && m.lastSubsidy.Some? && s.subsidy.value < m.lastSubsidy.value
    then [Halving(m.lastSubsidy.value, s.subsidy.value, s.height)] else []
  }

  function SayRotation(m: Memory, s: Sight): seq<Message> {
    if s.seedHeight.Some? && m.lastSeedHeight.Some? && s.seedHeight != m.lastSeedHeight
    then [Rotation(s.seedHeight.value, s.height)] else []
  }

  /** The milestones a tick announces, in the configured order, given those already seen. */
  function SayMilestones(targets: seq<nat>, seen: set<nat>, last: Option<nat>, height: nat): seq<Message> {
    if targets == [] then [] else
    var h, rest := targets[0], targets[1..];
    if height >= h && h !in seen
    then (if last.Some? && last.value < h then [Milestone(h)] else [])
         + SayMilestones(rest, seen + {h}, last, height)
    else SayMilestones(rest, seen, last, height)
  }

  lemma MilestoneStep(targets: seq<nat>, i: nat, seen: set<nat>, last: Option<nat>, height: nat)
    requires i < |targets|
    ensures var h := targets[i];
            SayMilestones(targets[i..], seen, last, height)
              == if height >= h && h !in seen
                 then (if last.Some? && last.value < h then [Milestone(h)] else [])
                      + SayMilestones(targets[i + 1..], seen + {h}, last, height)
                 else SayMilestones(targets[i + 1..], seen, last, height)
  {
    assert targets[i..][1..] == targets[i + 1..];
  }

  lemma NoMoreMilestones(targets: seq<nat>, seen: set<nat>, last: Option<nat>, height: nat)
    requires targets == []
    ensures SayMilestones(targets, seen, last, height) == []
  {}

  function Reached(targets: seq<nat>, height: nat): set<nat> { set h | h in targets && height >= h }

  lemma NothingReached(targets: seq<nat>, height: nat)
    ensures Reached(targets[..0], height) == {}
  {}

  lemma ReachedOneMore(targets: seq<nat>, i: nat, height: nat)
    requires i < |targets|
    ensures Reached(targets[..i + 1], height)
         == Reached(targets[..i], height) + if height >= targets[i] then {targets[i]} else {}
  {
    assert targets[..i + 1] == targets[..i] + [targets[i]];
  }

  /** `Math.round` of milliseconds to minutes: halves go up. */
  function Minutes(ms: int): int { (ms + 30_000) / 60_000 }

  /** `now - (lastHeightAt || now)`, in minutes. */
  function SilentFor(m: Memory, s: Sight): int {
    Minutes(if m.lastHeightAt == 0 then 0 else s.now - m.lastHeightAt)
  }

  function SayStall(cfg: Config, m: Memory, s: Sight): seq<Message> {
    if m.lastHeight == Some(s.height) then
      if SilentFor(m, s) >= cfg.stallMinutes && !m.stallAnnounced then [Stall(SilentFor(m, s), s.height)] else []
    else if m.stallAnnounced then [Recovered(s.height, SilentFor(m, s))] else []
  }

  predicate NewRelease(m: Memory, s: Sight) {
    s.release.Some? && s.release.value.tag != "" && m.lastReleaseTag != Some(s.release.value.tag)
  }

  function SayRelease(m: Memory, s: Sight): seq<Message> {
    if !NewRelease(m, s) then []
    else if s.release.value.verifies then
      if m.lastReleaseTag.Some? then [Published(s.release.value.tag)] else []
    else if m.releaseHeldTag != Some(s.release.value.tag) then [Held(s.release.value.tag)] else []
  }

  function SayBeat(cfg: Config, m: Memory, s: Sight): seq<Message> {
    if Heartbeat.Beats(m.lastHeartbeatAt, s.now, cfg.hour) then [Beat] else []
  }

  function Say(cfg: Config, m: Memory, s: Sight): seq<Message> {
    SayHalving(m, s) + SayRotation(m, s) + SayMilestones(cfg.milestones, m.milestonesSeen, m.lastHeight, s.height)
    + SayStall(cfg, m, s) + SayRelease(m, s) + SayBeat(cfg, m, s)
  }

  function Next(cfg: Config, m: Memory, s: Sight): Memory {
    Memory(Latest(s.subsidy, m.lastSubsidy),
           Latest(s.seedHeight, m.lastSeedHeight),
           m.milestonesSeen + Reached(cfg.milestones, s.height),
           Some(s.height),
           if m.lastHeight == Some(s.height) then m.lastHeightAt else s.now,
           m.lastHeight == Some(s.height) && (m.stallAnnounced || SilentFor(m, s) >= cfg.stallMinutes),
           if NewRelease(m, s) && s.release.value.verifies then Some(s.release.value.tag) else m.lastReleaseTag,
           if NewRelease(m, s) && !s.release.value.verifies then Some(s.release.value.tag) else m.releaseHeldTag,
           if Heartbeat.Beats(m.lastHeartbeatAt, s.now, cfg.hour) then s.now else m.lastHeartbeatAt)
  }

  // ------------------------------------------------------------------ as it runs

  lemma OpsOnlyOf(public: seq<Message>, outage: seq<Message>, release: seq<Message>, beat: seq<Message>,
                  held: set<Message>)
    requires forall m :: m in public || m in beat ==> !OpsOnly(m)
    requires forall m :: m in outage ==> OpsOnly(m)
    requires held == set m | m in release && OpsOnly(m)
    ensures (set m | m in outage) + held == set m | m in public + outage + release + beat && OpsOnly(m)
  {
    hide OpsOnly;
  }

  /** The bot's state, updated in place. */
  class Bot {
    var lastSubsidy: Option<int>
    var lastSeedHeight: Option<int>
    var milestonesSeen: set<nat>
    var lastHeight: Option<nat>
    var lastHeightAt: nat
    var stallAnnounced: bool
    var lastReleaseTag: Option<string>
    var releaseHeldTag: Option<string>
    var lastHeartbeatAt: nat

    function View(): Memory
      reads this
    {
      Memory(lastSubsidy, lastSeedHeight, milestonesSeen, lastHeight, lastHeightAt, stallAnnounced,
             lastReleaseTag, releaseHeldTag, lastHeartbeatAt)
    }

    constructor ()
      ensures View() == FRESH
    {
      lastSubsidy, lastSeedHeight, milestonesSeen := None, None, {};
      lastHeight, lastHeightAt, stallAnnounced := None, 0, false;
      lastReleaseTag, releaseHeldTag, lastHeartbeatAt := None, None, 0;
    }

    method Tick(cfg: Config, s: Sight) returns (out: seq<Message>, opsOnly: set<Message>)
      modifies this
      ensures View() == Next(cfg, old(View()), s)
      ensures out == Say(cfg, old(View()), s)
      ensures opsOnly == set m | m in out && OpsOnly(m)
      ensures forall m :: m in opsOnly <==> m in out && (m.Stall? || m.Recovered? || m.Held?)
      ensures forall m :: m in out && m.Published? ==> s.release == Some(Release(m.tag, true))
      ensures forall m :: m in out && m.Held? ==> s.release == Some(Release(m.tag, false))
    {
      hide SayMilestones, Heartbeat.Beats, Minutes, OpsOnly, Reached;
      ghost var was := View();
      var halving := WatchSubsidy(s);
      var rotation := WatchSeedHeight(s);
      var milestones := CrossMilestones(cfg, s);
      var outage := WatchHeight(cfg, s);
      var release, held := WatchReleases(s);
      var beat := WatchClock(cfg, s);
      assert View() == Next(cfg, was, s);
      assert rotation == SayRotation(was, s) && outage == SayStall(cfg, was, s);
      assert release == SayRelease(was, s) && beat == SayBeat(cfg, was, s);
      hide SayHalving, SayRotation, SayStall, SayRelease, SayBeat, Next;
      out := halving + rotation + milestones + outage + release + beat;
      opsOnly := (set m | m in outage) + held;
      OpsOnlyOf(halving + rotation + milestones, outage, release, beat, held);
      NotesAre(out);
      ReleasesAreSeen(cfg, was, s);
    }

    method WatchSubsidy(s: Sight) returns (out: seq<Message>)
      modifies this`lastSubsidy
      ensures out == SayHalving(old(View()), s) && forall m :: m in out ==> !OpsOnly(m)
      ensures lastSubsidy == Latest(s.subsidy, old(lastSubsidy))
    {
      out := [];
      if s.subsidy.Some? && lastSubsidy.Some? && s.subsidy != lastSubsidy {
        if s.subsidy.value < lastSubsidy.value {
          out := [Halving(lastSubsidy.value, s.subsidy.value, s.height)];
        }
      }
      if s.subsidy.Some? { lastSubsidy := s.subsidy; }
    }

    method WatchSeedHeight(s: Sight) returns (out: seq<Message>)
      modifies this`lastSeedHeight
      ensures out == SayRotation(old(View()), s) && forall m :: m in out ==> !OpsOnly(m)
      ensures lastSeedHeight == Latest(s.seedHeight, old(lastSeedHeight))
    {
      out := [];
      if s.seedHeight.Some? && lastSeedHeight.Some? && s.seedHeight != lastSeedHeight {
        out := [Rotation(s.seedHeight.value, s.height)];
      }
      if s.seedHeight.Some? { lastSeedHeight := s.seedHeight; }
    }

    method WatchHeight(cfg: Config, s: Sight) returns (out: seq<Message>)
      modifies this`lastHeight, this`lastHeightAt, this`stallAnnounced
      ensures out == SayStall(cfg, old(View()), s) && forall m :: m in out ==> OpsOnly(m)
      ensures lastHeight == Some(s.height)
      ensures lastHeightAt == if old(lastHeight) == Some(s.height) then old(lastHeightAt) else s.now
      ensures stallAnnounced <==> old(lastHeight) == Some(s.height)
                                  && (old(stallAnnounced) || SilentFor(old(View()), s) >= cfg.stallMinutes)
    {
      out := [];
      var silent := SilentFor(View(), s);
      if lastHeight == Some(s.height) {
        if silent >= cfg.stallMinutes && !stallAnnounced {
          out := [Stall(silent, s.height)];
          stallAnnounced := true;
        }
      } else {
        if stallAnnounced {
          out := [Recovered(s.height, silent)];
          stallAnnounced := false;
        }
        lastHeight, lastHeightAt := Some(s.height), s.now;
      }
    }

    method WatchReleases(s: Sight) returns (out: seq<Message>, opsOnly: set<Message>)
      modifies this`lastReleaseTag, this`releaseHeldTag
      ensures out == SayRelease(old(View()), s) && opsOnly == set m | m in out && OpsOnly(m)
      ensures lastReleaseTag == if NewRelease(old(View()), s) && s.release.value.verifies
                                then Some(s.release.value.tag) else old(lastReleaseTag)
      ensures releaseHeldTag == if NewRelease(old(View()), s) && !s.release.value.verifies
                                then Some(s.release.value.tag) else old(releaseHeldTag)
    {
      out, opsOnly := [], {};
      if NewRelease(View(), s) {
        var tag := s.release.value.tag;
        if s.release.value.verifies {
          if lastReleaseTag.Some? { out := [Published(tag)]; }
          lastReleaseTag := Some(tag);
        } else if releaseHeldTag != Some(tag) {
          releaseHeldTag := Some(tag);
          out, opsOnly := [Held(tag)], {Held(tag)};
        }
      }
    }

    method WatchClock(cfg: Config, s: Sight) returns (out: seq<Message>)
      modifies this`lastHeartbeatAt
      ensures out == SayBeat(cfg, old(View()), s) && forall m :: m in out ==> !OpsOnly(m)
      ensures lastHeartbeatAt == if Heartbeat.Beats(old(lastHeartbeatAt), s.now, cfg.hour)
                                 then s.now else old(lastHeartbeatAt)
    {
      out := [];
      var due := Heartbeat.DueToday(s.now, cfg.hour);
      if s.now >= due && lastHeartbeatAt < due {
        out := [Beat];
        lastHeartbeatAt := s.now;
      } else if lastHeartbeatAt != 0 && s.now - lastHeartbeatAt >= Heartbeat.LATE {
        out := [Beat];
        lastHeartbeatAt := s.now;
      }
    }

    method CrossMilestones(cfg: Config, s: Sight) returns (out: seq<Message>)
      modifies this`milestonesSeen
      ensures out == SayMilestones(cfg.milestones, old(milestonesSeen), lastHeight, s.height)
      ensures milestonesSeen == old(milestonesSeen) + Reached(cfg.milestones, s.height)
      ensures forall m :: m in out ==> !OpsOnly(m)
    {
      hide Reached, SayMilestones;
      var targets, last, height, had := cfg.milestones, lastHeight, s.height, milestonesSeen;
      var seen := had;
      out := [];
      var i := 0;
      NothingReached(targets, height);
      assert targets[0..] == targets;
      while i < |targets|
        invariant 0 <= i <= |targets|
        invariant seen == had + Reached(targets[..i], height)
        invariant out + SayMilestones(targets[i..], seen, last, height) == SayMilestones(targets, had, last, height)
        invariant forall m :: m in out ==> m.Milestone?
      {
        var h := targets[i];
        ReachedOneMore(targets, i, height);
        MilestoneStep(targets, i, seen, last, height);
        if height >= h && h !in seen {
          if last.Some? && last.value < h {
            out := out + [Milestone(h)];
          }
          seen := seen + {h};
        }
        i := i + 1;
      }
      assert targets[..i] == targets;
      NoMoreMilestones(targets[i..], seen, last, height);
      milestonesSeen := seen;
    }
  }

  // ------------------------------------------------------------------ what it remembers of a run

  /** The state after a run of ticks from a fresh start, each one saved. */
  function After(cfg: Config, seen: seq<Sight>): Memory {
    if seen == [] then FRESH else
    var n := |seen| - 1;
    Next(cfg, After(cfg, seen[..n]), seen[n])
  }

  /** The clock never reads zero. */
  predicate Timed(seen: seq<Sight>) { forall i :: 0 <= i < |seen| ==> seen[i].now >= 1 }

  /** Where the trailing stretch of ticks at one height begins. */
  function Since(seen: seq<Sight>): (i: nat)
    requires seen != []
    ensures i < |seen|
    ensures forall j :: i <= j < |seen| ==> seen[j].height == seen[|seen| - 1].height
    ensures i > 0 ==> seen[i - 1].height != seen[i].height
  {
    var n := |seen| - 1;
    if n == 0 || seen[n - 1].height != seen[n].height then n else Since(seen[..n])
  }

  /** Some tick of the trailing stretch found the height unchanged for long enough. */
  predicate WentQuiet(cfg: Config, seen: seq<Sight>)
    requires seen != []
  {
    var start := Since(seen);
    exists j :: start < j < |seen| && Minutes(seen[j].now - seen[start].now) >= cfg.stallMinutes
  }

  /** The state is a function of the history: height, its first sighting, and whether a stall was said. */
  lemma {:induction false} RemembersHeight(cfg: Config, seen: seq<Sight>)
    requires seen != [] && Timed(seen)
    ensures After(cfg, seen).lastHeight == Some(seen[|seen| - 1].height)
    ensures After(cfg, seen).lastHeightAt == seen[Since(seen)].now
    ensures After(cfg, seen).stallAnnounced <==> WentQuiet(cfg, seen)
  {
    var n := |seen| - 1;
    var before := seen[..n];
    if n > 0 {
      RemembersHeight(cfg, before);
      if seen[n - 1].height == seen[n].height {
        var start := Since(before);
        assert Since(seen) == start;
        assert forall j :: start < j < n ==> before[j] == seen[j];
        assert WentQuiet(cfg, seen) <==>
               WentQuiet(cfg, before) || Minutes(seen[n].now - seen[start].now) >= cfg.stallMinutes;
      }
    }
  }

  ghost predicate EverAbove(seen: seq<Sight>, h: nat) { exists i :: 0 <= i < |seen| && seen[i].height >= h }

  lemma {:induction false} RemembersMilestones(cfg: Config, seen: seq<Sight>, h: nat)
    ensures h in After(cfg, seen).milestonesSeen <==> h in cfg.milestones && EverAbove(seen, h)
  {
    if seen != [] {
      var n := |seen| - 1;
      RemembersMilestones(cfg, seen[..n], h);
      assert EverAbove(seen, h) <==> EverAbove(seen[..n], h) || seen[n].height >= h;
    }
  }

  /** What was last known of something the node does not always give: the subsidy, the seed height. */
  function LastKnown<T>(get: Sight -> Option<T>, seen: seq<Sight>): Option<T> {
    if seen == [] then None else
    var n := |seen| - 1;
    if get(seen[n]).Some? then get(seen[n]) else LastKnown(get, seen[..n])
  }

  /** The tag of a release that verifies. */
  function Verified(s: Sight): Option<string> {
    if s.release.Some? && s.release.value.tag != "" && s.release.value.verifies then Some(s.release.value.tag) else None
  }

  function LastVerified(seen: seq<Sight>): Option<string> { LastKnown(Verified, seen) }

  function LastSubsidy(seen: seq<Sight>): Option<int> { LastKnown((s: Sight) => s.subsidy, seen) }

  function LastSeedHeight(seen: seq<Sight>): Option<int> { LastKnown((s: Sight) => s.seedHeight, seen) }

  function Times(seen: seq<Sight>): seq<nat> { seq(|seen|, i requires 0 <= i < |seen| => seen[i].now) }

  lemma {:induction false} RemembersRest(cfg: Config, seen: seq<Sight>)
    ensures After(cfg, seen).lastReleaseTag == LastVerified(seen)
    ensures After(cfg, seen).lastSubsidy == LastSubsidy(seen)
    ensures After(cfg, seen).lastSeedHeight == LastSeedHeight(seen)
    ensures After(cfg, seen).lastHeartbeatAt == Heartbeat.LastAfter(cfg.hour, 0, Times(seen))
  {
    if seen != [] {
      var n := |seen| - 1;
      RemembersRest(cfg, seen[..n]);
      assert Times(seen)[..n] == Times(seen[..n]);
    }
  }

  // ------------------------------------------------------------------ what it says after a history

  lemma {:induction false} MilestonesSaid(targets: seq<nat>, seen: set<nat>, last: Option<nat>, height: nat, h: nat)
    ensures Milestone(h) in SayMilestones(targets, seen, last, height)
       <==> (h in targets && height >= h && h !in seen && last.Some? && last.value < h)
    ensures multiset(SayMilestones(targets, seen, last, height))[Milestone(h)] <= 1
    ensures forall k :: k in SayMilestones(targets, seen, last, height) ==> k.Milestone?
  {
    if targets != [] {
      var first, rest := targets[0], targets[1..];
      assert targets == [first] + rest;
      if height >= first && first !in seen {
        MilestonesSaid(rest, seen + {first}, last, height, h);
      } else {
        MilestonesSaid(rest, seen, last, height, h);
      }
    }
  }

  /**
   A milestone is announced exactly at the first tick at or above it, provided there was
   an earlier tick: one passed before the bot's first tick is never announced.
   */
  lemma MilestoneSaidWhen(cfg: Config, seen: seq<Sight>, s: Sight, h: nat)
    ensures Milestone(h) in Say(cfg, After(cfg, seen), s)
       <==> (h in cfg.milestones && seen != [] && s.height >= h && !EverAbove(seen, h))
  {
    var m := After(cfg, seen);
    MilestonesSaid(cfg.milestones, m.milestonesSeen, m.lastHeight, s.height, h);
    RemembersMilestones(cfg, seen, h);
    assert seen != [] ==> m.lastHeight == Some(seen[|seen| - 1].height);
    hide Next, SayMilestones, WentQuiet, Since;
    OnlyMilestonesSayMilestone(cfg, m, s, h);
    if seen != [] && EverAbove(seen, h) == false {
      assert seen[|seen| - 1].height < h;
    }
  }

  lemma MilestoneKinds(targets: seq<nat>, seen: set<nat>, last: Option<nat>, height: nat)
    ensures forall k :: k in SayMilestones(targets, seen, last, height) ==> k.Milestone?
  {
    hide SayMilestones;
    MilestonesSaid(targets, seen, last, height, 0);
  }

  /** Each section says only its own kinds of message. */
  lemma SectionKinds(cfg: Config, m: Memory, s: Sight)
    ensures forall k :: k in SayHalving(m, s) ==> k.Halving?
    ensures forall k :: k in SayRotation(m, s) ==> k.Rotation?
    ensures forall k :: k in SayMilestones(cfg.milestones, m.milestonesSeen, m.lastHeight, s.height) ==> k.Milestone?
    ensures forall k :: k in SayStall(cfg, m, s) ==> k.Stall? || k.Recovered?
    ensures forall k :: k in SayRelease(m, s) ==> k.Published? || k.Held?
    ensures forall k :: k in SayBeat(cfg, m, s) ==> k.Beat?
  {
    MilestoneKinds(cfg.milestones, m.milestonesSeen, m.lastHeight, s.height);
    hide SayMilestones, Heartbeat.Beats, Minutes, SilentFor, NewRelease;
  }

  lemma OnlyMilestonesSayMilestone(cfg: Config, m: Memory, s: Sight, h: nat)
    ensures Milestone(h) in Say(cfg, m, s)
       <==> Milestone(h) in SayMilestones(cfg.milestones, m.milestonesSeen, m.lastHeight, s.height)
  {
    SectionKinds(cfg, m, s);
    hide SayHalving, SayRotation, SayMilestones, SayStall, SayRelease, SayBeat;
  }

  lemma NotesAre(out: seq<Message>)
    ensures forall m :: m in out && OpsOnly(m) <==> m in out && (m.Stall? || m.Recovered? || m.Held?)
  {}

  /** A release is announced only as verified, and held only as not, in that very sight. */
  lemma ReleasesAreSeen(cfg: Config, m: Memory, s: Sight)
    ensures forall k :: k in Say(cfg, m, s) && k.Published? ==> s.release == Some(Release(k.tag, true))
    ensures forall k :: k in Say(cfg, m, s) && k.Held? ==> s.release == Some(Release(k.tag, false))
  {
    SectionKinds(cfg, m, s);
    assert forall k :: k in SayRelease(m, s) ==> s.release.Some? && k.tag == s.release.value.tag
                                                 && (k.Published? <==> s.release.value.verifies);
    hide SayHalving, SayRotation, SayMilestones, SayStall, SayRelease, SayBeat, NewRelease;
  }

  /** What a tick says comes in one order, and only milestones can be several. */
  lemma SaidInOrder(cfg: Config, m: Memory, s: Sight, i: nat, j: nat)
    requires i < j < |Say(cfg, m, s)|
    ensures var a, b := Say(cfg, m, s)[i], Say(cfg, m, s)[j];
            && !b.Halving?
            && (b.Rotation? ==> a.Halving?)
            && (b.Milestone? ==> a.Halving? || a.Rotation? || a.Milestone?)
            && (b.Stall? || b.Recovered? ==> a.Halving? || a.Rotation? || a.Milestone?)
            && (b.Published? || b.Held? ==> !a.Published? && !a.Held?)
            && !a.Beat?
  {
    SectionKinds(cfg, m, s);
    assert |SayHalving(m, s)| <= 1 && |SayRotation(m, s)| <= 1;
    assert |SayStall(cfg, m, s)| <= 1 && |SayRelease(m, s)| <= 1 && |SayBeat(cfg, m, s)| <= 1;
    hide SayHalving, SayRotation, SayMilestones, SayStall, SayRelease, SayBeat;
    var miles := SayMilestones(cfg.milestones, m.milestonesSeen, m.lastHeight, s.height);
    Place(SayHalving(m, s), SayRotation(m, s), miles, SayStall(cfg, m, s), SayRelease(m, s), SayBeat(cfg, m, s), i);
    Place(SayHalving(m, s), SayRotation(m, s), miles, SayStall(cfg, m, s), SayRelease(m, s), SayBeat(cfg, m, s), j);
  }

  /** Which section a message of a tick stands in. */
  lemma Place(a: seq<Message>, b: seq<Message>, c: seq<Message>, d: seq<Message>, e: seq<Message>, f: seq<Message>,
              i: nat)
    requires i < |a + b + c + d + e + f|
    ensures var x := (a + b + c + d + e + f)[i];
            var ab, de := |a| + |b|, |a| + |b| + |c| + |d|;
            || (i < |a| && x in a)
            || (|a| <= i < ab && x in b)
            || (ab <= i < ab + |c| && x in c)
            || (ab + |c| <= i < de && x in d)
            || (de <= i < de + |e| && x in e)
            || (de + |e| <= i && x in f)
  {}

  function OneOn(q: seq<nat>): (r: seq<nat>)
    ensures |r| == |q| && forall i :: 0 <= i < |q| ==> r[i] == q[i] + 1
  {
    seq(|q|, i requires 0 <= i < |q| => q[i] + 1)
  }

  /** `out` announces the milestones at the given places of the table, each at its first mention. */
  predicate AnnouncedAt(targets: seq<nat>, seen: set<nat>, height: nat, out: seq<Message>, at: seq<nat>) {
    && |at| == |out| && Ascending(at)
    && (forall i :: 0 <= i < |at| ==> at[i] < |targets| && out[i] == Milestone(targets[at[i]]))
    && (forall i :: 0 <= i < |at| ==> targets[at[i]] !in targets[..at[i]])
    && (forall i :: 0 <= i < |at| ==> targets[at[i]] !in seen && targets[at[i]] <= height)
  }

  lemma AnnouncedLater(targets: seq<nat>, seen: set<nat>, height: nat, out: seq<Message>, at: seq<nat>)
    requires targets != []
    requires var h := targets[0];
             AnnouncedAt(targets[1..], if height >= h && h !in seen then seen + {h} else seen, height, out, at)
    ensures AnnouncedAt(targets, seen, height, out, OneOn(at))
  {
    var rest, at' := targets[1..], OneOn(at);
    forall i | 0 <= i < |at'| ensures targets[at'[i]] !in targets[..at'[i]] {
      assert targets[at'[i]] == rest[at[i]];
      assert targets[..at'[i]] == [targets[0]] + rest[..at[i]];
    }
  }

  lemma AnnouncedFirst(targets: seq<nat>, seen: set<nat>, height: nat, out: seq<Message>, at: seq<nat>)
    requires AnnouncedAt(targets, seen, height, out, OneOn(at))
    requires targets != [] && targets[0] <= height && targets[0] !in seen
    ensures AnnouncedAt(targets, seen, height, [Milestone(targets[0])] + out, [0] + OneOn(at))
  {}

  /** The milestones come in the configured order, each at its first mention. */
  lemma {:induction false} MilestonesInOrder(targets: seq<nat>, seen: set<nat>, last: Option<nat>, height: nat)
    returns (at: seq<nat>)
    ensures AnnouncedAt(targets, seen, height, SayMilestones(targets, seen, last, height), at)
  {
    hide AnnouncedAt, OneOn, SayMilestones;
    if targets == [] {
      at := [];
      NoneAnnounced(targets, seen, last, height);
    } else {
      var h, rest := targets[0], targets[1..];
      var had := if height >= h && h !in seen then seen + {h} else seen;
      at := MilestonesInOrder(rest, had, last, height);
      AnnouncedLater(targets, seen, height, SayMilestones(rest, had, last, height), at);
      FirstMilestone(targets, seen, last, height);
      if height >= h && h !in seen && last.Some? && last.value < h {
        AnnouncedFirst(targets, seen, height, SayMilestones(rest, had, last, height), at);
        at := [0] + OneOn(at);
      } else {
        at := OneOn(at);
      }
    }
  }

  lemma NoneAnnounced(targets: seq<nat>, seen: set<nat>, last: Option<nat>, height: nat)
    requires targets == []
    ensures AnnouncedAt(targets, seen, height, SayMilestones(targets, seen, last, height), [])
  {}

  lemma FirstMilestone(targets: seq<nat>, seen: set<nat>, last: Option<nat>, height: nat)
    requires targets != []
    ensures var h := targets[0]; var reached := height >= h && h !in seen;
            var tail := SayMilestones(targets[1..], if reached then seen + {h} else seen, last, height);
            SayMilestones(targets, seen, last, height)
              == if reached && last.Some? && last.value < h then [Milestone(h)] + tail else tail
  {
    assert targets[0..] == targets;
    MilestoneStep(targets, 0, seen, last, height);
  }

  /** What a reader of the history expects about the height. */
  function StallExpected(cfg: Config, seen: seq<Sight>, s: Sight): seq<Message>
    requires seen != []
  {
    var silent := Minutes(s.now - seen[Since(seen)].now);
    if s.height != seen[|seen| - 1].height then
      if WentQuiet(cfg, seen) then [Recovered(s.height, silent)] else []
    else if silent >= cfg.stallMinutes && !WentQuiet(cfg, seen) then [Stall(silent, s.height)]
    else []
  }

  /** A stall is said exactly when the stretch at one height first reaches the limit; a recovery at its end. */
  lemma StallSaidWhen(cfg: Config, seen: seq<Sight>, s: Sight)
    requires seen != [] && Timed(seen)
    ensures SayStall(cfg, After(cfg, seen), s) == StallExpected(cfg, seen, s)
  {
    RemembersHeight(cfg, seen);
  }

  /** A halving is said exactly when the subsidy is below the last one known; never at the first sight of one. */
  lemma HalvingSaidWhen(cfg: Config, seen: seq<Sight>, s: Sight)
    ensures SayHalving(After(cfg, seen), s)
         == if s.subsidy.Some? && LastSubsidy(seen).Some? && s.subsidy.value < LastSubsidy(seen).value
            then [Halving(LastSubsidy(seen).value, s.subsidy.value, s.height)] else []
  {
    RemembersRest(cfg, seen);
  }

  /** A key rotation is said exactly when the seed height differs from the last one known. */
  lemma RotationSaidWhen(cfg: Config, seen: seq<Sight>, s: Sight)
    ensures SayRotation(After(cfg, seen), s)
         == if s.seedHeight.Some? && LastSeedHeight(seen).Some? && s.seedHeight != LastSeedHeight(seen)
            then [Rotation(s.seedHeight.value, s.height)] else []
  {
    RemembersRest(cfg, seen);
  }

  /** A release is announced exactly when it verifies and another one was the last to. */
  lemma ReleaseSaidWhen(cfg: Config, seen: seq<Sight>, s: Sight, tag: string)
    ensures Published(tag) in SayRelease(After(cfg, seen), s)
       <==> (tag != "" && s.release == Some(Release(tag, true))
             && LastVerified(seen).Some? && LastVerified(seen) != Some(tag))
  {
    RemembersRest(cfg, seen);
  }

  // ------------------------------------------------------------------ alternation

  /** Everything a run says, from any state. */
  function AllSaid(cfg: Config, m: Memory, seen: seq<Sight>): seq<Message>
    decreases seen
  {
    if seen == [] then [] else Say(cfg, m, seen[0]) + AllSaid(cfg, Next(cfg, m, seen[0]), seen[1..])
  }

  /** The messages of one kind. */
  function Only(kind: Message -> bool, said: seq<Message>): (q: seq<Message>)
    ensures forall k :: k in q ==> kind(k)
  {
    if said == [] then [] else (if kind(said[0]) then [said[0]] else []) + Only(kind, said[1..])
  }

  lemma {:induction false} OnlyAppend(kind: Message -> bool, a: seq<Message>, b: seq<Message>)
    ensures Only(kind, a + b) == Only(kind, a) + Only(kind, b)
  {
    if a == [] {
      assert a + b == b;
    } else {
      assert (a + b)[1..] == a[1..] + b;
      OnlyAppend(kind, a[1..], b);
    }
  }

  lemma {:induction false} NoneOfKind(kind: Message -> bool, said: seq<Message>)
    requires forall k :: k in said ==> !kind(k)
    ensures Only(kind, said) == []
  {
    if said != [] { NoneOfKind(kind, said[1..]); }
  }

  /** Outages come only from the part that watches the height, news of releases only from its own. */
  lemma OnlyOfTick(kind: Message -> bool, cfg: Config, m: Memory, s: Sight)
    ensures (forall k :: kind(k) ==> k.Stall? || k.Recovered?)
            ==> Only(kind, Say(cfg, m, s)) == Only(kind, SayStall(cfg, m, s))
    ensures (forall k :: kind(k) ==> k.Published? || k.Held?)
            ==> Only(kind, Say(cfg, m, s)) == Only(kind, SayRelease(m, s))
  {
    OtherParts(kind, cfg, m, s);
    hide SayHalving, SayRotation, SayMilestones, SayStall, SayRelease, SayBeat, Only;
    var a, b := SayHalving(m, s), SayRotation(m, s);
    var c := SayMilestones(cfg.milestones, m.milestonesSeen, m.lastHeight, s.height);
    var d, e, f := SayStall(cfg, m, s), SayRelease(m, s), SayBeat(cfg, m, s);
    OnlyAppend(kind, a, b);
    OnlyAppend(kind, a + b, c);
    OnlyAppend(kind, a + b + c, d);
    OnlyAppend(kind, a + b + c + d, e);
    OnlyAppend(kind, a + b + c + d + e, f);
  }

  lemma OtherParts(kind: Message -> bool, cfg: Config, m: Memory, s: Sight)
    ensures (forall k :: kind(k) ==> k.Stall? || k.Recovered?) || (forall k :: kind(k) ==> k.Published? || k.Held?)
            ==> Only(kind, SayHalving(m, s)) == Only(kind, SayRotation(m, s)) == Only(kind, SayBeat(cfg, m, s)) == []
                && Only(kind, SayMilestones(cfg.milestones, m.milestonesSeen, m.lastHeight, s.height)) == []
    ensures (forall k :: kind(k) ==> k.Stall? || k.Recovered?) ==> Only(kind, SayRelease(m, s)) == []
    ensures (forall k :: kind(k) ==> k.Published? || k.Held?) ==> Only(kind, SayStall(cfg, m, s)) == []
  {
    hide Heartbeat.Beats, Only, Minutes;
    MilestonesSaid(cfg.milestones, m.milestonesSeen, m.lastHeight, s.height, 0);
    var c := SayMilestones(cfg.milestones, m.milestonesSeen, m.lastHeight, s.height);
    if (forall k :: kind(k) ==> k.Stall? || k.Recovered?) || (forall k :: kind(k) ==> k.Published? || k.Held?) {
      NoneOfKind(kind, SayHalving(m, s));
      NoneOfKind(kind, SayRotation(m, s));
      NoneOfKind(kind, SayBeat(cfg, m, s));
      hide SayMilestones;
      NoneOfKind(kind, c);
    }
    if forall k :: kind(k) ==> k.Stall? || k.Recovered? { NoneOfKind(kind, SayRelease(m, s)); }
    if forall k :: kind(k) ==> k.Published? || k.Held? { NoneOfKind(kind, SayStall(cfg, m, s)); }
  }

  predicate IsOutage(k: Message) { k.Stall? || k.Recovered? }

  predicate IsRelease(k: Message) { k.Published? || k.Held? }

  function Outages(said: seq<Message>): seq<Message> { Only(IsOutage, said) }

  function Releases(said: seq<Message>): seq<Message> { Only(IsRelease, said) }

  predicate Alternates(down: bool, q: seq<Message>)
    decreases q
  {
    q == [] || (q[0].Stall? != down && Alternates(q[0].Stall?, q[1..]))
  }

  /**
   Over every run of a bot that keeps its state, stalls and recoveries strictly alternate,
   beginning with a stall from a fresh start.
   */
  lemma {:induction false} OutagesAlternate(cfg: Config, m: Memory, seen: seq<Sight>)
    ensures Alternates(m.stallAnnounced, Outages(AllSaid(cfg, m, seen)))
    decreases seen
  {
    hide Say, SayStall, Next, Outages;
    if seen == [] {
      assert AllSaid(cfg, m, seen) == [];
      NoOutage();
    } else {
      var s, next := seen[0], Next(cfg, m, seen[0]);
      OutagesAlternate(cfg, next, seen[1..]);
      OutagesOfFirst(cfg, m, seen);
      OutageTurns(cfg, m, s);
      TurnFirst(m.stallAnnounced, next.stallAnnounced, SayStall(cfg, m, s), Outages(AllSaid(cfg, next, seen[1..])));
    }
  }

  lemma NoOutage()
    ensures Outages([]) == []
  {}

  lemma OutagesOfFirst(cfg: Config, m: Memory, seen: seq<Sight>)
    requires seen != []
    ensures Outages(AllSaid(cfg, m, seen))
         == SayStall(cfg, m, seen[0]) + Outages(AllSaid(cfg, Next(cfg, m, seen[0]), seen[1..]))
  {
    hide Say, SayStall, Next;
    var s, next := seen[0], Next(cfg, m, seen[0]);
    var kind := IsOutage;
    OnlyAppend(kind, Say(cfg, m, s), AllSaid(cfg, next, seen[1..]));
    OnlyOfTick(kind, cfg, m, s);
    StallsAreOutages(cfg, m, s);
  }

  lemma StallsAreOutages(cfg: Config, m: Memory, s: Sight)
    ensures Outages(SayStall(cfg, m, s)) == SayStall(cfg, m, s)
  {
    hide SilentFor;
    var here := SayStall(cfg, m, s);
    if here != [] {
      assert here == [here[0]] && here[1..] == [];
      assert IsOutage(here[0]);
      NoOutage();
    }
  }

  /** A tick says a stall when it turns the flag on, a recovery when off, and nothing of the kind else. */
  lemma OutageTurns(cfg: Config, m: Memory, s: Sight)
    ensures var here, flag := SayStall(cfg, m, s), Next(cfg, m, s).stallAnnounced;
            && |here| <= 1
            && (here == [] ==> flag == m.stallAnnounced)
            && (here != [] ==> flag != m.stallAnnounced && here[0].Stall? == flag)
  {
    hide SilentFor, Reached, Latest, NewRelease, Heartbeat.Beats;
  }

  lemma TurnFirst(down: bool, flag: bool, here: seq<Message>, rest: seq<Message>)
    requires |here| <= 1 && Alternates(flag, rest)
    requires if here == [] then flag == down else flag != down && here[0].Stall? == flag
    ensures Alternates(down, here + rest)
  {
    if here == [] {
      assert here + rest == rest;
    } else {
      assert (here + rest)[1..] == rest;
    }
  }

  /** The releases page shows one tag, or cannot be read. */
  predicate Shows(seen: seq<Sight>, tag: string) {
    forall i :: 0 <= i < |seen| && seen[i].release.Some? ==> seen[i].release.value.tag == tag
  }

  /** What the page calls for, tick after tick: one note to the operator, then one announcement, and no more. */
  function Expected(seen: seq<Sight>, tag: string, held: bool): seq<Message> {
    if seen == [] then []
    else if seen[0].release.None? then Expected(seen[1..], tag, held)
    else if seen[0].release.value.verifies then [Published(tag)]
    else (if held then [] else [Held(tag)]) + Expected(seen[1..], tag, true)
  }

  /**
   Fail-closed, and once: while a new release does not verify it is held with a single
   note, and the first tick that finds it verified announces it; after that, nothing.
   */
  lemma {:induction false} HeldThenAnnouncedOnce(cfg: Config, m: Memory, seen: seq<Sight>, tag: string)
    requires tag != "" && Shows(seen, tag) && m.lastReleaseTag.Some?
    ensures Releases(AllSaid(cfg, m, seen))
         == if m.lastReleaseTag == Some(tag) then [] else Expected(seen, tag, m.releaseHeldTag == Some(tag))
    decreases seen
  {
    if seen != [] {
      var s, next := seen[0], Next(cfg, m, seen[0]);
      HeldThenAnnouncedOnce(cfg, next, seen[1..], tag);
      var kind := IsRelease;
      OnlyAppend(kind, Say(cfg, m, s), AllSaid(cfg, next, seen[1..]));
      OnlyOfTick(kind, cfg, m, s);
      hide Say, SayStall, Heartbeat.Beats;
      assert Releases(SayRelease(m, s)) == SayRelease(m, s);
    }
  }

  // ------------------------------------------------------------------ crashes

  /** Seeing the same things again, a bot that saved its state says nothing. */
  lemma SameSightSaysNothing(cfg: Config, m: Memory, s: Sight)
    requires cfg.stallMinutes >= 1 && s.now >= 1
    requires m.lastHeartbeatAt <= s.now
    ensures Say(cfg, Next(cfg, m, s), s) == []
  {
    var next := Next(cfg, m, s);
    NothingNew(cfg.milestones, next.milestonesSeen, next.lastHeight, s.height);
  }

  lemma {:induction false} NothingNew(targets: seq<nat>, seen: set<nat>, last: Option<nat>, height: nat)
    requires forall h :: h in targets && height >= h ==> h in seen
    ensures SayMilestones(targets, seen, last, height) == []
  {
    if targets != [] { NothingNew(targets[1..], seen, last, height); }
  }

  /** One pass: what it saw, and whether the state was saved before the process died. */
  datatype Pass = Pass(sight: Sight, saved: bool)

  /** The messages go out before the state is saved, so a crash in between loses the tick. */
  function Disk(cfg: Config, passes: seq<Pass>): Memory {
    if passes == [] then FRESH else
    var n := |passes| - 1;
    var before := Disk(cfg, passes[..n]);
    if passes[n].saved then Next(cfg, before, passes[n].sight) else before
  }

  function SentBy(cfg: Config, passes: seq<Pass>, i: nat): seq<Message>
    requires i < |passes|
  {
    Say(cfg, Disk(cfg, passes[..i]), passes[i].sight)
  }

  /** The messages that do not depend on the clock. */
  predicate Lasts(k: Message) { !k.Stall? && !k.Recovered? && !k.Beat? }

  function Lasting(said: seq<Message>): seq<Message> { Only(Lasts, said) }

  function SayLasting(cfg: Config, m: Memory, s: Sight): seq<Message> {
    SayHalving(m, s) + SayRotation(m, s) + SayMilestones(cfg.milestones, m.milestonesSeen, m.lastHeight, s.height)
    + SayRelease(m, s)
  }

  lemma {:induction false} AllOfKind(kind: Message -> bool, said: seq<Message>)
    requires forall k :: k in said ==> kind(k)
    ensures Only(kind, said) == said
  {
    if said != [] {
      AllOfKind(kind, said[1..]);
      assert said == [said[0]] + said[1..];
    }
  }

  lemma LastingEmission(m: Memory, s: Sight)
    ensures Lasting(SayHalving(m, s)) == SayHalving(m, s)
    ensures Lasting(SayRotation(m, s)) == SayRotation(m, s)
    ensures Lasting(SayRelease(m, s)) == SayRelease(m, s)
  {
    hide Only;
    AllOfKind(Lasts, SayHalving(m, s));
    AllOfKind(Lasts, SayRotation(m, s));
    AllOfKind(Lasts, SayRelease(m, s));
  }

  lemma PassingParts(cfg: Config, m: Memory, s: Sight)
    ensures Lasting(SayStall(cfg, m, s)) == Lasting(SayBeat(cfg, m, s)) == []
  {
    hide Heartbeat.Beats, Minutes, Only;
    NoneOfKind(Lasts, SayStall(cfg, m, s));
    NoneOfKind(Lasts, SayBeat(cfg, m, s));
  }

  lemma LastingMilestones(cfg: Config, m: Memory, s: Sight)
    ensures var c := SayMilestones(cfg.milestones, m.milestonesSeen, m.lastHeight, s.height); Lasting(c) == c
  {
    MilestonesSaid(cfg.milestones, m.milestonesSeen, m.lastHeight, s.height, 0);
    hide SayMilestones, Only;
    AllOfKind(Lasts, SayMilestones(cfg.milestones, m.milestonesSeen, m.lastHeight, s.height));
  }

  lemma LastingOfTick(cfg: Config, m: Memory, s: Sight)
    ensures Lasting(Say(cfg, m, s)) == SayLasting(cfg, m, s)
  {
    LastingEmission(m, s);
    PassingParts(cfg, m, s);
    LastingMilestones(cfg, m, s);
    hide SayHalving, SayRotation, SayMilestones, SayStall, SayRelease, SayBeat, Only;
    var kind := Lasts;
    var a, b := SayHalving(m, s), SayRotation(m, s);
    var c := SayMilestones(cfg.milestones, m.milestonesSeen, m.lastHeight, s.height);
    var d, e, f := SayStall(cfg, m, s), SayRelease(m, s), SayBeat(cfg, m, s);
    OnlyAppend(kind, a, b);
    OnlyAppend(kind, a + b, c);
    OnlyAppend(kind, a + b + c, d);
    OnlyAppend(kind, a + b + c + d, e);
    OnlyAppend(kind, a + b + c + d + e, f);
  }

  /** Seeing the same node later, a bot that saved its state has nothing lasting to say. */
  lemma NothingLastingTwice(cfg: Config, m: Memory, s: Sight, later: nat)
    ensures SayLasting(cfg, Next(cfg, m, s), s.(now := later)) == []
  {
    var next := Next(cfg, m, s);
    hide Heartbeat.Beats, Minutes;
    NothingNew(cfg.milestones, next.milestonesSeen, next.lastHeight, s.height);
  }

  /**
   A restart repeats what was sent and not saved, whenever it comes. A pass that sees the
   node as the one before it did, at any clock, repeats every halving, rotation, milestone
   and release of it if that one was not saved, and none of them if it was; at the same
   clock this goes for everything.
   */
  lemma RepeatedExactlyWhenUnsaved(cfg: Config, passes: seq<Pass>, i: nat)
    requires i + 1 < |passes|
    requires passes[i + 1].sight == passes[i].sight.(now := passes[i + 1].sight.now)
    ensures Lasting(SentBy(cfg, passes, i + 1)) == if passes[i].saved then [] else Lasting(SentBy(cfg, passes, i))
    ensures passes[i + 1].sight == passes[i].sight && cfg.stallMinutes >= 1 && passes[i].sight.now >= 1
            && Disk(cfg, passes[..i]).lastHeartbeatAt <= passes[i].sight.now
            ==> SentBy(cfg, passes, i + 1) == if passes[i].saved then [] else SentBy(cfg, passes, i)
  {
    var m, s, later := Disk(cfg, passes[..i]), passes[i].sight, passes[i + 1].sight.now;
    assert passes[..i + 1][..i] == passes[..i];
    var next := Disk(cfg, passes[..i + 1]);
    assert next == if passes[i].saved then Next(cfg, m, s) else m;
    if cfg.stallMinutes >= 1 && s.now >= 1 && m.lastHeartbeatAt <= s.now { SameSightSaysNothing(cfg, m, s); }
    NothingLastingTwice(cfg, m, s, later);
    assert SayLasting(cfg, m, s.(now := later)) == SayLasting(cfg, m, s);
    hide Disk, Say, Next, SayLasting, Lasting;
    LastingOfTick(cfg, next, s.(now := later));
    LastingOfTick(cfg, m, s);
  }

  /** The sights whose passes were saved. */
  function Kept(passes: seq<Pass>): seq<Sight> {
    if passes == [] then [] else
    var n := |passes| - 1;
    Kept(passes[..n]) + if passes[n].saved then [passes[n].sight] else []
  }

  lemma {:induction false} DiskKeeps(cfg: Config, passes: seq<Pass>)
    ensures Disk(cfg, passes) == After(cfg, Kept(passes))
  {
    if passes != [] {
      var n := |passes| - 1;
      DiskKeeps(cfg, passes[..n]);
      if passes[n].saved {
        var before := Kept(passes[..n]);
        assert (before + [passes[n].sight])[..|before|] == before;
      } else {
        assert Kept(passes) == Kept(passes[..n]);
      }
    }
  }

  lemma {:induction false} KeptFrom(passes: seq<Pass>, k: nat)
    requires k < |passes| && passes[k].saved
    ensures passes[k].sight in Kept(passes)
  {
    var n := |passes| - 1;
    if k < n { KeptFrom(passes[..n], k); }
  }

  // ------------------------------------------------------------------ the same halving, any time later

  predicate SaysHalving(said: seq<Message>) { exists k :: k in said && k.Halving? }

  predicate SaysRotation(said: seq<Message>) { exists k :: k in said && k.Rotation? }

  lemma HalvingIsSaid(cfg: Config, m: Memory, s: Sight)
    ensures SaysHalving(Say(cfg, m, s)) <==> SayHalving(m, s) != []
  {
    SilentAboutEmission(cfg, m, s);
    hide SayRotation, SayMilestones, SayStall, SayRelease, SayBeat;
    if SayHalving(m, s) != [] { assert SayHalving(m, s)[0] in Say(cfg, m, s); }
  }

  lemma RotationIsSaid(cfg: Config, m: Memory, s: Sight)
    ensures SaysRotation(Say(cfg, m, s)) <==> SayRotation(m, s) != []
  {
    SilentAboutEmission(cfg, m, s);
    hide SayHalving, SayMilestones, SayStall, SayRelease, SayBeat;
    if SayRotation(m, s) != [] { assert SayRotation(m, s)[0] in Say(cfg, m, s); }
  }

  /** No part of a tick but the first says a halving, and none but the second a rotation. */
  lemma SilentAboutEmission(cfg: Config, m: Memory, s: Sight)
    ensures !SaysHalving(SayRotation(m, s)) && !SaysRotation(SayHalving(m, s))
    ensures forall k :: k in SayMilestones(cfg.milestones, m.milestonesSeen, m.lastHeight, s.height)
                        || k in SayStall(cfg, m, s) || k in SayRelease(m, s) || k in SayBeat(cfg, m, s)
                        ==> !k.Halving? && !k.Rotation?
  {
    SectionKinds(cfg, m, s);
    hide SayHalving, SayRotation, SayMilestones, SayStall, SayRelease, SayBeat;
  }

  /** What the last saved pass from `i` on, before `j`, knew; nothing if none did. */
  function SavedSince<T>(get: Sight -> Option<T>, passes: seq<Pass>, i: nat, j: nat): Option<T>
    requires j <= |passes|
    decreases j
  {
    if j <= i then None
    else if passes[j - 1].saved && get(passes[j - 1].sight).Some? then get(passes[j - 1].sight)
    else SavedSince(get, passes, i, j - 1)
  }

  lemma {:induction false} KnownSince<T>(get: Sight -> Option<T>, passes: seq<Pass>, i: nat, j: nat)
    requires i <= j <= |passes|
    ensures LastKnown(get, Kept(passes[..j]))
         == Latest(SavedSince(get, passes, i, j), LastKnown(get, Kept(passes[..i])))
    decreases j
  {
    if i < j {
      KnownSince(get, passes, i, j - 1);
      assert passes[..j][..j - 1] == passes[..j - 1];
      if passes[j - 1].saved {
        var before, s := Kept(passes[..j - 1]), passes[j - 1].sight;
        assert Kept(passes[..j]) == before + [s] && (before + [s])[..|before|] == before;
      } else {
        assert Kept(passes[..j]) == Kept(passes[..j - 1]);
      }
    }
  }

  lemma EmissionSentWhen(cfg: Config, passes: seq<Pass>, i: nat)
    requires i < |passes|
    ensures var known, v := LastSubsidy(Kept(passes[..i])), passes[i].sight.subsidy;
            SaysHalving(SentBy(cfg, passes, i)) <==> known.Some? && v.Some? && v.value < known.value
    ensures var known, v := LastSeedHeight(Kept(passes[..i])), passes[i].sight.seedHeight;
            SaysRotation(SentBy(cfg, passes, i)) <==> known.Some? && v.Some? && v != known
  {
    DiskKeeps(cfg, passes[..i]);
    HalvingIsSaid(cfg, Disk(cfg, passes[..i]), passes[i].sight);
    RotationIsSaid(cfg, Disk(cfg, passes[..i]), passes[i].sight);
    HalvingSaidWhen(cfg, Kept(passes[..i]), passes[i].sight);
    RotationSaidWhen(cfg, Kept(passes[..i]), passes[i].sight);
  }

  /**
   "Must never announce the same halving twice because it was restarted at the wrong
   moment", at any two passes of any run. Once a pass has announced the halving to a
   subsidy, a later pass that sees that subsidy announces it again exactly when no pass
   since was saved that knew the subsidy, or the last such pass knew a larger one.
   */
  lemma HalvingRepeatedExactly(cfg: Config, passes: seq<Pass>, i: nat, j: nat, v: int)
    requires i < j < |passes| && passes[i].sight.subsidy == passes[j].sight.subsidy == Some(v)
    requires SaysHalving(SentBy(cfg, passes, i))
    ensures var last := SavedSince((s: Sight) => s.subsidy, passes, i, j);
            SaysHalving(SentBy(cfg, passes, j)) <==> last.None? || last.value > v
  {
    EmissionSentWhen(cfg, passes, i);
    EmissionSentWhen(cfg, passes, j);
    KnownSince((s: Sight) => s.subsidy, passes, i, j);
  }

  lemma {:induction false} SavedSinceIs<T>(get: Sight -> Option<T>, passes: seq<Pass>, i: nat, j: nat) returns (k: nat)
    requires i < j <= |passes| && SavedSince(get, passes, i, j).Some?
    ensures i <= k < j && passes[k].saved && get(passes[k].sight) == SavedSince(get, passes, i, j)
    decreases j
  {
    if passes[j - 1].saved && get(passes[j - 1].sight).Some? { return j - 1; }
    k := SavedSinceIs(get, passes, i, j - 1);
  }

  lemma {:induction false} SavedIsKnown<T>(get: Sight -> Option<T>, passes: seq<Pass>, i: nat, j: nat)
    requires i < j <= |passes| && passes[i].saved && get(passes[i].sight).Some?
    ensures SavedSince(get, passes, i, j).Some?
    decreases j
  {
    if i < j - 1 { SavedIsKnown(get, passes, i, j - 1); }
  }

  /** So the same halving twice means that its first pass was not saved, or that a saved pass between saw more. */
  lemma HalvingTwiceNeedsCrash(cfg: Config, passes: seq<Pass>, i: nat, j: nat, v: int)
    requires i < j < |passes| && passes[i].sight.subsidy == passes[j].sight.subsidy == Some(v)
    requires SaysHalving(SentBy(cfg, passes, i)) && SaysHalving(SentBy(cfg, passes, j))
    ensures !passes[i].saved
            || exists k :: i < k < j && passes[k].saved
                       && passes[k].sight.subsidy.Some? && passes[k].sight.subsidy.value > v
  {
    var get := (s: Sight) => s.subsidy;
    EmissionSentWhen(cfg, passes, i);
    HalvingRepeatedExactly(cfg, passes, i, j, v);
    if passes[i].saved {
      SavedIsKnown(get, passes, i, j);
      var k := SavedSinceIs(get, passes, i, j);
    }
  }

  /** And an unsaved halving is announced again by the next pass that sees its subsidy, however much later. */
  lemma UnsavedHalvingRepeats(cfg: Config, passes: seq<Pass>, i: nat, j: nat, v: int)
    requires i < j < |passes| && passes[i].sight.subsidy == passes[j].sight.subsidy == Some(v)
    requires SaysHalving(SentBy(cfg, passes, i)) && !passes[i].saved
    requires forall k :: i < k < j && passes[k].saved ==> passes[k].sight.subsidy.None?
    ensures SaysHalving(SentBy(cfg, passes, j))
  {
    var get := (s: Sight) => s.subsidy;
    if SavedSince(get, passes, i, j).Some? {
      var k := SavedSinceIs(get, passes, i, j);
    }
    HalvingRepeatedExactly(cfg, passes, i, j, v);
  }

  /** Key rotations likewise: announced again unless the last saved pass since knew the same seed height. */
  lemma RotationRepeatedExactly(cfg: Config, passes: seq<Pass>, i: nat, j: nat)
    requires i < j < |passes| && passes[j].sight.seedHeight == passes[i].sight.seedHeight
    requires SaysRotation(SentBy(cfg, passes, i))
    ensures var last := SavedSince((s: Sight) => s.seedHeight, passes, i, j);
            SaysRotation(SentBy(cfg, passes, j)) <==> last.None? || last != passes[j].sight.seedHeight
  {
    EmissionSentWhen(cfg, passes, i);
    EmissionSentWhen(cfg, passes, j);
    KnownSince((s: Sight) => s.seedHeight, passes, i, j);
  }

  lemma {:induction false} KeptFromPass(passes: seq<Pass>, s: Sight) returns (k: nat)
    requires s in Kept(passes)
    ensures k < |passes| && passes[k].saved && passes[k].sight == s
  {
    var n := |passes| - 1;
    if passes[n].saved && passes[n].sight == s { return n; }
    k := KeptFromPass(passes[..n], s);
  }

  /** Whether some saved pass before `j` saw the height or more. */
  lemma SavedAbove(passes: seq<Pass>, j: nat, h: nat)
    requires j <= |passes|
    ensures EverAbove(Kept(passes[..j]), h) <==>
              exists k :: 0 <= k < j && passes[k].saved && passes[k].sight.height >= h
  {
    var seen := Kept(passes[..j]);
    if k :| 0 <= k < j && passes[k].saved && passes[k].sight.height >= h {
      KeptFrom(passes[..j], k);
      var m :| 0 <= m < |seen| && seen[m] == passes[k].sight;
    }
    if m :| 0 <= m < |seen| && seen[m].height >= h {
      var k := KeptFromPass(passes[..j], seen[m]);
    }
  }

  lemma {:induction false} KeptGrows(passes: seq<Pass>, i: nat)
    requires i <= |passes| && Kept(passes[..i]) != []
    ensures Kept(passes) != []
  {
    var n := |passes| - 1;
    if i <= n {
      assert passes[..n][..i] == passes[..i];
      KeptGrows(passes[..n], i);
    } else {
      assert passes[..i] == passes;
    }
  }

  /**
   A milestone, at any two passes of any run: once announced, it is announced again by a
   later pass at or above it exactly when no pass since, the announcing one included, was
   saved at or above it.
   */
  lemma MilestoneRepeatedExactly(cfg: Config, passes: seq<Pass>, i: nat, j: nat, h: nat)
    requires i < j < |passes|
    requires Milestone(h) in SentBy(cfg, passes, i)
    ensures Milestone(h) in SentBy(cfg, passes, j)
       <==> (passes[j].sight.height >= h
             && forall k :: i <= k < j && passes[k].saved ==> passes[k].sight.height < h)
  {
    SentWhen(cfg, passes, i, h);
    SentWhen(cfg, passes, j, h);
    SavedAbove(passes, i, h);
    SavedAbove(passes, j, h);
    assert passes[..j][..i] == passes[..i];
    KeptGrows(passes[..j], i);
  }

  /** So a milestone announced twice was first announced by a pass that was never saved. */
  lemma MilestoneTwiceNeedsCrash(cfg: Config, passes: seq<Pass>, i: nat, j: nat, h: nat)
    requires i < j < |passes|
    requires Milestone(h) in SentBy(cfg, passes, i) && Milestone(h) in SentBy(cfg, passes, j)
    ensures !passes[i].saved
  {
    MilestoneRepeatedExactly(cfg, passes, i, j, h);
    SentWhen(cfg, passes, i, h);
  }

  lemma SentWhen(cfg: Config, passes: seq<Pass>, i: nat, h: nat)
    requires i < |passes|
    ensures Milestone(h) in SentBy(cfg, passes, i)
       <==> (h in cfg.milestones && Kept(passes[..i]) != [] && passes[i].sight.height >= h
             && !EverAbove(Kept(passes[..i]), h))
  {
    DiskKeeps(cfg, passes[..i]);
    MilestoneSaidWhen(cfg, Kept(passes[..i]), passes[i].sight, h);
  }

  // ------------------------------------------------------------------ releases and outages, crashes included

  lemma PublishedIsSaid(cfg: Config, m: Memory, s: Sight, tag: string)
    ensures Published(tag) in Say(cfg, m, s) <==> Published(tag) in SayRelease(m, s)
  {
    SectionKinds(cfg, m, s);
    hide SayHalving, SayRotation, SayMilestones, SayStall, SayRelease, SayBeat;
  }

  lemma PublishedSentWhen(cfg: Config, passes: seq<Pass>, i: nat, tag: string)
    requires i < |passes|
    ensures var known := LastVerified(Kept(passes[..i]));
            Published(tag) in SentBy(cfg, passes, i) <==>
              Verified(passes[i].sight) == Some(tag) && known.Some? && known != Some(tag)
  {
    DiskKeeps(cfg, passes[..i]);
    PublishedIsSaid(cfg, Disk(cfg, passes[..i]), passes[i].sight, tag);
    ReleaseSaidWhen(cfg, Kept(passes[..i]), passes[i].sight, tag);
  }

  /**
   A release, at any two passes: once announced, a later pass that finds it verified
   announces it again exactly when the last pass saved since with a verified release, if
   any, had another one.
   */
  lemma ReleaseRepeatedExactly(cfg: Config, passes: seq<Pass>, i: nat, j: nat, tag: string)
    requires i < j < |passes| && Verified(passes[j].sight) == Some(tag)
    requires Published(tag) in SentBy(cfg, passes, i)
    ensures Published(tag) in SentBy(cfg, passes, j) <==> SavedSince(Verified, passes, i, j) != Some(tag)
  {
    PublishedSentWhen(cfg, passes, i, tag);
    PublishedSentWhen(cfg, passes, j, tag);
    KnownSince(Verified, passes, i, j);
  }

  /** Everything all passes send. */
  function AllSent(cfg: Config, passes: seq<Pass>): seq<Message> {
    if passes == [] then [] else
    var n := |passes| - 1;
    AllSent(cfg, passes[..n]) + SentBy(cfg, passes, n)
  }

  predicate SaysOutage(cfg: Config, passes: seq<Pass>, i: nat)
    requires i < |passes|
  {
    SayStall(cfg, Disk(cfg, passes[..i]), passes[i].sight) != []
  }

  /** Every pass that says a stall or a recovery, but for the last that does, was saved. */
  predicate OutagesSaved(cfg: Config, passes: seq<Pass>) {
    forall j, k :: 0 <= j < k < |passes| && SaysOutage(cfg, passes, j) && SaysOutage(cfg, passes, k) ==> passes[j].saved
  }

  /** The passes as turns of a flag on disk, which is `stallAnnounced`. */
  function Turns(cfg: Config, passes: seq<Pass>): (steps: seq<Toggle.Step>)
    ensures |steps| == |passes|
  {
    if passes == [] then [] else
    var n := |passes| - 1;
    Turns(cfg, passes[..n]) + [Toggle.Step(SaysOutage(cfg, passes, n), passes[n].saved)]
  }

  lemma {:induction false} TurnAt(cfg: Config, passes: seq<Pass>, i: nat)
    requires i < |passes|
    ensures Turns(cfg, passes)[i] == Toggle.Step(SaysOutage(cfg, passes, i), passes[i].saved)
  {
    hide SayStall, Disk;
    var n := |passes| - 1;
    if i < n {
      TurnAt(cfg, passes[..n], i);
      assert passes[..n][..i] == passes[..i];
    }
  }

  function AreStalls(q: seq<Message>): seq<bool> { seq(|q|, i requires 0 <= i < |q| => q[i].Stall?) }

  /** A tick turns the flag exactly when it says something about the height: on with a stall, off with a recovery. */
  lemma StallTurns(cfg: Config, m: Memory, s: Sight)
    ensures |SayStall(cfg, m, s)| <= 1
    ensures SayStall(cfg, m, s) != [] ==> (SayStall(cfg, m, s)[0].Stall? <==> !m.stallAnnounced)
    ensures Outages(SayStall(cfg, m, s)) == SayStall(cfg, m, s)
    ensures Next(cfg, m, s).stallAnnounced <==> m.stallAnnounced != (SayStall(cfg, m, s) != [])
  {
    hide Minutes, Heartbeat.Beats, Only;
    AllOfKind(IsOutage, SayStall(cfg, m, s));
  }

  /** What the last of some passes adds: the word the flag on disk calls for, or nothing. */
  lemma OutagesOneMore(cfg: Config, passes: seq<Pass>) returns (more: seq<Message>)
    requires passes != []
    ensures Outages(AllSent(cfg, passes)) == Outages(AllSent(cfg, passes[..|passes| - 1])) + more
    ensures |more| == if SaysOutage(cfg, passes, |passes| - 1) then 1 else 0
    ensures more != [] ==> (more[0].Stall? <==> !Disk(cfg, passes[..|passes| - 1]).stallAnnounced)
    ensures var n := |passes| - 1;
            Disk(cfg, passes).stallAnnounced
              == (Disk(cfg, passes[..n]).stallAnnounced != (SaysOutage(cfg, passes, n) && passes[n].saved))
  {
    var n := |passes| - 1;
    var m, s := Disk(cfg, passes[..n]), passes[n].sight;
    more := SayStall(cfg, m, s);
    StallTurns(cfg, m, s);
    OnlyOfTick(IsOutage, cfg, m, s);
    hide Say, SayStall, Only, Next;
    OnlyAppend(IsOutage, AllSent(cfg, passes[..n]), SentBy(cfg, passes, n));
  }

  lemma NothingYet(cfg: Config)
    ensures !Disk(cfg, []).stallAnnounced && Outages(AllSent(cfg, [])) == []
    ensures Toggle.Flag(false, []) == false && Toggle.Words(false, []) == [] && Turns(cfg, []) == []
  {}

  lemma StallsOneMore(q: seq<Message>, more: seq<Message>)
    ensures AreStalls(q + more) == AreStalls(q) + AreStalls(more)
    ensures |more| == 1 ==> AreStalls(more) == [more[0].Stall?]
    ensures more == [] ==> AreStalls(more) == []
  {}

  lemma {:induction false} TurnsTheFlag(cfg: Config, passes: seq<Pass>)
    ensures Toggle.Flag(false, Turns(cfg, passes)) == Disk(cfg, passes).stallAnnounced
    ensures Toggle.Words(false, Turns(cfg, passes)) == AreStalls(Outages(AllSent(cfg, passes)))
  {
    hide Disk, AllSent, Outages, SaysOutage, Toggle.Flag, Toggle.Words;
    if passes == [] {
      NothingYet(cfg);
    } else {
      var n := |passes| - 1;
      TurnsTheFlag(cfg, passes[..n]);
      var more := OutagesOneMore(cfg, passes);
      Toggle.OneMoreStep(false, Turns(cfg, passes[..n]), Toggle.Step(SaysOutage(cfg, passes, n), passes[n].saved));
      StallsOneMore(Outages(AllSent(cfg, passes[..n])), more);
      hide AreStalls;
    }
  }

  predicate TakeTurns(q: seq<Message>) { forall i :: 0 <= i < |q| ==> (q[i].Stall? <==> i % 2 == 0) }

  lemma TurnsAreStalls(q: seq<Message>)
    ensures TakeTurns(q) <==> Toggle.Alternates(false, AreStalls(q))
  {
    assert forall i :: 0 <= i < |q| ==> AreStalls(q)[i] == q[i].Stall?;
  }

  lemma TurnsAreSaved(cfg: Config, passes: seq<Pass>)
    ensures Toggle.Written(Turns(cfg, passes)) <==> OutagesSaved(cfg, passes)
  {
    hide SaysOutage, Turns;
    forall i | 0 <= i < |passes|
      ensures Turns(cfg, passes)[i] == Toggle.Step(SaysOutage(cfg, passes, i), passes[i].saved)
    {
      TurnAt(cfg, passes, i);
    }
  }

  /**
   Over any passes, crashes included: stalls and recoveries strictly alternate, a stall
   first, exactly when every pass that says one, but for the last that does, was saved.
   */
  lemma OutagesAlternateExactly(cfg: Config, passes: seq<Pass>)
    ensures TakeTurns(Outages(AllSent(cfg, passes))) <==> OutagesSaved(cfg, passes)
  {
    hide *;
    TurnsTheFlag(cfg, passes);
    Toggle.AlternatesExactly(false, Turns(cfg, passes));
    TurnsAreStalls(Outages(AllSent(cfg, passes)));
    TurnsAreSaved(cfg, passes);
  }
}
