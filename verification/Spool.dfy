/**
 The block spool: two Redis hashes, one command at a time. Every remove is a series of
 awaited commands, any number of them may be in flight, and the process may die between
 any two.
 */
module Spool {
  import opened Options

  type Key = string
  type Entry = string

  /** A refused block is kept with why. */
  datatype Refusal = Refusal(entry: Entry, reason: string)

  /** The next command of a remove in flight. */
  datatype Pc = Get | Copy(raw: Entry) | Delete | Over

  /**
   `remove(hash, refusedReason)`. A block is removed without a reason when a node accepted
   it, or answered that it has one already: either way nothing is left to offer.
   */
  datatype Remover = Remover(key: Key, reason: Option<string>, pc: Pc)

  /** Redis, the removes in flight, and for reference what was put and what a node took or already had. */
  datatype State = State(unsent: map<Key, Entry>, refused: map<Key, Refusal>, removers: seq<Remover>,
                         stored: map<Key, Entry>, accepted: set<Key>)

  const EMPTY := State(map[], map[], [], map[], {})

  datatype Event =
    | Put(key: Key, entry: Entry)
    | Remove(target: Key, reason: Option<string>)
    | Command(i: nat)  // remove i carries out its next command
    | Fail(i: nat)     // ... or its command throws, and it goes no further
    | Crash

  /** `if (refusedReason)`: an empty string counts as none. */
  predicate Truthy(reason: Option<string>) { reason.Some? && reason.value != "" }

  function Run1(s: State, i: nat): State
    requires i < |s.removers|
  {
    var r := s.removers[i];
    match r.pc
    case Get =>
      var next := if r.key in s.unsent then Copy(s.unsent[r.key]) else Delete;
      s.(removers := s.removers[i := r.(pc := next)])
    case Copy(raw) =>
      s.(refused := s.refused[r.key := Refusal(raw, if r.reason.Some? then r.reason.value else "")],
         removers := s.removers[i := r.(pc := Delete)])
    case Delete =>
      s.(unsent := s.unsent - {r.key}, removers := s.removers[i := r.(pc := Over)])
    case Over => s
  }

  function Apply(s: State, e: Event): State {
    match e
    case Put(k, entry) => s.(unsent := s.unsent[k := entry], stored := s.stored[k := entry])
    case Remove(k, reason) =>
      s.(removers := s.removers + [Remover(k, reason, if Truthy(reason) then Get else Delete)],
         accepted := if reason.None? then s.accepted + {k} else s.accepted)
    case Command(i) => if i < |s.removers| then Run1(s, i) else s
    case Fail(i) => if i < |s.removers| then s.(removers := s.removers[i := s.removers[i].(pc := Over)]) else s
    case Crash => s.(removers := [])
  }

  function After(events: seq<Event>): State {
    if events == [] then EMPTY else Apply(After(events[..|events| - 1]), events[|events| - 1])
  }

  /** The bytes last put under this name are still somewhere. */
  predicate OnFile(s: State, k: Key)
    requires k in s.stored
  {
    || (k in s.unsent && s.unsent[k] == s.stored[k])
    || (k in s.refused && s.refused[k].entry == s.stored[k])
  }

  predicate NothingLost(s: State) { forall k :: k in s.stored && k !in s.accepted ==> OnFile(s, k) }

  predicate InFlight(s: State, k: Key) {
    exists i :: 0 <= i < |s.removers| && s.removers[i].key == k && !s.removers[i].pc.Over?
  }

  /** What the callers do: a refusal is always named, and a block is not put while it is being removed. */
  predicate Proper(s: State, e: Event) {
    match e
    case Put(k, _) => !InFlight(s, k)
    case Remove(_, reason) => reason.Some? ==> reason.value != ""
    case _ => true
  }

  predicate ProperRun(events: seq<Event>) {
    events == [] ||
    (ProperRun(events[..|events| - 1]) && Proper(After(events[..|events| - 1]), events[|events| - 1]))
  }

  /** A block is copied before it is deleted: a refusing remove about to delete finds the bytes beside it. */
  predicate RemoverOk(s: State, i: nat)
    requires i < |s.removers|
  {
    var r := s.removers[i];
    && (r.reason.None? ==> r.key in s.accepted)
    && (r.reason.Some? ==> r.reason.value != "")
    && (r.pc.Copy? ==> r.key in s.stored && r.pc.raw == s.stored[r.key])
    && (r.pc.Delete? && r.reason.Some? && r.key in s.unsent ==>
          r.key in s.refused && s.refused[r.key].entry == s.unsent[r.key])
  }

  predicate Inv(s: State) {
    && NothingLost(s)
    && (forall k :: k in s.unsent ==> k in s.stored && s.unsent[k] == s.stored[k])
    && (forall i :: 0 <= i < |s.removers| ==> RemoverOk(s, i))
  }

  lemma PutKeeps(s: State, k: Key, entry: Entry)
    requires Inv(s) && !InFlight(s, k)
    ensures Inv(Apply(s, Put(k, entry)))
  {
    var t := Apply(s, Put(k, entry));
    forall i | 0 <= i < |t.removers| ensures RemoverOk(t, i) { assert RemoverOk(s, i); }
    forall x | x in t.stored && x !in t.accepted ensures OnFile(t, x) {
      if x != k { assert OnFile(s, x); }
    }
  }

  lemma CommandKeeps(s: State, i: nat)
    requires Inv(s) && i < |s.removers|
    ensures Inv(Run1(s, i))
  {
    var t, r := Run1(s, i), s.removers[i];
    assert RemoverOk(s, i);
    forall j | 0 <= j < |t.removers| ensures RemoverOk(t, j) { assert RemoverOk(s, j); }
    forall x | x in t.stored && x !in t.accepted ensures OnFile(t, x) { assert OnFile(s, x); }
  }

  lemma StepKeeps(s: State, e: Event)
    requires Inv(s) && Proper(s, e)
    ensures Inv(Apply(s, e))
  {
    if e.Put? {
      PutKeeps(s, e.key, e.entry);
    } else if e.Command? {
      if e.i < |s.removers| { CommandKeeps(s, e.i); }
    } else {
      var t := Apply(s, e);
      forall j | 0 <= j < |t.removers| ensures RemoverOk(t, j) {
        if j < |s.removers| { assert RemoverOk(s, j); }
      }
      forall x | x in t.stored && x !in t.accepted ensures OnFile(t, x) { assert OnFile(s, x); }
    }
  }

  /**
   At every point of every run, whatever removes are in flight, whichever of their
   commands fail and wherever the process dies: a block that was put and never accepted
   is in the unsent or the refused hash, with the bytes it was put with.
   */
  lemma {:induction false} NoBlockIsLost(events: seq<Event>)
    requires ProperRun(events)
    ensures NothingLost(After(events)) && Inv(After(events))
  {
    if events != [] {
      NoBlockIsLost(events[..|events| - 1]);
      StepKeeps(After(events[..|events| - 1]), events[|events| - 1]);
    }
  }

  /** One remove carried to its end from a state where only the unsent hash holds the block. */
  function Finished(s: State, k: Key, reason: Option<string>): State {
    var i := |s.removers|;
    var t := Apply(s, Remove(k, reason));
    Apply(Apply(Apply(t, Command(i)), Command(i)), Command(i))
  }

  /** A refusal keeps the block exactly when its reason is not the empty string. */
  lemma RefusalKeepsWhenNamed(s: State, k: Key, reason: string)
    requires k in s.unsent && k in s.stored && s.unsent[k] == s.stored[k] && k !in s.refused
    ensures k !in Finished(s, k, Some(reason)).unsent
    ensures OnFile(Finished(s, k, Some(reason)), k) <==> reason != ""
    ensures reason != "" ==> Finished(s, k, Some(reason)).refused[k] == Refusal(s.unsent[k], reason)
  {}

  /**
   Nor is the order enough by itself: a block put again after a refusing remove has
   looked, and found nothing to copy, is deleted without a copy.
   */
  lemma PutDuringRemoveIsLost(s: State, k: Key, entry: Entry, reason: string)
    requires k !in s.unsent && k !in s.refused && reason != "" && s.removers == []
    ensures var looked := Apply(Apply(s, Remove(k, Some(reason))), Command(0));
            var end := Apply(Apply(looked, Put(k, entry)), Command(0));
            InFlight(looked, k) && k in end.stored && !OnFile(end, k)
  {
    var looked := Apply(Apply(s, Remove(k, Some(reason))), Command(0));
    assert looked.removers[0].key == k && looked.removers[0].pc.Delete?;
  }

  // ------------------------------------------------------------------ where the reasons come from

  /** One daemon's reply to `submitblock`: no text is an acceptance, if the call itself went through. */
  datatype Reply = Reply(daemon: string, ok: bool, text: Option<string>)

  predicate Accepts(r: Reply) { r.ok && r.text.None? }

  function Reasons(replies: seq<Reply>): seq<string> {
    if replies == [] then [] else
    var r := replies[0];
    (if Accepts(r) then [] else [r.daemon + ": " + if r.text.Some? then r.text.value else "null"])
    + Reasons(replies[1..])
  }

  function Join(parts: seq<string>): string {
    if parts == [] then "" else if |parts| == 1 then parts[0] else parts[0] + " | " + Join(parts[1..])
  }

  /** A refusal needs an answer and no acceptance, so it always comes with a reason. */
  lemma RefusalIsNamed(replies: seq<Reply>)
    requires (exists r :: r in replies && r.ok) && (forall r :: r in replies ==> !Accepts(r))
    ensures Join(Reasons(replies)) != ""
  {
    assert replies[0] in replies;
    var first := replies[0].daemon + ": " + if replies[0].text.Some? then replies[0].text.value else "null";
    assert Reasons(replies)[0] == first && |first| >= 2;
  }
}
