/**
 A flag kept on disk, and a monitor that speaks when it should be turned: on, or off again.
 A step may say its word and die before the flag is written.
 */
module Toggle {

  datatype Step = Step(speaks: bool, saved: bool)

  /** The flag after some steps: turned by every word that was written. */
  function Flag(start: bool, steps: seq<Step>): bool {
    if steps == [] then start else
    var n := |steps| - 1;
    Flag(start, steps[..n]) != (steps[n].speaks && steps[n].saved)
  }

  /** What is said: on (true) where the flag found is off, off where it is on. */
  function Words(start: bool, steps: seq<Step>): seq<bool> {
    if steps == [] then [] else
    var n := |steps| - 1;
    Words(start, steps[..n]) + if steps[n].speaks then [!Flag(start, steps[..n])] else []
  }

  lemma OneMoreStep(start: bool, steps: seq<Step>, s: Step)
    ensures Flag(start, steps + [s]) == (Flag(start, steps) != (s.speaks && s.saved))
    ensures Words(start, steps + [s]) == Words(start, steps) + if s.speaks then [!Flag(start, steps)] else []
  {
    assert (steps + [s])[..|steps|] == steps;
  }

  /** On and off in turn, beginning with the one that `start` is not. */
  predicate Alternates(start: bool, q: seq<bool>) { forall i :: 0 <= i < |q| ==> (q[i] <==> (i % 2 == 0) != start) }

  /** Every step that speaks, but for the last that does, was written. */
  predicate Written(steps: seq<Step>) {
    forall j, k :: 0 <= j < k < |steps| && steps[j].speaks && steps[k].speaks ==> steps[j].saved
  }

  /** The last step that spoke, or -1. */
  function LastWord(steps: seq<Step>): (l: int)
    ensures -1 <= l < |steps|
    ensures l >= 0 ==> steps[l].speaks
    ensures forall j :: l < j < |steps| ==> !steps[j].speaks
  {
    if steps == [] then -1
    else if steps[|steps| - 1].speaks then |steps| - 1
    else
      var l := LastWord(steps[..|steps| - 1]);
      assert forall j :: l < j < |steps| - 1 ==> steps[..|steps| - 1][j] == steps[j];
      l
  }

  /** The flag agrees with the last word exactly when that word was written. */
  lemma {:induction false} WordAndFlag(start: bool, steps: seq<Step>)
    ensures var l, said := LastWord(steps), Words(start, steps);
            && (l == -1 <==> said == [])
            && (l == -1 ==> Flag(start, steps) == start)
            && (l >= 0 ==> (steps[l].saved <==> said[|said| - 1] == Flag(start, steps)))
  {
    if steps != [] { WordAndFlag(start, steps[..|steps| - 1]); }
  }

  lemma WrittenOneMore(steps: seq<Step>)
    requires steps != []
    ensures var n := |steps| - 1; var l := LastWord(steps[..n]);
            Written(steps) <==> Written(steps[..n]) && (steps[n].speaks && l >= 0 ==> steps[l].saved)
  {
    var n := |steps| - 1;
    assert forall j :: 0 <= j < n ==> steps[..n][j] == steps[j];
  }

  lemma OneMoreWord(start: bool, said: seq<bool>, w: bool)
    ensures Alternates(start, said + [w]) <==> Alternates(start, said) && (w <==> (|said| % 2 == 0) != start)
  {
    assert forall i :: 0 <= i < |said| ==> (said + [w])[i] == said[i];
    assert (said + [w])[|said|] == w;
  }

  /** The words strictly alternate exactly when every one of them but the last was written. */
  lemma {:induction false} AlternatesExactly(start: bool, steps: seq<Step>)
    ensures Alternates(start, Words(start, steps)) <==> Written(steps)
  {
    if steps != [] {
      var n := |steps| - 1;
      AlternatesExactly(start, steps[..n]);
      WrittenOneMore(steps);
      WordAndFlag(start, steps[..n]);
      var said, flag, l := Words(start, steps[..n]), Flag(start, steps[..n]), LastWord(steps[..n]);
      assert l >= 0 ==> steps[..n][l] == steps[l];
      if steps[n].speaks {
        OneMoreWord(start, said, !flag);
        assert Words(start, steps) == said + [!flag];
        var m := |said| - 1;
        assert l >= 0 && Alternates(start, said) ==> (said[m] <==> (m % 2 == 0) != start);
      } else {
        assert Words(start, steps) == said;
      }
      hide Written, Flag;
    }
  }
}
