/** Finite sets of heights, their extremes, and their elements in order. */
module Sets {

  predicate IsMin(s: set<nat>, m: nat) { m in s && forall x :: x in s ==> m <= x }
  predicate IsMax(s: set<nat>, m: nat) { m in s && forall x :: x in s ==> x <= m }

  lemma HasMin(s: set<nat>)
    requires s != {}
    ensures exists m :: IsMin(s, m)
  {
    var x :| x in s;
    if s == {x} {
      assert IsMin(s, x);
    } else {
      var rest := s - {x};
      assert rest == {} ==> s == {x};
      HasMin(rest);
      var m :| IsMin(rest, m);
      var least := if m <= x then m else x;
      forall y | y in s ensures least <= y { assert y == x || y in rest; }
      assert IsMin(s, least);
    }
  }

  lemma HasMax(s: set<nat>)
    requires s != {}
    ensures exists m :: IsMax(s, m)
  {
    var x :| x in s;
    if s == {x} {
      assert IsMax(s, x);
    } else {
      var rest := s - {x};
      assert rest == {} ==> s == {x};
      HasMax(rest);
      var m :| IsMax(rest, m);
      var most := if m >= x then m else x;
      forall y | y in s ensures y <= most { assert y == x || y in rest; }
      assert IsMax(s, most);
    }
  }

  function MinOf(s: set<nat>): (m: nat)
    requires s != {}
    ensures IsMin(s, m)
  {
    HasMin(s);
    var m :| IsMin(s, m);
    m
  }

  function MaxOf(s: set<nat>): (m: nat)
    requires s != {}
    ensures IsMax(s, m)
  {
    HasMax(s);
    var m :| IsMax(s, m);
    m
  }

  predicate Ascending(q: seq<nat>) { forall i, j :: 0 <= i < j < |q| ==> q[i] < q[j] }

  /** `sorted(s)`. */
  function Sorted(s: set<nat>): (q: seq<nat>)
    ensures Ascending(q) && |q| == |s|
    ensures forall x :: x in q <==> x in s
  {
    if s == {} then [] else
    var m := MaxOf(s);
    Sorted(s - {m}) + [m]
  }
}
