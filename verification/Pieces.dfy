/** A text cut into what is kept and what is hit, and what replacing every hit makes of it. */
module Pieces {

  /** Whether the first `n` characters of a text are taken. */
  type Taking = (string, nat) -> bool

  /**
   The text as what is kept and what is hit in turn: nothing begins to be taken inside a
   kept piece, and each hit is what is taken where it stands.
   */
  ghost predicate Splits(takes: Taking, s: string, kept: seq<string>, hits: seq<string>)
    decreases |hits|
  {
    && |kept| == |hits| + 1
    && kept[0] <= s
    && Untaken(takes, s, |kept[0]|)
    && (if hits == [] then s == kept[0]
        else HitAt(takes, s, |kept[0]|, hits[0])
             && Splits(takes, s[|kept[0]| + |hits[0]|..], kept[1..], hits[1..]))
  }

  /** Nothing begins to be taken at the first `k` characters. */
  ghost predicate Untaken(takes: Taking, s: string, k: nat)
    requires k <= |s|
  {
    forall o, n: nat :: 0 <= o < k ==> !takes(s[o..], n)
  }

  predicate HitAt(takes: Taking, s: string, k: nat, hit: string)
    requires k <= |s|
  {
    k + |hit| <= |s| && s[k..k + |hit|] == hit && takes(s[k..], |hit|)
  }

  /** kept[0] + between[0] + kept[1] + ... + kept[k] */
  function Woven(kept: seq<string>, between: seq<string>): string
    requires |kept| == |between| + 1
  {
    if between == [] then kept[0] else kept[0] + between[0] + Woven(kept[1..], between[1..])
  }

  function Copies(to: string, k: nat): (q: seq<string>)
    ensures |q| == k && forall i :: 0 <= i < k ==> q[i] == to
  {
    seq(k, _ => to)
  }

  /** Every hit replaced, and everything else where it was. */
  ghost predicate Swapped(takes: Taking, to: string, s: string, r: string) {
    exists kept, hits :: Splits(takes, s, kept, hits) && r == Woven(kept, Copies(to, |hits|))
  }

  lemma {:induction false} SplitsWhole(takes: Taking, s: string, kept: seq<string>, hits: seq<string>)
    requires Splits(takes, s, kept, hits)
    ensures Woven(kept, hits) == s
    decreases |hits|
  {
    if hits != [] {
      var k, h := |kept[0]|, |hits[0]|;
      SplitsWhole(takes, s[k + h..], kept[1..], hits[1..]);
      assert s == s[..k] + s[k..k + h] + s[k + h..];
    }
  }

  lemma WovenFirst(kept: seq<string>, between: seq<string>, first: string, hit: string)
    requires |kept| == |between| + 1
    ensures Woven([first] + kept, [hit] + between) == first + hit + Woven(kept, between)
  {
    assert ([first] + kept)[1..] == kept && ([hit] + between)[1..] == between;
  }

  lemma WovenLonger(kept: seq<string>, between: seq<string>, c: string)
    requires |kept| == |between| + 1
    ensures Woven([c + kept[0]] + kept[1..], between) == c + Woven(kept, between)
  {
    var longer := [c + kept[0]] + kept[1..];
    assert longer[1..] == kept[1..];
    if between != [] {
      var rest := Woven(kept[1..], between[1..]);
      assert (c + kept[0]) + between[0] + rest == c + (kept[0] + between[0] + rest);
    }
  }

  /** A hit at the front: nothing is kept before it. */
  lemma SplitAtHit(takes: Taking, s: string, n: nat, kept: seq<string>, hits: seq<string>)
    requires n <= |s| && takes(s, n) && Splits(takes, s[n..], kept, hits)
    ensures Splits(takes, s, [""] + kept, [s[..n]] + hits)
  {
    var kept', hits' := [""] + kept, [s[..n]] + hits;
    assert kept'[1..] == kept && hits'[1..] == hits && s[0..] == s;
    assert HitAt(takes, s, 0, s[..n]);
  }

  /** No hit at the front: its first character is kept. */
  lemma SplitAtKept(takes: Taking, s: string, kept: seq<string>, hits: seq<string>)
    requires s != "" && (forall n: nat :: !takes(s, n)) && Splits(takes, s[1..], kept, hits)
    ensures Splits(takes, s, [s[..1] + kept[0]] + kept[1..], hits)
  {
    var first, tail := s[..1] + kept[0], s[1..];
    var kept' := [first] + kept[1..];
    var k := |kept[0]|;
    assert first == s[..k + 1];
    assert kept'[1..] == kept[1..];
    forall o, n: nat | 0 <= o < k + 1 ensures !takes(s[o..], n) {
      if o > 0 { assert s[o..] == tail[o - 1..]; } else { assert s[o..] == s; }
    }
    if hits != [] {
      var h := |hits[0]|;
      assert tail[k..] == s[k + 1..] && tail[k..k + h] == s[k + 1..k + 1 + h] && tail[k + h..] == s[k + 1 + h..];
    }
  }

  /** Replacing with a hit at the front, and with none. */
  lemma SwapAtHit(takes: Taking, to: string, s: string, n: nat, kept: seq<string>, hits: seq<string>)
    requires n <= |s| && takes(s, n) && Splits(takes, s[n..], kept, hits)
    ensures Splits(takes, s, [""] + kept, [s[..n]] + hits)
    ensures Woven([""] + kept, Copies(to, |[s[..n]] + hits|)) == to + Woven(kept, Copies(to, |hits|))
  {
    SplitAtHit(takes, s, n, kept, hits);
    hide Splits;
    WovenFirst(kept, Copies(to, |hits|), "", to);
    assert Copies(to, |hits| + 1) == [to] + Copies(to, |hits|);
  }

  lemma SwapAtKept(takes: Taking, to: string, s: string, kept: seq<string>, hits: seq<string>)
    requires s != "" && (forall n: nat :: !takes(s, n)) && Splits(takes, s[1..], kept, hits)
    ensures Splits(takes, s, [s[..1] + kept[0]] + kept[1..], hits)
    ensures Woven([s[..1] + kept[0]] + kept[1..], Copies(to, |hits|)) == s[..1] + Woven(kept, Copies(to, |hits|))
  {
    SplitAtKept(takes, s, kept, hits);
    WovenLonger(kept, Copies(to, |hits|), s[..1]);
  }

  lemma SwapNothing(takes: Taking, to: string)
    ensures Splits(takes, "", [""], []) && Woven([""], Copies(to, 0)) == ""
  {}

  /** Each hit is what is taken somewhere in the text. */
  lemma {:induction false} HitsAreTaken(takes: Taking, s: string, kept: seq<string>, hits: seq<string>, i: nat)
    returns (k: nat)
    requires Splits(takes, s, kept, hits) && i < |hits|
    ensures k <= |s| && HitAt(takes, s, k, hits[i])
    decreases i
  {
    k := |kept[0]|;
    if i > 0 {
      var from := k + |hits[0]|;
      var j := HitsAreTaken(takes, s[from..], kept[1..], hits[1..], i - 1);
      k := from + j;
      assert s[from..][j..] == s[k..] && s[from..][j..j + |hits[i]|] == s[k..k + |hits[i]|];
    }
  }

  /** What is taken at a place is never empty, and determined. */
  ghost predicate Determined(takes: Taking) {
    && (forall t: string, n: nat :: takes(t, n) ==> n > 0)
    && (forall t: string, m: nat, n: nat :: takes(t, m) && takes(t, n) ==> m == n)
  }

  /** A text splits in one way only, so what replacing gives is determined. */
  lemma {:induction false} SplitsOnce(takes: Taking, s: string, kept: seq<string>, hits: seq<string>,
                                      kept': seq<string>, hits': seq<string>)
    requires Splits(takes, s, kept, hits) && Splits(takes, s, kept', hits')
    requires Determined(takes)
    ensures kept == kept' && hits == hits'
    decreases |hits|
  {
    SameFirst(takes, s, kept, hits, kept', hits');
    if hits != [] {
      var k, h := |kept[0]|, |hits[0]|;
      SplitsOnce(takes, s[k + h..], kept[1..], hits[1..], kept'[1..], hits'[1..]);
      assert hits == [hits[0]] + hits[1..] && hits' == [hits'[0]] + hits'[1..];
    }
    assert kept == [kept[0]] + kept[1..] && kept' == [kept'[0]] + kept'[1..];
  }

  lemma SameFirst(takes: Taking, s: string, kept: seq<string>, hits: seq<string>,
                  kept': seq<string>, hits': seq<string>)
    requires Splits(takes, s, kept, hits) && Splits(takes, s, kept', hits')
    requires Determined(takes)
    ensures kept[0] == kept'[0] && (hits == [] <==> hits' == [])
    ensures hits != [] ==> hits[0] == hits'[0]
  {
    NotShorter(takes, s, kept, hits, kept', hits');
    NotShorter(takes, s, kept', hits', kept, hits);
    hide Determined, Untaken, HitAt;
    var k := |kept[0]|;
    assert kept[0] == s[..k] == kept'[0];
    if hits != [] && hits' != [] { SameHit(takes, s, k, hits[0], hits'[0]); }
  }

  lemma SameHit(takes: Taking, s: string, k: nat, h: string, h': string)
    requires Determined(takes) && k <= |s| && HitAt(takes, s, k, h) && HitAt(takes, s, k, h')
    ensures h == h'
  {}

  lemma NotShorter(takes: Taking, s: string, kept: seq<string>, hits: seq<string>,
                   kept': seq<string>, hits': seq<string>)
    requires Splits(takes, s, kept, hits) && Splits(takes, s, kept', hits') && Determined(takes)
    ensures |kept[0]| >= |kept'[0]|
    ensures hits != [] ==> |kept[0]| < |s|
  {
    if hits != [] { assert takes(s[|kept[0]|..], |hits[0]|); }
  }

  lemma SwapsOnce(takes: Taking, to: string, s: string, r: string, r': string)
    requires Determined(takes) && Swapped(takes, to, s, r) && Swapped(takes, to, s, r')
    ensures r == r'
  {
    hide Determined;
    var kept, hits :| Splits(takes, s, kept, hits) && r == Woven(kept, Copies(to, |hits|));
    var kept', hits' :| Splits(takes, s, kept', hits') && r' == Woven(kept', Copies(to, |hits'|));
    SplitsOnce(takes, s, kept, hits, kept', hits');
  }
}
