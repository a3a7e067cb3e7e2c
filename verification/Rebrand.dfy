/**
 Replacing the coin's name in user-visible text: literal phrases first, then patterns of
 character classes. Patterns are matched as a backtracking, greedy matcher would.
 */
module Rebrand {
  import opened Options
  import opened Pieces
  import opened Text

  datatype Class = AnyOf(chars: string) | Space

  predicate In(c: char, k: Class) {
    match k
    case AnyOf(chars) => c in chars
    case Space => IsSpace(c)
  }

  /** A run of classes, perhaps optional as a whole, and what follows it. */
  datatype Pattern = End | Then(unit: seq<Class>, optional: bool, rest: Pattern)

  const NAME := "WAM"

  predicate UnitAt(unit: seq<Class>, s: string) {
    |unit| <= |s| && forall i :: 0 <= i < |unit| ==> In(s[i], unit[i])
  }

  /** How much of the front of `s` the pattern takes; an optional part is taken if that works out. */
  function Match(p: Pattern, s: string): (r: Option<nat>)
    ensures r.Some? ==> r.value <= |s|
  {
    match p
    case End => Some(0)
    case Then(unit, optional, rest) =>
      var taken := if UnitAt(unit, s) then Match(rest, s[|unit|..]) else None;
      if taken.Some? then Some(|unit| + taken.value) else if optional then Match(rest, s) else None
  }

  /** The texts a pattern describes. */
  predicate Describes(p: Pattern, t: string) {
    match p
    case End => t == ""
    case Then(unit, optional, rest) =>
      (UnitAt(unit, t) && Describes(rest, t[|unit|..])) || (optional && Describes(rest, t))
  }

  lemma {:induction false} MatchSound(p: Pattern, s: string)
    requires Match(p, s).Some?
    ensures Describes(p, s[..Match(p, s).value])
  {
    match p
    case End =>
    case Then(unit, optional, rest) =>
      var n := Match(p, s).value;
      if UnitAt(unit, s) && Match(rest, s[|unit|..]).Some? {
        MatchSound(rest, s[|unit|..]);
        assert s[..n][|unit|..] == s[|unit|..][..n - |unit|];
      } else {
        MatchSound(rest, s);
      }
  }

  lemma {:induction false} MatchComplete(p: Pattern, s: string, n: nat)
    requires n <= |s| && Describes(p, s[..n])
    ensures Match(p, s).Some?
  {
    match p
    case End =>
    case Then(unit, optional, rest) =>
      if UnitAt(unit, s[..n]) && Describes(rest, s[..n][|unit|..]) {
        assert s[..n][|unit|..] == s[|unit|..][..n - |unit|];
        MatchComplete(rest, s[|unit|..], n - |unit|);
        assert forall i :: 0 <= i < |unit| ==> s[..n][i] == s[i];
      } else {
        MatchComplete(rest, s, n);
      }
  }

  /** How much of `s` a pattern takes with these choices, one for each part: taken, or passed over if it may be. */
  function Reading(p: Pattern, choices: seq<bool>, s: string): Option<nat> {
    match p
    case End => if choices == [] then Some(0) else None
    case Then(unit, optional, rest) =>
      if choices == [] then None
      else if !choices[0] then
        if optional then Reading(rest, choices[1..], s) else None
      else if !UnitAt(unit, s) then None
      else
        match Reading(rest, choices[1..], s[|unit|..])
        case None => None
        case Some(n) => Some(|unit| + n)
  }

  /** Where the two differ first, `a` takes what `b` passes over. */
  predicate Greedier(a: seq<bool>, b: seq<bool>) {
    a != [] && b != [] && ((a[0] && !b[0]) || (a[0] == b[0] && Greedier(a[1..], b[1..])))
  }

  lemma ReadingFirst(p: Pattern, cs: seq<bool>, s: string)
    requires p.Then? && Reading(p, cs, s).Some?
    ensures cs != []
    ensures cs[0] ==> UnitAt(p.unit, s) && Reading(p.rest, cs[1..], s[|p.unit|..]).Some?
    ensures !cs[0] ==> p.optional && Reading(p.rest, cs[1..], s).Some?
  {}

  /** The matcher is the greedy one: of all readings at the front it gives that which takes parts the earliest. */
  lemma {:induction false} MatchIsGreedy(p: Pattern, s: string) returns (best: seq<bool>)
    ensures Match(p, s) == Reading(p, best, s)
    ensures Match(p, s).None? ==> forall cs :: Reading(p, cs, s).None?
    ensures forall cs :: Reading(p, cs, s).Some? ==> cs == best || Greedier(best, cs)
  {
    match p
    case End =>
      best := [];
    case Then(unit, optional, rest) =>
      var taken := UnitAt(unit, s) && Match(rest, s[|unit|..]).Some?;
      var tail, skip: seq<bool> := [], [];
      if UnitAt(unit, s) { tail := MatchIsGreedy(rest, s[|unit|..]); }
      if optional { skip := MatchIsGreedy(rest, s); }
      best := if taken then [true] + tail else [false] + skip;
      forall cs | Reading(p, cs, s).Some? ensures taken || optional
                                          ensures cs == best || Greedier(best, cs)
      {
        ReadingFirst(p, cs, s);
        assert cs == [cs[0]] + cs[1..];
        assert best[1..] == if taken then tail else skip;
      }
  }

  // ------------------------------------------------------------------ patterns that cannot touch what they insert

  predicate Inserted(c: char) { c == 'W' || c == 'A' || c == 'M' }

  predicate Apart(k: Class) { !In('W', k) && !In('A', k) && !In('M', k) }

  predicate AllApart(unit: seq<Class>) { forall i :: 0 <= i < |unit| ==> Apart(unit[i]) }

  /** No class of the pattern holds a letter of the inserted name, and it never matches nothing. */
  predicate Safe(p: Pattern) { Plain(p) && Needs(p) }

  predicate Plain(p: Pattern) { p.Then? ==> AllApart(p.unit) && Plain(p.rest) }

  predicate Needs(p: Pattern) { p.Then? && ((!p.optional && p.unit != []) || Needs(p.rest)) }

  predicate Free(t: string) { forall i :: 0 <= i < |t| ==> !Inserted(t[i]) }

  lemma {:induction false} DescribedIsFree(p: Pattern, t: string)
    requires Plain(p) && Describes(p, t)
    ensures Free(t)
    ensures Needs(p) ==> t != ""
  {
    match p
    case End =>
    case Then(unit, optional, rest) =>
      if UnitAt(unit, t) && Describes(rest, t[|unit|..]) {
        DescribedIsFree(rest, t[|unit|..]);
        forall i | 0 <= i < |t| ensures !Inserted(t[i]) {
          if i < |unit| { assert Apart(unit[i]); } else { assert t[i] == t[|unit|..][i - |unit|]; }
        }
      } else {
        DescribedIsFree(rest, t);
      }
  }

  lemma {:induction false} NeedsTakesSome(p: Pattern, s: string)
    requires Needs(p) && Match(p, s).Some?
    ensures Match(p, s).value > 0
  {
    if UnitAt(p.unit, s) && Match(p.rest, s[|p.unit|..]).Some? {
      if p.unit == [] { NeedsTakesSome(p.rest, s[|p.unit|..]); }
    } else {
      NeedsTakesSome(p.rest, s);
    }
  }

  // ------------------------------------------------------------------ writing patterns down

  type Quiet = p: Pattern | Plain(p) witness End

  function One(chars: string, rest: Pattern): Pattern { Then([AnyOf(chars)], false, rest) }

  function Maybe(chars: string, rest: Pattern): Pattern { Then([AnyOf(chars)], true, rest) }

  lemma OneDescribes(chars: string, rest: Pattern, t: string)
    requires t != "" && t[0] in chars && Describes(rest, t[1..])
    ensures Describes(One(chars, rest), t)
  {}

  // ------------------------------------------------------------------ replacing

  /** `pattern.sub('WAM', s)`: leftmost first, and on from where the match ended. */
  function Sub(p: Pattern, s: string): string
    requires Needs(p)
    decreases |s|
  {
    if s == "" then "" else
    var m := Match(p, s);
    if m.Some? then NeedsTakesSome(p, s); NAME + Sub(p, s[m.value..])
    else s[..1] + Sub(p, s[1..])
  }

  /** `s.replace(from, to)` */
  function Replace(from: string, to: string, s: string): string
    requires from != ""
    decreases |s|
  {
    if s == "" then ""
    else if from <= s then to + Replace(from, to, s[|from|..])
    else s[..1] + Replace(from, to, s[1..])
  }

  /** Nothing in `s` matches. */
  predicate Clean(p: Pattern, s: string) { s == "" || (Match(p, s).None? && Clean(p, s[1..])) }

  lemma {:induction false} CleanAt(p: Pattern, s: string, i: nat)
    requires Clean(p, s) && i < |s|
    ensures Match(p, s[i..]).None?
  {
    if i > 0 {
      CleanAt(p, s[1..], i - 1);
      assert s[1..][i - 1..] == s[i..];
    } else {
      assert s[0..] == s;
    }
  }

  lemma MatchIsStretch(p: Pattern, s: string)
    requires Match(p, s).Some?
    ensures Describes(p, s[0..Match(p, s).value])
  {
    MatchSound(p, s);
    assert s[..Match(p, s).value] == s[0..Match(p, s).value];
  }

  /** Clean says just that: no stretch of the text is one the pattern describes. */
  lemma {:induction false} CleanMeans(p: Pattern, s: string)
    requires Needs(p) && Plain(p)
    ensures Clean(p, s) <==> forall i, j :: 0 <= i <= j <= |s| ==> !Describes(p, s[i..j])
  {
    if Clean(p, s) {
      forall i, j | 0 <= i <= j <= |s| ensures !Describes(p, s[i..j]) {
        if Describes(p, s[i..j]) {
          DescribedIsFree(p, s[i..j]);
          assert s[i..][..j - i] == s[i..j];
          MatchComplete(p, s[i..], j - i);
          CleanAt(p, s, i);
        }
      }
    }
    if forall i, j :: 0 <= i <= j <= |s| ==> !Describes(p, s[i..j]) {
      if s != "" {
        forall i, j | 0 <= i <= j <= |s[1..]| ensures !Describes(p, s[1..][i..j]) {
          assert s[1..][i..j] == s[i + 1..j + 1];
        }
        CleanMeans(p, s[1..]);
        if Match(p, s).Some? { MatchIsStretch(p, s); }
      }
    }
  }

  lemma FreeTail(t: string)
    requires Free(t) && t != ""
    ensures Free(t[1..])
  {}

  /** A stretch at the front of the result that holds no inserted letter was at the front of the text. */
  lemma {:induction false} FrontIsOriginal(q: Pattern, s: string, n: nat)
    requires Needs(q) && n <= |Sub(q, s)| && Free(Sub(q, s)[..n])
    ensures n <= |s| && Sub(q, s)[..n] == s[..n]
    decreases |s|
  {
    if s != "" && n > 0 {
      var r := Sub(q, s);
      assert r[..n][0] == r[0];
      if Match(q, s).None? {
        var tail := Sub(q, s[1..]);
        assert r == s[..1] + tail;
        assert tail[..n - 1] == r[..n][1..];
        FreeTail(r[..n]);
        FrontIsOriginal(q, s[1..], n - 1);
        assert r[..n] == s[..1] + tail[..n - 1];
      }
    }
  }

  lemma NoMatchAtInserted(p: Pattern, s: string)
    requires Safe(p) && s != "" && Inserted(s[0])
    ensures Match(p, s).None?
  {
    if Match(p, s).Some? {
      MatchSound(p, s);
      DescribedIsFree(p, s[..Match(p, s).value]);
    }
  }

  /** Putting the name in front of clean text leaves it clean: no match runs into or out of it. */
  lemma CleanAfterName(p: Pattern, s: string)
    requires Safe(p) && Clean(p, s)
    ensures Clean(p, NAME + s)
  {
    var t := NAME + s;
    assert t[1..] == "AM" + s && t[1..][1..] == "M" + s && t[1..][1..][1..] == s;
    NoMatchAtInserted(p, t);
    NoMatchAtInserted(p, t[1..]);
    NoMatchAtInserted(p, t[1..][1..]);
  }

  /**
   Replacing by one pattern never makes a match of another, or of itself: what a match
   could use was side by side in the text already.
   */
  lemma {:induction false} SubKeepsClean(q: Pattern, p: Pattern, s: string)
    requires Needs(q) && Safe(p) && (Clean(p, s) || p == q)
    ensures Clean(p, Sub(q, s))
    decreases |s|
  {
    if s != "" {
      var r := Sub(q, s);
      if Match(q, s).Some? {
        NeedsTakesSome(q, s);
        var n := Match(q, s).value;
        if Clean(p, s) { CleanTail(p, s, n); }
        SubKeepsClean(q, p, s[n..]);
        CleanAfterName(p, Sub(q, s[n..]));
      } else {
        SubKeepsClean(q, p, s[1..]);
        assert r[1..] == Sub(q, s[1..]);
        if Match(p, r).Some? {
          MatchSound(p, r);
          DescribedIsFree(p, r[..Match(p, r).value]);
          FrontIsOriginal(q, s, Match(p, r).value);
          MatchComplete(p, s, Match(p, r).value);
        }
      }
    }
  }

  lemma {:induction false} CleanTail(p: Pattern, s: string, n: nat)
    requires Clean(p, s) && n <= |s|
    ensures Clean(p, s[n..])
  {
    if n > 0 {
      CleanTail(p, s[1..], n - 1);
      assert s[1..][n - 1..] == s[n..];
    } else {
      assert s[0..] == s;
    }
  }

  lemma {:induction false} SubOfClean(p: Pattern, s: string)
    requires Needs(p)
    ensures Clean(p, s) ==> Sub(p, s) == s
    decreases |s|
  {
    if s != "" && Clean(p, s) {
      SubOfClean(p, s[1..]);
      assert s == s[..1] + s[1..];
    }
  }

  // ------------------------------------------------------------------ phrases

  /** How the name is spelled in a phrase, and what stands around it. */
  datatype Spelling = Lower | Title | Upper

  datatype Phrase = Phrase(before: string, name: Spelling, after: string, to: string)

  function Spelled(n: Spelling): string {
    match n
    case Lower => "bitcoin"
    case Title => "Bitcoin"
    case Upper => "BITCOIN"
  }

  function From(ph: Phrase): (from: string)
    ensures from != ""
  {
    ph.before + Spelled(ph.name) + ph.after
  }

  /** The name in any case, with a dotted or dotless i, and perhaps an s. */
  const BITCOIN_ANY: Pattern := One("Bb", One(ANY_I, One("Tt", ANY_COIN)))

  const ANY_COIN: Quiet := One("Cc", One("Oo", One(ANY_I, One("Nn", Maybe("Ss", End)))))

  const ANY_I := "\U{0130}Ii\U{0131}"

  lemma AnyIsSafe()
    ensures Safe(BITCOIN_ANY)
  {}

  lemma AnyDescribes(n: Spelling)
    ensures Describes(BITCOIN_ANY, Spelled(n))
  {
    var t := Spelled(n);
    assert Describes(Maybe("Ss", End), t[7..]);
    OneDescribes("Nn", Maybe("Ss", End), t[6..]);
    OneDescribes(ANY_I, One("Nn", Maybe("Ss", End)), t[5..]);
    OneDescribes("Oo", One(ANY_I, One("Nn", Maybe("Ss", End))), t[4..]);
    OneDescribes("Cc", One("Oo", One(ANY_I, One("Nn", Maybe("Ss", End)))), t[3..]);
    OneDescribes("Tt", ANY_COIN, t[2..]);
    OneDescribes(ANY_I, One("Tt", ANY_COIN), t[1..]);
    OneDescribes("Bb", One(ANY_I, One("Tt", ANY_COIN)), t);
  }

  /** Text without the name in any spelling has none of the phrases in it. */
  lemma {:induction false} CleanHasNoPhrase(ph: Phrase, s: string)
    requires Clean(BITCOIN_ANY, s)
    ensures Replace(From(ph), ph.to, s) == s
    decreases |s|
  {
    var from := From(ph);
    if s != "" {
      if from <= s {
        var i, n := |ph.before|, |Spelled(ph.name)|;
        assert from[i..i + n] == Spelled(ph.name);
        assert s[i..][..n] == Spelled(ph.name) by { assert s[..|from|] == from; assert s[i..i + n] == from[i..i + n]; }
        AnyDescribes(ph.name);
        MatchComplete(BITCOIN_ANY, s[i..], n);
        CleanAt(BITCOIN_ANY, s, i);
      } else {
        CleanHasNoPhrase(ph, s[1..]);
        assert s == s[..1] + s[1..];
      }
    }
  }

  // ------------------------------------------------------------------ the whole rewrite

  function ReplaceAll(phrases: seq<Phrase>, s: string): string {
    if phrases == [] then s else
    var n := |phrases| - 1;
    Replace(From(phrases[n]), phrases[n].to, ReplaceAll(phrases[..n], s))
  }

  predicate AllNeed(patterns: seq<Pattern>) { forall i :: 0 <= i < |patterns| ==> Needs(patterns[i]) }

  predicate AllSafe(patterns: seq<Pattern>) { forall i :: 0 <= i < |patterns| ==> Safe(patterns[i]) }

  function SubAll(patterns: seq<Pattern>, s: string): string
    requires AllNeed(patterns)
  {
    if patterns == [] then s else
    var n := |patterns| - 1;
    Sub(patterns[n], SubAll(patterns[..n], s))
  }

  function Rewritten(phrases: seq<Phrase>, patterns: seq<Pattern>, s: string): string
    requires AllNeed(patterns)
  {
    AnyIsSafe();
    SubAll(patterns, Sub(BITCOIN_ANY, ReplaceAll(phrases, s)))
  }

  /** `rewrite`, as it goes over its two tables. */
  method Rewrite(phrases: seq<Phrase>, patterns: seq<Pattern>, s: string) returns (text: string)
    requires AllNeed(patterns)
    ensures text == Rewritten(phrases, patterns, s)
  {
    AnyIsSafe();
    text := s;
    var i := 0;
    while i < |phrases|
      invariant 0 <= i <= |phrases| && text == ReplaceAll(phrases[..i], s)
    {
      assert phrases[..i + 1][..i] == phrases[..i];
      text := Replace(From(phrases[i]), phrases[i].to, text);
      i := i + 1;
    }
    assert phrases[..i] == phrases;
    text := Sub(BITCOIN_ANY, text);
    i := 0;
    while i < |patterns|
      invariant 0 <= i <= |patterns|
      invariant text == SubAll(patterns[..i], Sub(BITCOIN_ANY, ReplaceAll(phrases, s)))
    {
      assert patterns[..i + 1][..i] == patterns[..i];
      text := Sub(patterns[i], text);
      i := i + 1;
    }
    assert patterns[..i] == patterns;
  }

  lemma {:induction false} SubAllKeepsClean(patterns: seq<Pattern>, p: Pattern, s: string)
    requires AllNeed(patterns) && Safe(p) && (Clean(p, s) || p in patterns)
    ensures Clean(p, SubAll(patterns, s))
  {
    if patterns != [] {
      var n := |patterns| - 1;
      assert p in patterns ==> p in patterns[..n] || p == patterns[n];
      if Clean(p, s) || p in patterns[..n] { SubAllKeepsClean(patterns[..n], p, s); }
      SubKeepsClean(patterns[n], p, SubAll(patterns[..n], s));
    }
  }

  /** After one pass nothing matches any more: not the name in any case, and none of the spellings. */
  lemma NothingLeft(phrases: seq<Phrase>, patterns: seq<Pattern>, s: string)
    requires AllSafe(patterns)
    ensures Clean(BITCOIN_ANY, Rewritten(phrases, patterns, s))
    ensures forall p :: p in patterns ==> Clean(p, Rewritten(phrases, patterns, s))
    ensures forall ph: Phrase :: Replace(From(ph), ph.to, Rewritten(phrases, patterns, s))
                              == Rewritten(phrases, patterns, s)
  {
    AnyIsSafe();
    var after := Sub(BITCOIN_ANY, ReplaceAll(phrases, s));
    SubKeepsClean(BITCOIN_ANY, BITCOIN_ANY, ReplaceAll(phrases, s));
    SubAllKeepsClean(patterns, BITCOIN_ANY, after);
    forall p | p in patterns ensures Clean(p, Rewritten(phrases, patterns, s)) {
      SubAllKeepsClean(patterns, p, after);
    }
    forall ph: Phrase ensures Replace(From(ph), ph.to, Rewritten(phrases, patterns, s))
                           == Rewritten(phrases, patterns, s)
    {
      CleanHasNoPhrase(ph, Rewritten(phrases, patterns, s));
    }
  }

  lemma {:induction false} ReplaceAllOfClean(phrases: seq<Phrase>, s: string)
    requires Clean(BITCOIN_ANY, s)
    ensures ReplaceAll(phrases, s) == s
  {
    if phrases != [] {
      ReplaceAllOfClean(phrases[..|phrases| - 1], s);
      CleanHasNoPhrase(phrases[|phrases| - 1], s);
    }
  }

  lemma {:induction false} SubAllOfClean(patterns: seq<Pattern>, s: string)
    requires AllNeed(patterns) && forall p :: p in patterns ==> Clean(p, s)
    ensures SubAll(patterns, s) == s
  {
    if patterns != [] {
      var n := |patterns| - 1;
      SubAllOfClean(patterns[..n], s);
      SubOfClean(patterns[n], s);
    }
  }

  /** Text is left as it is exactly when none of the patterns has anything in it. */
  lemma UntouchedExactly(phrases: seq<Phrase>, patterns: seq<Pattern>, s: string)
    requires AllSafe(patterns)
    ensures Rewritten(phrases, patterns, s) == s
       <==> (Clean(BITCOIN_ANY, s) && forall p :: p in patterns ==> Clean(p, s))
  {
    AnyIsSafe();
    NothingLeft(phrases, patterns, s);
    if Clean(BITCOIN_ANY, s) && forall p :: p in patterns ==> Clean(p, s) {
      ReplaceAllOfClean(phrases, s);
      SubOfClean(BITCOIN_ANY, s);
      SubAllOfClean(patterns, s);
    }
  }

  /** Running it twice changes nothing the second time. */
  lemma RewriteIdempotent(phrases: seq<Phrase>, patterns: seq<Pattern>, s: string)
    requires AllSafe(patterns)
    ensures Rewritten(phrases, patterns, Rewritten(phrases, patterns, s)) == Rewritten(phrases, patterns, s)
  {
    var once := Rewritten(phrases, patterns, s);
    NothingLeft(phrases, patterns, s);
    UntouchedExactly(phrases, patterns, once);
  }

  // ------------------------------------------------------------------ what a pass keeps

  function Takes(p: Pattern): (string, nat) -> bool { (t, n) => Match(p, t) == Some(n) }

  function Reads(from: string): (string, nat) -> bool { (t, n) => n == |from| && from <= t }

  /** `pattern.sub`: every match described by the pattern and replaced, every other character kept. */
  lemma {:induction false} SubSplits(p: Pattern, s: string) returns (kept: seq<string>, hits: seq<string>)
    requires Needs(p)
    ensures |kept| == |hits| + 1 && Splits(Takes(p), s, kept, hits) && Woven(kept, hits) == s
    ensures Sub(p, s) == Woven(kept, Copies("WAM", |hits|))
    ensures forall i :: 0 <= i < |hits| ==> Describes(p, hits[i])
    decreases |s|
  {
    hide Match, Describes, Splits, Woven;
    kept, hits := [""], [];
    if s == "" {
      SwapNothing(Takes(p), "WAM");
    } else if Match(p, s).Some? {
      NeedsTakesSome(p, s);
      var n := Match(p, s).value;
      kept, hits := SubSplits(p, s[n..]);
      SwapAtHit(Takes(p), "WAM", s, n, kept, hits);
      kept, hits := [""] + kept, [s[..n]] + hits;
    } else {
      kept, hits := SubSplits(p, s[1..]);
      SwapAtKept(Takes(p), "WAM", s, kept, hits);
      kept := [s[..1] + kept[0]] + kept[1..];
    }
    SplitsWhole(Takes(p), s, kept, hits);
    HitsAreDescribed(p, s, kept, hits);
  }

  lemma HitsAreDescribed(p: Pattern, s: string, kept: seq<string>, hits: seq<string>)
    requires Splits(Takes(p), s, kept, hits)
    ensures forall i :: 0 <= i < |hits| ==> Describes(p, hits[i])
  {
    hide Match, Describes, Splits;
    forall i | 0 <= i < |hits| ensures Describes(p, hits[i]) {
      var k := HitsAreTaken(Takes(p), s, kept, hits, i);
      MatchSound(p, s[k..]);
      assert s[k..][..|hits[i]|] == hits[i];
    }
  }

  /** `replace`: the same for a phrase. */
  lemma {:induction false} ReplaceSplits(from: string, to: string, s: string)
    returns (kept: seq<string>, hits: seq<string>)
    requires from != ""
    ensures |kept| == |hits| + 1 && Splits(Reads(from), s, kept, hits) && Woven(kept, hits) == s
    ensures Replace(from, to, s) == Woven(kept, Copies(to, |hits|))
    decreases |s|
  {
    hide Splits, Woven;
    kept, hits := [""], [];
    if s == "" {
      SwapNothing(Reads(from), to);
    } else if from <= s {
      kept, hits := ReplaceSplits(from, to, s[|from|..]);
      SwapAtHit(Reads(from), to, s, |from|, kept, hits);
      kept, hits := [""] + kept, [s[..|from|]] + hits;
    } else {
      kept, hits := ReplaceSplits(from, to, s[1..]);
      SwapAtKept(Reads(from), to, s, kept, hits);
      kept := [s[..1] + kept[0]] + kept[1..];
    }
    SplitsWhole(Reads(from), s, kept, hits);
  }

  /** Both ways of replacing leave no choice: there is one result. */
  lemma OneResult(p: Pattern, ph: Phrase)
    ensures Determined(Reads(From(ph)))
    ensures Needs(p) ==> Determined(Takes(p))
  {
    hide Match, From;
    if Needs(p) {
      forall t: string, n: nat | Takes(p)(t, n) ensures n > 0 { NeedsTakesSome(p, t); }
    }
  }

  /** The text after each phrase of a table. */
  lemma {:induction false} PhraseStages(phrases: seq<Phrase>, s: string) returns (texts: seq<string>)
    ensures |texts| == |phrases| + 1 && texts[0] == s && texts[|phrases|] == ReplaceAll(phrases, s)
    ensures forall i :: 0 <= i < |phrases| ==> Swapped(Reads(From(phrases[i])), phrases[i].to, texts[i], texts[i + 1])
  {
    if phrases == [] {
      texts := [s];
    } else {
      var n := |phrases| - 1;
      var before := PhraseStages(phrases[..n], s);
      var kept, hits := ReplaceSplits(From(phrases[n]), phrases[n].to, before[n]);
      texts := before + [ReplaceAll(phrases, s)];
      assert Swapped(Reads(From(phrases[n])), phrases[n].to, texts[n], texts[n + 1]);
    }
  }

  /** The text after each pattern of a table. */
  lemma {:induction false} PatternStages(patterns: seq<Pattern>, s: string) returns (texts: seq<string>)
    requires AllNeed(patterns)
    ensures |texts| == |patterns| + 1 && texts[0] == s && texts[|patterns|] == SubAll(patterns, s)
    ensures forall i :: 0 <= i < |patterns| ==> Swapped(Takes(patterns[i]), "WAM", texts[i], texts[i + 1])
  {
    if patterns == [] {
      texts := [s];
    } else {
      var n := |patterns| - 1;
      var before := PatternStages(patterns[..n], s);
      SubSwaps(patterns[n], before[n]);
      texts := before + [SubAll(patterns, s)];
      assert Swapped(Takes(patterns[n]), "WAM", texts[n], texts[n + 1]);
    }
  }

  /**
   The whole pass: the phrases in table order, the name in any case, the spellings in table
   order, and at each stage every hit is replaced and nothing else is touched.
   */
  lemma RewrittenInStages(phrases: seq<Phrase>, patterns: seq<Pattern>, s: string) returns (texts: seq<string>)
    requires AllNeed(patterns)
    ensures var m, n := |phrases|, |patterns|;
            && |texts| == m + n + 2 && texts[0] == s && texts[m + n + 1] == Rewritten(phrases, patterns, s)
            && (forall i :: 0 <= i < m ==> Swapped(Reads(From(phrases[i])), phrases[i].to, texts[i], texts[i + 1]))
            && Swapped(Takes(BITCOIN_ANY), "WAM", texts[m], texts[m + 1])
            && (forall i :: 0 <= i < n ==>
                  Swapped(Takes(patterns[i]), "WAM", texts[m + 1 + i], texts[m + 1 + i + 1]))
  {
    AnyIsSafe();
    hide *;
    var first := PhraseStages(phrases, s);
    var named := ReplaceAll(phrases, s);
    SubSwaps(BITCOIN_ANY, named);
    var rest := PatternStages(patterns, Sub(BITCOIN_ANY, named));
    RewrittenIs(phrases, patterns, s);
    texts := first + rest;
  }

  lemma RewrittenIs(phrases: seq<Phrase>, patterns: seq<Pattern>, s: string)
    requires AllNeed(patterns)
    ensures Needs(BITCOIN_ANY)
    ensures Rewritten(phrases, patterns, s) == SubAll(patterns, Sub(BITCOIN_ANY, ReplaceAll(phrases, s)))
  {
    AnyIsSafe();
  }

  lemma SubSwaps(p: Pattern, s: string)
    requires Needs(p)
    ensures Swapped(Takes(p), "WAM", s, Sub(p, s))
  {
    var kept, hits := SubSplits(p, s);
  }

  // ------------------------------------------------------------------ what a pass leaves at the front

  /** No match of the pattern begins with `c`. */
  predicate HeadFree(p: Pattern, c: char) {
    p.Then? && p.unit != [] && !In(c, p.unit[0]) && (p.optional ==> HeadFree(p.rest, c))
  }

  lemma {:induction false} NoMatchAtHead(p: Pattern, s: string)
    requires s != "" && HeadFree(p, s[0])
    ensures Match(p, s).None?
  {
    if p.optional { NoMatchAtHead(p.rest, s); }
  }

  lemma {:induction false} SubKeepsHead(p: Pattern, h: string, s: string)
    requires Needs(p) && forall i :: 0 <= i < |h| ==> HeadFree(p, h[i])
    ensures Sub(p, h + s) == h + Sub(p, s)
  {
    if h == "" {
      assert h + s == s;
    } else {
      NoMatchAtHead(p, h + s);
      assert (h + s)[1..] == h[1..] + s;
      SubKeepsHead(p, h[1..], s);
    }
  }

  lemma PrefixHead(from: string, s: string)
    requires from != "" && from <= s
    ensures s != "" && from[0] == s[0]
  {}

  lemma {:induction false} ReplaceKeepsHead(from: string, to: string, h: string, s: string)
    requires from != "" && from[0] !in h
    ensures Replace(from, to, h + s) == h + Replace(from, to, s)
  {
    if h == "" {
      assert h + s == s;
    } else {
      if from <= h + s { PrefixHead(from, h + s); }
      assert (h + s)[1..] == h[1..] + s;
      ReplaceKeepsHead(from, to, h[1..], s);
    }
  }

  lemma ReplaceAtFront(from: string, to: string, s: string)
    requires from != ""
    ensures Replace(from, to, from + s) == to + Replace(from, to, s)
  {
    assert (from + s)[|from|..] == s;
  }
}
