/** Suggesting the one-character correction of a mistyped address. */
module AddressCheck {
  import opened Positional
  import opened Text
  import opened Base58

  /** A suggestion: position counted from one, what was there, what should be, the result. */
  datatype Fix = Fix(position: nat, was: char, now: char, candidate: string)

  predicate Passes(sha: Hash, s: string) {
    var r := ParseAddress(sha, s);
    r.Ok? && r.value.1
  }

  /** The checker as a value, so that the search can be stated for any check. */
  function Checker(sha: Hash): string -> bool { s => Passes(sha, s) }

  /** Changing character `i` to symbol `d` is a change, and the result passes. */
  predicate Works(ok: string -> bool, symbols: string, bad: string, i: nat, d: nat)
    requires i < |bad| && d < |symbols|
  {
    symbols[d] != bad[i] && ok(bad[i := symbols[d]])
  }

  function FixAt(symbols: string, bad: string, i: nat, d: nat): Fix
    requires i < |bad| && d < |symbols|
  {
    Fix(i + 1, bad[i], symbols[d], bad[i := symbols[d]])
  }

  /** Suggestions for the first `d` symbols at position `i`, in alphabet order. */
  function FixesAt(ok: string -> bool, symbols: string, bad: string, i: nat, d: nat): seq<Fix>
    requires i < |bad| && d <= |symbols|
  {
    if d == 0 then []
    else
      FixesAt(ok, symbols, bad, i, d - 1)
      + if Works(ok, symbols, bad, i, d - 1) then [FixAt(symbols, bad, i, d - 1)] else []
  }

  /** Suggestions for the first `i` positions, left to right. */
  function FixesUpTo(ok: string -> bool, symbols: string, bad: string, i: nat): seq<Fix>
    requires i <= |bad|
  {
    if i == 0 then [] else FixesUpTo(ok, symbols, bad, i - 1) + FixesAt(ok, symbols, bad, i - 1, |symbols|)
  }

  /** `find_single_char_fix` as it runs: every position, every symbol, errors skipped. */
  method FindSingleCharFix(sha: Hash, bad: string) returns (out: seq<Fix>)
    ensures out == FixesUpTo(Checker(sha), ALPHABET, bad, |bad|)
  {
    var symbols := ALPHABET;
    out := [];
    for i := 0 to |bad|
      invariant out == FixesUpTo(Checker(sha), symbols, bad, i)
    {
      var found := TrySymbols(sha, symbols, bad, i);
      out := out + found;
    }
  }

  method TrySymbols(sha: Hash, symbols: string, bad: string, i: nat) returns (out: seq<Fix>)
    requires i < |bad|
    ensures out == FixesAt(Checker(sha), symbols, bad, i, |symbols|)
  {
    out := [];
    for d := 0 to |symbols|
      invariant out == FixesAt(Checker(sha), symbols, bad, i, d)
    {
      if symbols[d] == bad[i] {
        continue;
      }
      var candidate := bad[..i] + [symbols[d]] + bad[i + 1..];
      assert candidate == bad[i := symbols[d]];
      var passes := Checks(sha, candidate);
      if passes {
        out := out + [Fix(i + 1, bad[i], symbols[d], candidate)];
      }
    }
  }

  method Checks(sha: Hash, candidate: string) returns (passes: bool)
    ensures passes == Checker(sha)(candidate)
  {
    var r := DecodeAddress(sha, candidate);
    passes := r.Ok? && r.value.1;
  }

  predicate IsFixAt(ok: string -> bool, symbols: string, bad: string, i: nat, n: nat, f: Fix)
    requires i < |bad| && n <= |symbols|
  {
    exists d :: 0 <= d < n && Works(ok, symbols, bad, i, d) && f == FixAt(symbols, bad, i, d)
  }

  lemma {:induction false} FixesAtExact(ok: string -> bool, symbols: string, bad: string, i: nat, n: nat, f: Fix)
    requires i < |bad| && n <= |symbols|
    ensures f in FixesAt(ok, symbols, bad, i, n) <==> IsFixAt(ok, symbols, bad, i, n, f)
  {
    if n > 0 { FixesAtExact(ok, symbols, bad, i, n - 1, f); }
  }

  lemma {:induction false} FixesUpToExact(ok: string -> bool, symbols: string, bad: string, n: nat, f: Fix)
    requires n <= |bad|
    ensures f in FixesUpTo(ok, symbols, bad, n)
       <==> exists i :: 0 <= i < n && IsFixAt(ok, symbols, bad, i, |symbols|, f)
  {
    hide IsFixAt, FixesAt;
    if n > 0 {
      FixesUpToExact(ok, symbols, bad, n - 1, f);
      FixesAtExact(ok, symbols, bad, n - 1, |symbols|, f);
    }
  }

  /** `typed` is `meant` with exactly character `i` wrong. */
  predicate OneSlip(meant: string, typed: string, i: nat) {
    |typed| == |meant| && i < |meant| && typed[i] != meant[i] && typed[i := meant[i]] == meant
  }

  predicate Suggested(fixes: seq<Fix>, meant: string) {
    exists f :: f in fixes && f.candidate == meant
  }

  lemma SuggestedIsSlip(ok: string -> bool, symbols: string, typed: string, meant: string)
    requires Suggested(FixesUpTo(ok, symbols, typed, |typed|), meant)
    ensures ok(meant) && exists i: nat :: OneSlip(meant, typed, i)
  {
    var f :| f in FixesUpTo(ok, symbols, typed, |typed|) && f.candidate == meant;
    FixesUpToExact(ok, symbols, typed, |typed|, f);
    var i: nat :| i < |typed| && IsFixAt(ok, symbols, typed, i, |symbols|, f);
    assert OneSlip(meant, typed, i);
  }

  lemma SlipIsSuggested(ok: string -> bool, symbols: string, typed: string, meant: string, i: nat)
    requires ok(meant) && OneSlip(meant, typed, i) && meant[i] in symbols
    ensures Suggested(FixesUpTo(ok, symbols, typed, |typed|), meant)
  {
    var d := Find(symbols, meant[i]);
    var f := FixAt(symbols, typed, i, d);
    assert Works(ok, symbols, typed, i, d);
    assert IsFixAt(ok, symbols, typed, i, |symbols|, f);
    FixesUpToExact(ok, symbols, typed, |typed|, f);
  }

  /**
   The suggestions are exactly the passing addresses one character away: whatever the
   reader meant is in the list, and nothing else is.
   */
  lemma FixesAreExact(sha: Hash, typed: string, meant: string)
    ensures Suggested(FixesUpTo(Checker(sha), ALPHABET, typed, |typed|), meant)
       <==> (Passes(sha, meant) && exists i: nat :: OneSlip(meant, typed, i))
  {
    var ok, symbols := Checker(sha), ALPHABET;
    if Suggested(FixesUpTo(ok, symbols, typed, |typed|), meant) {
      SuggestedIsSlip(ok, symbols, typed, meant);
    }
    if Passes(sha, meant) {
      if i: nat :| OneSlip(meant, typed, i) {
        PassingIsReadable(sha, meant);
        SlipIsSuggested(ok, symbols, typed, meant, i);
      }
    }
  }

  lemma PassingIsReadable(sha: Hash, s: string)
    requires Passes(sha, s)
    ensures Readable(s)
  {}

  // ------------------------------------------------------------------ what a suggestion says

  /** Each suggestion says where, counted from one, and which character for which: it passes with that one change. */
  lemma FixesSayWhat(sha: Hash, typed: string, f: Fix)
    requires f in FixesUpTo(Checker(sha), ALPHABET, typed, |typed|)
    ensures 1 <= f.position <= |typed| && typed[f.position - 1] == f.was != f.now && f.now in ALPHABET
    ensures f.candidate == typed[f.position - 1 := f.now] && Passes(sha, f.candidate)
  {
    hide *;
    FixSays(Checker(sha), ALPHABET, typed, f);
    CheckerIs(sha, f.candidate);
  }

  lemma CheckerIs(sha: Hash, s: string)
    ensures Checker(sha)(s) <==> Passes(sha, s)
  {
    hide Passes;
  }

  lemma FixSays(ok: string -> bool, symbols: string, typed: string, f: Fix)
    requires f in FixesUpTo(ok, symbols, typed, |typed|)
    ensures 1 <= f.position <= |typed| && typed[f.position - 1] == f.was != f.now && f.now in symbols
    ensures f.candidate == typed[f.position - 1 := f.now] && ok(f.candidate)
  {
    FixesUpToExact(ok, symbols, typed, |typed|, f);
    hide FixesUpTo;
    var i: nat :| i < |typed| && IsFixAt(ok, symbols, typed, i, |symbols|, f);
  }

  /** Earlier positions first, and at one position the symbols in alphabet order. */
  predicate Before(f: Fix, g: Fix) { f.position < g.position || (f.position == g.position && f.now < g.now) }

  predicate Ordered(fixes: seq<Fix>) { forall i, j :: 0 <= i < j < |fixes| ==> Before(fixes[i], fixes[j]) }

  predicate Rising(symbols: string) { forall i, j :: 0 <= i < j < |symbols| ==> symbols[i] < symbols[j] }

  lemma {:induction false} FixesAtOrdered(ok: string -> bool, symbols: string, bad: string, i: nat, d: nat)
    requires i < |bad| && d <= |symbols| && Rising(symbols)
    ensures Ordered(FixesAt(ok, symbols, bad, i, d))
  {
    if d > 0 {
      var before := FixesAt(ok, symbols, bad, i, d - 1);
      FixesAtOrdered(ok, symbols, bad, i, d - 1);
      forall k | 0 <= k < |before|
        ensures before[k].position == i + 1
        ensures exists e :: 0 <= e < d - 1 && before[k].now == symbols[e]
      {
        FixesAtExact(ok, symbols, bad, i, d - 1, before[k]);
      }
    }
  }

  lemma {:induction false} FixesUpToOrdered(ok: string -> bool, symbols: string, bad: string, n: nat)
    requires n <= |bad| && Rising(symbols)
    ensures Ordered(FixesUpTo(ok, symbols, bad, n))
    ensures forall k :: 0 <= k < |FixesUpTo(ok, symbols, bad, n)| ==> FixesUpTo(ok, symbols, bad, n)[k].position <= n
  {
    if n > 0 {
      FixesUpToOrdered(ok, symbols, bad, n - 1);
      FixesAtOrdered(ok, symbols, bad, n - 1, |symbols|);
      var here := FixesAt(ok, symbols, bad, n - 1, |symbols|);
      forall k | 0 <= k < |here| ensures here[k].position == n {
        FixesAtExact(ok, symbols, bad, n - 1, |symbols|, here[k]);
      }
      hide FixesAt;
    }
  }

  /** The suggestions come by position, then by symbol, none twice. */
  lemma FixesAreOrdered(sha: Hash, typed: string)
    ensures Ordered(FixesUpTo(Checker(sha), ALPHABET, typed, |typed|))
  {
    hide *;
    AlphabetIsRising();
    FixesUpToOrdered(Checker(sha), ALPHABET, typed, |typed|);
  }

  lemma AlphabetIsRising()
    ensures Rising(ALPHABET)
  {
    forall i, j | 0 <= i < j < |ALPHABET| ensures ALPHABET[i] < ALPHABET[j] { AlphabetSorted(i, j); }
  }
}
