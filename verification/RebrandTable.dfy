/**
 The two tables of the rebranding: the English phrases, in the order they are applied,
 and the spellings in other scripts, written in code points.
 */
module RebrandTable {
  import opened Rebrand
  import opened Text

  /** The URI forms, before the bare word: a scheme has to stay a scheme. */
  const URI_PHRASES: seq<Phrase> := [
    Phrase("", Lower, ":BC1", "wam:wam1"),
    Phrase("", Lower, "://", "wam://"),
    Phrase("", Lower, ":", "wam:")
  ]

  /** The word phrases come after; none of them begins inside the new scheme. */
  type WordPhrase = ph: Phrase | From(ph)[0] !in SCHEME witness Phrase("", Lower, "", "")

  const SCHEME := "wam:"

  const WORD_PHRASES: seq<WordPhrase> := [
    Phrase("the ", Lower, " network", "the WAM network"),
    Phrase("the ", Title, " network", "the WAM network"),
    Phrase("", Title, " network", "WAM network"),
    Phrase("", Lower, " network", "WAM network"),
    Phrase("", Title, " address", "WAM address"),
    Phrase("", Lower, " address", "WAM address"),
    Phrase("", Title, " Core", "WAM Coin"),
    Phrase("spend ", Lower, "s", "spend WAM"),
    Phrase("", Lower, "s", "WAM"),
    Phrase("", Title, "s", "WAM"),
    Phrase("", Upper, "S", "WAM"),
    Phrase("", Upper, "", "WAM"),
    Phrase("", Title, "", "WAM"),
    Phrase("", Lower, "", "WAM")
  ]

  const PHRASES := URI_PHRASES + WORD_PHRASES

  /**
   Fit for the table: no letter of the new name in any class, never empty, and no match
   that begins where the new scheme stands.
   */
  predicate Usable(p: Pattern) {
    Safe(p) && HeadFree(p, 'w') && HeadFree(p, 'a') && HeadFree(p, 'm') && HeadFree(p, ':')
  }

  type Fit = p: Pattern | Usable(p) witness One("b", End)

  const CYRILLIC: Fit :=
    One("\U{0411}\U{0431}", One("\U{0418}\U{0438}\U{0406}\U{0456}", One("\U{0422}\U{0442}", One("\U{041A}\U{043A}",
    CYRILLIC_END))))

  const CYRILLIC_END: Quiet :=
    One("\U{041E}\U{043E}", Maybe("\U{0419}\U{0439}\U{0418}\U{0438}\U{0407}\U{0457}\U{0406}\U{0456}",
    One("\U{041D}\U{043D}", End)))

  const BITKOIN: Fit :=
    One("Bb", One("Ii", One("Tt", One("Kk", One("Oo", One("Ii", One("Nn", End)))))))

  const BITMONO: Fit :=
    One("Bb", One("i", One("t", One("m", One("o", One("n", Maybe("o", End)))))))

  const BICOIN: Fit :=
    One("Bb", One("i", One("c", One("o", One("i", One("n", End))))))

  const ARABIC: Fit :=
    Then([AnyOf("\U{0627}"), AnyOf("\U{0644}")], true, One("\U{0628}", Maybe("\U{064A}\U{06CC}", One("\U{062A}",
    Maybe("\U{200C}", ARABIC_END)))))

  const ARABIC_END: Quiet :=
    Then([Space], true, One("\U{0643}\U{06A9}", One("\U{0648}\U{06C6}", Maybe("\U{064A}\U{06CC}",
    One("\U{064A}\U{0646}", Maybe("\U{0646}", End))))))

  const URDU: Fit :=
    One("\U{0628}", One("\U{0679}", Then([Space], true, One("\U{0643}\U{06A9}", URDU_END))))

  const URDU_END: Quiet :=
    One("\U{0648}", Maybe("\U{0627}", One("\U{0626}\U{064A}", One("\U{0646}", End))))

  const HEBREW: Fit :=
    One("\U{05D1}", One("\U{05D9}", One("\U{05D8}", One("\U{05E7}", HEBREW_END))))

  const HEBREW_END: Quiet :=
    One("\U{05D5}", Maybe("\U{05D9}", One("\U{05D9}", One("\U{05DF}", End))))

  const GREEK: Fit :=
    One("\U{039C}\U{03BC}", One("\U{03C0}", One("\U{03AF}", One("\U{03C4}", GREEK_END))))

  const GREEK_END: Quiet :=
    One("\U{03BA}", One("\U{03BF}", Maybe("\U{03B9}", One("\U{03BD}\U{03CA}", Maybe("\U{03BD}", End)))))

  const ARMENIAN: Fit :=
    One("\U{0532}\U{0562}", One("\U{056B}\U{056B}", One("\U{0569}\U{057F}", One("\U{0584}\U{056F}", One("\U{0578}",
    One("\U{056B}\U{056B}", One("\U{0576}", End)))))))

  const GEORGIAN: Fit :=
    One("\U{10D1}", One("\U{10D8}", One("\U{10E2}", One("\U{10D9}", One("\U{10DD}", One("\U{10D8}", One("\U{10DC}",
    End)))))))

  const AMHARIC: Fit :=
    One("\U{1262}", One("\U{1275}", One("\U{12AE}", One("\U{12ED}", One("\U{1295}", End)))))

  const THAI: Fit :=
    One("\U{0E1A}", One("\U{0E34}", One("\U{0E15}\U{0E17}", One("\U{0E04}", One("\U{0E2D}", One("\U{0E22}",
    End))))))

  const HAN: Fit :=
    One("\U{6BD4}", One("\U{7279}", One("\U{5E01}\U{5E63}", End)))

  const KANA: Fit :=
    One("\U{30D3}", One("\U{30C3}", One("\U{30C8}", One("\U{30B3}", One("\U{30A4}", One("\U{30F3}", End))))))

  const HANGUL: Fit :=
    One("\U{BE44}", One("\U{D2B8}", One("\U{CF54}", One("\U{C778}", End))))

  const DEVANAGARI: Fit :=
    One("\U{092C}", One("\U{093F}", One("\U{091F}", One("\U{0915}", DEVANAGARI_END))))

  const DEVANAGARI_END: Quiet :=
    Maybe("\U{0949}\U{094B}\U{094C}", Maybe("\U{0907}\U{093E}\U{0940}\U{0945}", Maybe("\U{0907}", One("\U{0928}",
    End))))

  const BENGALI: Fit :=
    One("\U{09AC}", One("\U{09BF}", One("\U{099F}", One("\U{0995}", BENGALI_END))))

  const BENGALI_END: Quiet :=
    One("\U{09AF}", One("\U{09BC}", Maybe("\U{09C7}", Maybe("\U{09BF}", One("\U{09A8}", End)))))

  const GUJARATI: Fit :=
    One("\U{0AAC}", One("\U{0ABF}", One("\U{0A9F}", One("\U{0A95}", One("\U{0ACB}", One("\U{0A88}\U{0A87}",
    One("\U{0AA8}", End)))))))

  const GURMUKHI: Fit :=
    One("\U{0A2C}", One("\U{0A3F}", One("\U{0A1F}", One("\U{0A15}", GURMUKHI_END))))

  const GURMUKHI_END: Quiet :=
    One("\U{0A41}\U{0A4B}", Maybe("\U{0A06}", One("\U{0A07}\U{0A3F}", One("\U{0A28}", End))))

  const ORIYA: Fit :=
    One("\U{0B2C}", One("\U{0B3F}", One("\U{0B1F}", One("\U{0B15}", One("\U{0B07}", One("\U{0B28}", End))))))

  const KANNADA: Fit :=
    One("\U{0CAC}", One("\U{0CBF}", One("\U{0C9F}", One("\U{0CCD}", Maybe("\U{200C}", KANNADA_END)))))

  const KANNADA_END: Quiet :=
    One("\U{0C95}", One("\U{0CBE}", One("\U{0CAF}", One("\U{0CBF}", One("\U{0CA8}", One("\U{0CCD}", End))))))

  const TELUGU: Fit :=
    One("\U{0C2C}", One("\U{0C3F}", One("\U{0C1F}", One("\U{0C4D}", Maybe("\U{200C}", TELUGU_END)))))

  const TELUGU_END: Quiet :=
    One("\U{0C15}", One("\U{0C3E}", One("\U{0C2F}", One("\U{0C3F}", One("\U{0C28}", One("\U{0C4D}", End))))))

  const TAMIL: Fit :=
    One("\U{0BAA}", One("\U{0BBF}", One("\U{0B9F}", One("\U{0BCD}", Maybe("\U{200C}", TAMIL_END)))))

  const TAMIL_END: Quiet :=
    One("\U{0B95}", One("\U{0BCB}\U{0BBE}", One("\U{0BAF}", One("\U{0BBF}\U{0BC0}", One("\U{0BA9}", One("\U{0BCD}",
    End))))))

  const MALAYALAM: Fit :=
    One("\U{0D2C}", One("\U{0D3F}", One("\U{0D31}", One("\U{0D4D}", One("\U{0D31}", MALAYALAM_END)))))

  const MALAYALAM_END: Quiet :=
    One("\U{0D4D}", Maybe("\U{200C}", One("\U{0D15}", One("\U{0D4B}", One("\U{0D2F}", One("\U{0D3F}",
    One("\U{0D7B}\U{0D28}", End)))))))

  const SINHALA: Fit :=
    One("\U{0DB6}", One("\U{0DD2}", One("\U{0DA7}", One("\U{0DCA}", Maybe("\U{200C}", SINHALA_END)))))

  const SINHALA_END: Quiet :=
    One("\U{0D9A}", One("\U{0DDC}", One("\U{0DBA}", One("\U{0DD2}", One("\U{0DB1}", One("\U{0DCA}", End))))))

  const SCRIPT_NAMES: seq<Fit> := [
    CYRILLIC, BITKOIN, BITMONO, BICOIN, ARABIC, URDU, HEBREW, GREEK,
    ARMENIAN, GEORGIAN, AMHARIC, THAI, HAN, KANA, HANGUL, DEVANAGARI,
    BENGALI, GUJARATI, GURMUKHI, ORIYA, KANNADA, TELUGU, TAMIL, MALAYALAM,
    SINHALA
  ]

  lemma TableIsSafe()
    ensures AllSafe(SCRIPT_NAMES) && AllNeed(SCRIPT_NAMES)
  {}

  /** Whatever the text, running the script a second time changes nothing. */
  lemma ScriptIdempotent(s: string)
    ensures AllNeed(SCRIPT_NAMES)
    ensures Rewritten(PHRASES, SCRIPT_NAMES, Rewritten(PHRASES, SCRIPT_NAMES, s))
         == Rewritten(PHRASES, SCRIPT_NAMES, s)
  {
    TableIsSafe();
    RewriteIdempotent(PHRASES, SCRIPT_NAMES, s);
  }

  // ------------------------------------------------------------------ the order of the phrases

  lemma {:induction false} ReplaceAllInTwo(a: seq<Phrase>, b: seq<Phrase>, s: string)
    ensures ReplaceAll(a + b, s) == ReplaceAll(b, ReplaceAll(a, s))
  {
    if b == [] {
      assert a + b == a;
    } else {
      var n := |b| - 1;
      assert (a + b)[..|a| + n] == a + b[..n];
      ReplaceAllInTwo(a, b[..n], s);
    }
  }

  lemma ReplaceKeepsScheme(from: string, to: string, x: string)
    requires from != "" && from[0] !in SCHEME && SCHEME <= x
    ensures SCHEME <= Replace(from, to, x)
  {
    assert x == SCHEME + x[4..];
    ReplaceKeepsHead(from, to, SCHEME, x[4..]);
  }

  /** A phrase that begins with a b either makes the scheme or leaves the old one standing. */
  lemma OneUriPhrase(from: string, to: string, x: string)
    requires from != "" && from[0] == 'b' && SCHEME <= to
    requires "bitcoin:" <= x || SCHEME <= x
    ensures SCHEME <= Replace(from, to, x) || ("bitcoin:" <= Replace(from, to, x) && !(from <= x))
  {
    if SCHEME <= x {
      ReplaceKeepsScheme(from, to, x);
    } else if from <= x {
      assert x == from + x[|from|..];
      ReplaceAtFront(from, to, x[|from|..]);
    } else {
      var rest := x[8..];
      assert x[1..] == "itcoin:" + rest;
      ReplaceKeepsHead(from, to, "itcoin:", rest);
      assert Replace(from, to, x) == "b" + ("itcoin:" + Replace(from, to, rest));
    }
  }

  lemma UriPhrasesMakeScheme(x: string)
    requires "bitcoin:" <= x
    ensures SCHEME <= ReplaceAll(URI_PHRASES, x)
  {
    var a, b, c := URI_PHRASES[0], URI_PHRASES[1], URI_PHRASES[2];
    var y := Replace(From(a), a.to, x);
    var z := Replace(From(b), b.to, y);
    OneUriPhrase(From(a), a.to, x);
    OneUriPhrase(From(b), b.to, y);
    OneUriPhrase(From(c), c.to, z);
    assert From(c) == "bitcoin:";
    InThree(a, b, c, x);
  }

  lemma InThree(a: Phrase, b: Phrase, c: Phrase, x: string)
    ensures ReplaceAll([a, b, c], x)
         == Replace(From(c), c.to, Replace(From(b), b.to, Replace(From(a), a.to, x)))
  {
    var two, one := [a, b], [a];
    assert [a, b, c][..2] == two && two[..1] == one && one[..0] == [];
    assert ReplaceAll(one, x) == Replace(From(a), a.to, x);
    assert ReplaceAll(two, x) == Replace(From(b), b.to, ReplaceAll(one, x));
  }

  lemma {:induction false} WordsKeepScheme(phrases: seq<WordPhrase>, x: string)
    requires SCHEME <= x
    ensures SCHEME <= ReplaceAll(phrases, x)
  {
    if phrases != [] {
      var n := |phrases| - 1;
      WordsKeepScheme(phrases[..n], x);
      ReplaceKeepsScheme(From(phrases[n]), phrases[n].to, ReplaceAll(phrases[..n], x));
    }
  }

  lemma SubKeepsScheme(p: Pattern, x: string)
    requires Usable(p) && SCHEME <= x
    ensures SCHEME <= Sub(p, x)
  {
    assert x == SCHEME + x[4..];
    forall i | 0 <= i < 4 ensures HeadFree(p, SCHEME[i]) {}
    SubKeepsHead(p, SCHEME, x[4..]);
  }

  lemma {:induction false} SpellingsKeepScheme(patterns: seq<Fit>, x: string)
    requires SCHEME <= x && AllNeed(patterns)
    ensures SCHEME <= SubAll(patterns, x)
  {
    if patterns != [] {
      var n := |patterns| - 1;
      SpellingsKeepScheme(patterns[..n], x);
      SubKeepsScheme(patterns[n], SubAll(patterns[..n], x));
    }
  }

  lemma AnyIsUsable()
    ensures Usable(BITCOIN_ANY)
  {
    AnyIsSafe();
  }

  /**
   Why the order matters: a payment URI stays one. Whatever follows the old scheme, the
   text comes out beginning with the new scheme, never with the bare name and a colon.
   */
  lemma SchemeIsKept(rest: string)
    ensures AllNeed(SCRIPT_NAMES)
    ensures SCHEME <= Rewritten(PHRASES, SCRIPT_NAMES, "bitcoin:" + rest)
  {
    TableIsSafe();
    var x := "bitcoin:" + rest;
    UriPhrasesMakeScheme(x);
    ReplaceAllInTwo(URI_PHRASES, WORD_PHRASES, x);
    var y := ReplaceAll(URI_PHRASES, x);
    WordsKeepScheme(WORD_PHRASES, y);
    AnyIsUsable();
    SubKeepsScheme(BITCOIN_ANY, ReplaceAll(WORD_PHRASES, y));
    SpellingsKeepScheme(SCRIPT_NAMES, Sub(BITCOIN_ANY, ReplaceAll(WORD_PHRASES, y)));
  }
}
