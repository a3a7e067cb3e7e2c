/** The lines of a page, sorted by the tests the block parser applies to them. */
module LineKinds {
  import opened Text

  predicate IsFence(s: string) { "```" <= s }

  predicate AllAre(s: string, c: char) { forall i :: 0 <= i < |s| ==> s[i] == c }

  /** Three or more dashes, or stars, and white space around them. */
  predicate IsRule(s: string) {
    var t := Strip(s);
    |t| >= 3 && (AllAre(t, '-') || AllAre(t, '*'))
  }

  function Hashes(s: string): (n: nat)
    ensures n <= |s|
  {
    if s != "" && s[0] == '#' then 1 + Hashes(s[1..]) else 0
  }

  /** One to four hashes and white space. */
  predicate IsHeading(s: string) {
    var n := Hashes(s);
    1 <= n <= 4 && n < |s| && IsSpace(s[n])
  }

  predicate IsBar(s: string) {
    var t := Strip(s);
    t != "" && t[0] == '|'
  }

  /** The line under a table's head: bars, dashes, colons and white space between two bars. */
  predicate IsSeparator(s: string) {
    var t := Strip(s);
    |t| >= 3 && t[0] == '|' && t[|t| - 1] == '|'
    && forall i :: 0 <= i < |t| ==> t[i] == '|' || t[i] == '-' || t[i] == ':' || IsSpace(t[i])
  }

  predicate IsQuote(s: string) {
    var t := LStrip(s);
    t != "" && t[0] == '>'
  }

  /** The line with its quote mark, and one white space after it, taken off. */
  function Unquote(s: string): (r: string)
    requires IsQuote(s)
    ensures |r| < |s|
  {
    var t := LStrip(s)[1..];
    if t != "" && IsSpace(t[0]) then t[1..] else t
  }

  function Digits(s: string): (n: nat)
    ensures n <= |s|
  {
    if s != "" && '0' <= s[0] <= '9' then 1 + Digits(s[1..]) else 0
  }

  predicate IsNumbered(t: string) {
    var d := Digits(t);
    d >= 1 && d + 1 < |t| && t[d] == '.' && IsSpace(t[d + 1])
  }

  predicate IsBulleted(t: string) { |t| >= 2 && (t[0] == '-' || t[0] == '*' || t[0] == '+') && IsSpace(t[1]) }

  /** A bullet or a number with a dot, then white space, at any indent. */
  predicate IsItem(s: string) { IsBulleted(LStrip(s)) || IsNumbered(LStrip(s)) }

  function ItemText(s: string): string
    requires IsItem(s)
  {
    var t := LStrip(s);
    if IsBulleted(t) then LStrip(t[1..]) else LStrip(t[Digits(t) + 1..])
  }

  function Spaces(s: string): (n: nat)
    ensures n <= |s|
  {
    if s == "" || s[0] != ' ' then 0 else 1 + Spaces(s[1..])
  }

  predicate FourSpaces(s: string) { Spaces(s) >= 4 }

  /** Four spaces or more, then text that is not a list marker: code. */
  predicate IsIndented(s: string) {
    var n := Spaces(s);
    n >= 4 && n < |s| && !IsSpace(s[n]) && !IsItem(s)
  }

  /** Two or more white spaces, then text: it goes on with the list item above. */
  predicate IsContinuation(s: string) { LStrip(s) != "" && |s| - |LStrip(s)| >= 2 }

  /** What ends a paragraph. */
  predicate EndsParagraph(s: string) {
    IsBlank(s) || "#" <= s || IsFence(s) || "|" <= s || ">" <= s || IsItem(s) || IsRule(s)
  }

  /** A line with every quote mark in front of it taken off. */
  function Bare(s: string): string
    decreases |s|
  {
    if IsQuote(s) then Bare(Unquote(s)) else s
  }

  /** A blank line is nothing else. */
  lemma BlankIsNothingElse(s: string)
    requires IsBlank(s)
    ensures !IsRule(s) && !IsBar(s) && !IsQuote(s) && !IsContinuation(s) && !IsIndented(s) && !IsItem(s)
  {
    hide IsSpace, LStrip;
    BlankStrips(s);
    LStripIs(s);
  }

  lemma BlankStrips(s: string)
    requires IsBlank(s)
    ensures LStrip(s) == ""
  {
    hide IsSpace, LStrip, RStrip;
    LStripIs(s);
    RStripIs(LStrip(s));
  }

  /** A rule is no quote. */
  lemma RuleStart(s: string)
    requires IsRule(s)
    ensures !IsQuote(s)
  {
    hide IsSpace, LStrip, RStrip;
    var t, u := LStrip(s), Strip(s);
    RStripIs(t);
    assert u <= t && u[0] == t[0];
  }

  // ------------------------------------------------------------------ what is taken off a line

  /** The hashes, digits and blanks counted at the front of a line are all there are. */
  lemma {:induction false} CountsAre(s: string)
    ensures var n := Hashes(s); (forall i :: 0 <= i < n ==> s[i] == '#') && (n < |s| ==> s[n] != '#')
    ensures var n := Digits(s); (forall i :: 0 <= i < n ==> '0' <= s[i] <= '9') && (n < |s| ==> !('0' <= s[n] <= '9'))
    ensures var n := Spaces(s); (forall i :: 0 <= i < n ==> s[i] == ' ') && (n < |s| ==> s[n] != ' ')
  {
    if s != "" { CountsAre(s[1..]); }
  }

  predicate AllSpaces(t: string) { forall i :: 0 <= i < |t| ==> IsSpace(t[i]) }

  /** A bullet, or a number and a dot. */
  predicate IsMarker(t: string) {
    t in {"-", "*", "+"}
    || (|t| >= 2 && t[|t| - 1] == '.' && forall i :: 0 <= i < |t| - 1 ==> '0' <= t[i] <= '9')
  }

  lemma NoSpaces()
    ensures forall c :: '!' <= c <= '~' ==> !IsSpace(c)
  {}

  lemma Indent(s: string) returns (indent: string)
    ensures s == indent + LStrip(s) && AllSpaces(indent)
    ensures |indent| == |s| - |LStrip(s)|
  {
    hide IsSpace, LStrip;
    LStripIs(s);
    var k := |s| - |LStrip(s)|;
    indent := s[..k];
    assert s == s[..k] + s[k..];
  }

  /** How long the marker of an item is. */
  function MarkerLength(t: string): nat { if IsBulleted(t) then 1 else Digits(t) + 1 }

  lemma MarkerIs(t: string)
    requires IsBulleted(t) || IsNumbered(t)
    ensures var k := MarkerLength(t); k < |t| && IsMarker(t[..k]) && IsSpace(t[k])
  {
    hide IsSpace;
    CountsAre(t);
    if IsBulleted(t) { assert t[..1] == [t[0]]; }
  }

  /** An item is an indent, a marker, a gap and its text: nothing but white space is lost besides the marker. */
  lemma ItemTextIs(s: string) returns (indent: string, marker: string, gap: string)
    requires IsItem(s)
    ensures s == indent + marker + gap + ItemText(s)
    ensures AllSpaces(indent) && IsMarker(marker) && gap != "" && AllSpaces(gap)
    ensures ItemText(s) != "" ==> !IsSpace(ItemText(s)[0])
  {
    hide *;
    var t := LStrip(s);
    indent := Indent(s);
    ItemParts(s);
    MarkerIs(t);
    var k := MarkerLength(t);
    marker := t[..k];
    gap := Indent(t[k..]);
    assert t[k..][0] == t[k];
    GapIsSome(t[k..]);
    StrippedStarts(t[k..]);
    assert t == marker + t[k..];
    Joined(indent, marker, gap, ItemText(s));
  }

  lemma Joined(a: string, b: string, c: string, d: string)
    ensures a + (b + (c + d)) == a + b + c + d
  {}

  lemma ItemParts(s: string)
    requires IsItem(s)
    ensures var t := LStrip(s);
            && (IsBulleted(t) || IsNumbered(t))
            && MarkerLength(t) <= |t| && ItemText(s) == LStrip(t[MarkerLength(t)..])
  {
    hide IsSpace, IsBulleted, IsNumbered, LStrip, IsMarker, Digits;
    MarkerIs(LStrip(s));
  }

  lemma GapIsSome(t: string)
    requires t != "" && IsSpace(t[0])
    ensures |LStrip(t)| < |t|
  {
    hide IsSpace;
  }

  lemma StrippedStarts(t: string)
    ensures LStrip(t) != "" ==> !IsSpace(LStrip(t)[0])
  {
    hide IsSpace;
  }

  /** Every such line is an item. */
  lemma ItemWhenMarked(indent: string, marker: string, gap: string, text: string)
    requires AllSpaces(indent) && IsMarker(marker) && gap != "" && AllSpaces(gap)
    ensures IsItem(indent + marker + gap + text)
  {
    var t := marker + gap + text;
    NoSpaces();
    hide IsSpace;
    assert indent + marker + gap + text == indent + t;
    StripIndent(indent, t);
    assert t[|marker|] == gap[0];
    MarkedIs(t, marker);
  }

  lemma MarkedIs(t: string, marker: string)
    requires IsMarker(marker) && marker <= t && |marker| < |t| && IsSpace(t[|marker|])
    ensures IsBulleted(t) || IsNumbered(t)
  {
    hide IsSpace;
    if marker in {"-", "*", "+"} {
      assert t[0] == marker[0];
    } else {
      assert forall i :: 0 <= i < |marker| ==> t[i] == marker[i];
      CountsAre(t);
      assert t[|marker| - 1] == '.';
    }
  }

  lemma {:induction false} StripIndent(indent: string, t: string)
    requires AllSpaces(indent) && t != "" && !IsSpace(t[0])
    ensures LStrip(indent + t) == t
  {
    hide IsSpace;
    if indent == "" {
      assert indent + t == t;
    } else {
      assert (indent + t)[1..] == indent[1..] + t;
      StripIndent(indent[1..], t);
    }
  }

  /** A quoted line is an indent, the mark, at most one white space, and what is left. */
  lemma UnquoteIs(s: string) returns (indent: string, gap: string)
    requires IsQuote(s)
    ensures s == indent + ">" + gap + Unquote(s)
    ensures AllSpaces(indent) && AllSpaces(gap) && |gap| <= 1
    ensures gap == "" && Unquote(s) != "" ==> !IsSpace(Unquote(s)[0])
  {
    hide *;
    var t := LStrip(s);
    indent := Indent(s);
    UnquoteParts(s);
    gap := QuoteGap(t[1..]);
    assert t == ">" + t[1..];
    Joined(indent, ">", gap, Unquote(s));
  }

  lemma UnquoteParts(s: string)
    requires IsQuote(s)
    ensures var t := LStrip(s); t != "" && t[0] == '>'
    ensures var u := LStrip(s)[1..]; Unquote(s) == if u != "" && IsSpace(u[0]) then u[1..] else u
  {
    hide IsSpace, LStrip;
  }

  lemma QuoteGap(t: string) returns (gap: string)
    ensures t == gap + if t != "" && IsSpace(t[0]) then t[1..] else t
    ensures AllSpaces(gap) && |gap| <= 1 && (gap == "" && t != "" ==> !IsSpace(t[0]))
  {
    hide IsSpace;
    gap := if t != "" && IsSpace(t[0]) then t[..1] else "";
  }

  // ------------------------------------------------------------------ which kinds can meet

  lemma StripNothing(s: string)
    requires s != "" && !IsSpace(s[0])
    ensures LStrip(s) == s
  {
    hide IsSpace;
  }

  lemma FenceStarts(s: string)
    requires IsFence(s)
    ensures LStrip(s) == s && s != "" && s[0] == '`'
  {
    hide IsSpace, LStrip;
    assert s[0] == "```"[0];
    NoSpaces();
    StripNothing(s);
  }

  lemma HeadingStarts(s: string)
    requires IsHeading(s)
    ensures LStrip(s) == s && s != "" && s[0] == '#'
  {
    hide IsSpace, LStrip;
    NoSpaces();
    StripNothing(s);
  }

  lemma CodeStarts(s: string)
    requires IsIndented(s)
    ensures s != "" && s[0] == ' ' && LStrip(s) != "" && !IsItem(s)
  {
    hide IsSpace, LStrip, IsItem;
    var n := Spaces(s);
    LStripIs(s);
    assert IsSpace(s[n]) || LStrip(s) != "";
  }

  lemma BarStarts(s: string)
    requires IsBar(s)
    ensures LStrip(s) != "" && LStrip(s)[0] == '|'
  {
    hide IsSpace, LStrip, RStrip;
    RStripIs(LStrip(s));
  }

  lemma RuleIsNoItem(s: string)
    requires IsRule(s)
    ensures !IsItem(s) && LStrip(s) != "" && (LStrip(s)[0] == '-' || LStrip(s)[0] == '*')
  {
    hide IsSpace, LStrip, RStrip;
    NoSpaces();
    var t, u := LStrip(s), Strip(s);
    RStripIs(t);
    assert u <= t && u[0] == t[0] && u[1] == t[1];
  }

  lemma ItemStarts(s: string)
    requires IsItem(s)
    ensures LStrip(s) != "" && LStrip(s)[0] !in {'`', '#', '|', '>'}
  {
    hide IsSpace;
  }

  /** Fences, rules, headings, bars, quotes and items exclude one another, and so do blank lines: only code overlaps. */
  lemma KindsAreApart(s: string)
    ensures IsFence(s) ==> !IsRule(s) && !IsHeading(s) && !IsBar(s) && !IsQuote(s) && !IsIndented(s) && !IsItem(s)
    ensures IsRule(s) ==> !IsHeading(s) && !IsBar(s) && !IsQuote(s) && !IsItem(s)
    ensures IsHeading(s) ==> !IsBar(s) && !IsQuote(s) && !IsIndented(s) && !IsItem(s)
    ensures IsBar(s) ==> !IsQuote(s) && !IsItem(s)
    ensures IsQuote(s) || IsIndented(s) ==> !IsItem(s)
    ensures IsBlank(s) ==> !IsFence(s) && !IsRule(s) && !IsHeading(s) && !IsBar(s) && !IsQuote(s) && !IsIndented(s)
                           && !IsItem(s)
  {
    hide *;
    if IsFence(s) { FenceStarts(s); }
    if IsHeading(s) { HeadingStarts(s); }
    if IsIndented(s) { CodeStarts(s); }
    if IsBar(s) { BarStarts(s); }
    if IsQuote(s) { UnquoteParts(s); }
    if IsRule(s) { RuleIsNoItem(s); }
    if IsItem(s) { ItemStarts(s); }
    if IsBlank(s) {
      BlankIsNothingElse(s);
      BlankStrips(s);
    }
  }
}
