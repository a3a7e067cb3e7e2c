/**
 The block parser of the page generator: lines in, blocks out, and the author's marks on
 quoted lines carried onto the blocks they end up in.
 */
module Pages {
  import opened LineKinds
  import opened Pieces
  import opened Sets
  import opened Text

  datatype Kind = Fence | Heading | Table | Indented | Items | Paragraph

  /** A block covers the lines from `start` up to `end`. Rules and quotes carry no mark themselves. */
  datatype Block =
    | Leaf(kind: Kind, start: nat, end: nat, marked: bool, body: seq<string>)
    | Rule(start: nat)
    | Quote(start: nat, end: nat, inner: seq<Block>)

  function EndOf(b: Block): nat { if b.Rule? then b.start + 1 else b.end }

  /** The tests in the order they are tried. */
  datatype Opening = OpensLeaf(kind: Kind) | OpensRule | OpensQuote | Blank

  function Opens(lines: seq<string>, i: nat): Opening
    requires i < |lines|
  {
    var s := lines[i];
    if IsFence(s) then OpensLeaf(Fence)
    else if IsRule(s) then OpensRule
    else if IsHeading(s) then OpensLeaf(Heading)
    else if IsBar(s) && i + 1 < |lines| && IsSeparator(lines[i + 1]) then OpensLeaf(Table)
    else if IsQuote(s) then OpensQuote
    else if IsIndented(s) then OpensLeaf(Indented)
    else if IsItem(s) then OpensLeaf(Items)
    else if IsBlank(s) then Blank
    else OpensLeaf(Paragraph)
  }

  // ------------------------------------------------------------------ the extent of each kind

  /** All lines from `i` up to `end` are of a kind, and the one at `end`, if there is one, is not. */
  predicate Stretch(lines: seq<string>, kind: string -> bool, i: nat, end: nat) {
    && i <= end <= |lines|
    && (forall n :: i <= n < end ==> kind(lines[n]))
    && (end < |lines| ==> !kind(lines[end]))
  }

  /** The fence that closes, or one past the last line when none does. */
  predicate FenceExtent(lines: seq<string>, start: nat, end: nat) {
    start < end && Stretch(lines, s => !IsFence(s), start + 1, end - 1)
  }

  /** The next line that is not blank, from `i` on, is indented code. */
  predicate Resumes(lines: seq<string>, i: nat)
    decreases |lines| - i
  {
    i < |lines| && if IsBlank(lines[i]) then Resumes(lines, i + 1) else IsIndented(lines[i])
  }

  /** A line that goes on with indented code: four spaces, or blank with more code after it. */
  predicate GoesOn(lines: seq<string>, i: nat) {
    i < |lines| && (FourSpaces(lines[i]) || (IsBlank(lines[i]) && Resumes(lines, i)))
  }

  predicate IndentedExtent(lines: seq<string>, start: nat, end: nat) {
    && start < end <= |lines|
    && (forall n :: start <= n < end ==> GoesOn(lines, n))
    && !GoesOn(lines, end)
  }

  /** A blank line without its four spaces, or one further down the same gap. */
  predicate InGap(lines: seq<string>, n: nat)
    requires n < |lines|
  {
    IsBlank(lines[n]) && (!FourSpaces(lines[n]) || (n > 0 && InGap(lines, n - 1)))
  }

  /** Code lines lose four spaces; the lines of a gap become empty. */
  function Dedent(lines: seq<string>): (out: seq<string>)
    ensures |out| == |lines|
  {
    if lines == [] then [] else
    var n := |lines| - 1;
    Dedent(lines[..n]) + [if InGap(lines, n) || !FourSpaces(lines[n]) then "" else lines[n][4..]]
  }

  /** `while buf and not buf[-1].strip(): buf.pop()` */
  function DropBlank(buf: seq<string>): seq<string> {
    if buf != [] && IsBlank(buf[|buf| - 1]) then DropBlank(buf[..|buf| - 1]) else buf
  }

  predicate InList(s: string) { IsItem(s) || IsContinuation(s) }

  /** The items: a marker starts one, any other line is added to the last. */
  function ItemsOf(lines: seq<string>): seq<string> {
    if lines == [] then [] else
    var before, s := ItemsOf(lines[..|lines| - 1]), lines[|lines| - 1];
    if IsItem(s) then before + [ItemText(s)]
    else if before == [] then []
    else before[|before| - 1 := before[|before| - 1] + " " + Strip(s)]
  }

  function UnquoteAll(lines: seq<string>): (out: seq<string>)
    requires forall i :: 0 <= i < |lines| ==> IsQuote(lines[i])
    ensures |out| == |lines|
    ensures forall i :: 0 <= i < |lines| ==> out[i] == Unquote(lines[i])
  {
    seq(|lines|, i requires 0 <= i < |lines| && IsQuote(lines[i]) => Unquote(lines[i]))
  }

  function Shift(marked: set<nat>, start: nat, end: nat): set<nat> {
    set n | n in marked && start <= n < end :: n - start
  }

  predicate AnyMarked(marked: set<nat>, start: nat, end: nat) { exists n :: n in marked && start <= n < end }

  /** What each kind of leaf covers, and what it holds. */
  predicate LeafOk(lines: seq<string>, b: Block)
    requires b.Leaf? && b.start < |lines|
  {
    var start, end := b.start, b.end;
    match b.kind
    case Fence => FenceExtent(lines, start, end) && b.body == lines[start + 1..end - 1]
    case Heading => end == start + 1 && b.body == [Strip(lines[start][Hashes(lines[start])..])]
    case Table =>
      start + 2 <= end && Stretch(lines, IsBar, start + 2, end)
      && b.body == [lines[start]] + lines[start + 2..end]
    case Indented => IndentedExtent(lines, start, end) && b.body == DropBlank(Dedent(lines[start..end]))
    case Items => start < end && Stretch(lines, InList, start, end) && b.body == ItemsOf(lines[start..end])
    case Paragraph =>
      start < end && Stretch(lines, s => !EndsParagraph(s), start + 1, end) && b.body == lines[start..end]
  }

  predicate QuoteOk(lines: seq<string>, start: nat, end: nat) { start < end && Stretch(lines, IsQuote, start, end) }

  function Inside(lines: seq<string>, start: nat, end: nat): seq<string>
    requires start <= end <= |lines| && forall n :: start <= n < end ==> IsQuote(lines[n])
  {
    UnquoteAll(lines[start..end])
  }

  predicate BlockOk(lines: seq<string>, marked: set<nat>, b: Block)
    decreases b
  {
    && b.start < |lines|
    && match b
       case Leaf(kind, start, end, mark, _) =>
         Opens(lines, start) == OpensLeaf(kind) && LeafOk(lines, b) && (mark <==> AnyMarked(marked, start, end))
       case Rule(start) => Opens(lines, start).OpensRule?
       case Quote(start, end, inner) =>
         && Opens(lines, start).OpensQuote?
         && QuoteOk(lines, start, end)
         && Rendered(Inside(lines, start, end), Shift(marked, start, end), inner, 0, end - start + 1)
  }

  /** Every line there is from `i` up to `end` opens nothing. */
  predicate AllBlank(lines: seq<string>, i: nat, end: nat) {
    forall n :: i <= n < end && n < |lines| ==> Opens(lines, n).Blank?
  }

  /** The blocks in order from line `i`, each right for its lines, and only blank lines between and up to `end`. */
  predicate Rendered(lines: seq<string>, marked: set<nat>, blocks: seq<Block>, i: nat, end: nat)
    decreases blocks
  {
    if blocks == [] then i <= end && AllBlank(lines, i, end)
    else
      && i <= blocks[0].start
      && AllBlank(lines, i, blocks[0].start)
      && BlockOk(lines, marked, blocks[0])
      && Rendered(lines, marked, blocks[1..], EndOf(blocks[0]), end)
  }

  // ------------------------------------------------------------------ as it runs

  method ReadFence(lines: seq<string>, marked: set<nat>, start: nat) returns (b: Block)
    requires start < |lines|
    ensures b.Leaf? && b.kind == Fence && b.start == start && b.end <= |lines| + 1
    ensures LeafOk(lines, b) && (b.marked <==> AnyMarked(marked, start, b.end))
  {
    hide IsFence, AnyMarked;
    var i, buf := start + 1, [];
    while i < |lines| && !IsFence(lines[i])
      invariant start < i <= |lines| && buf == lines[start + 1..i]
      invariant forall n :: start + 1 <= n < i ==> !IsFence(lines[n])
    {
      buf, i := buf + [lines[i]], i + 1;
    }
    i := i + 1;
    b := Leaf(Fence, start, i, AnyMarked(marked, start, i), buf);
  }

  method ReadTable(lines: seq<string>, marked: set<nat>, start: nat) returns (b: Block)
    requires start < |lines| && start + 2 <= |lines|
    ensures b.Leaf? && b.kind == Table && b.start == start && b.end <= |lines|
    ensures LeafOk(lines, b) && (b.marked <==> AnyMarked(marked, start, b.end))
  {
    hide IsBar, AnyMarked;
    var i, rows := start + 2, [lines[start]];
    while i < |lines| && IsBar(lines[i])
      invariant start + 2 <= i <= |lines| && rows == [lines[start]] + lines[start + 2..i]
      invariant forall n :: start + 2 <= n < i ==> IsBar(lines[n])
    {
      rows, i := rows + [lines[i]], i + 1;
    }
    b := Leaf(Table, start, i, AnyMarked(marked, start, i), rows);
  }

  method ReadItems(lines: seq<string>, marked: set<nat>, start: nat) returns (b: Block)
    requires start < |lines| && IsItem(lines[start])
    ensures b.Leaf? && b.kind == Items && b.start == start && b.end <= |lines|
    ensures LeafOk(lines, b) && (b.marked <==> AnyMarked(marked, start, b.end))
    ensures exists at :: Ascending(at) && Markers(lines, start, b.end, at) && AllItemsAt(lines, b.end, b.body, at)
  {
    hide IsItem, IsContinuation, ItemText, Strip, AnyMarked;
    var i, items := start, [];
    while i < |lines| && (IsItem(lines[i]) || (items != [] && IsContinuation(lines[i])))
      invariant start <= i <= |lines| && items == ItemsOf(lines[start..i])
      invariant i > start ==> items != []
      invariant forall n :: start <= n < i ==> InList(lines[n])
    {
      assert lines[start..i + 1][..i - start] == lines[start..i];
      if IsItem(lines[i]) {
        items := items + [ItemText(lines[i])];
      } else {
        items := items[|items| - 1 := items[|items| - 1] + " " + Strip(lines[i])];
      }
      i := i + 1;
    }
    ghost var at := ItemsByMarker(lines, start, i);
    b := Leaf(Items, start, i, AnyMarked(marked, start, i), items);
  }

  method ReadParagraph(lines: seq<string>, marked: set<nat>, start: nat) returns (b: Block)
    requires start < |lines|
    ensures b.Leaf? && b.kind == Paragraph && b.start == start && b.end <= |lines|
    ensures LeafOk(lines, b) && (b.marked <==> AnyMarked(marked, start, b.end))
  {
    hide EndsParagraph, AnyMarked;
    var i, buf := start + 1, [lines[start]];
    while i < |lines| && !EndsParagraph(lines[i])
      invariant start < i <= |lines| && buf == lines[start..i]
      invariant forall n :: start + 1 <= n < i ==> !EndsParagraph(lines[n])
    {
      buf, i := buf + [lines[i]], i + 1;
    }
    b := Leaf(Paragraph, start, i, AnyMarked(marked, start, i), buf);
  }

  /** The first line from `i` on that is not blank. */
  method SkipBlank(lines: seq<string>, i: nat) returns (j: nat)
    requires i <= |lines|
    ensures i <= j <= |lines| && (forall n :: i <= n < j ==> IsBlank(lines[n]))
    ensures j < |lines| ==> !IsBlank(lines[j])
    ensures Resumes(lines, i) <==> j < |lines| && IsIndented(lines[j])
  {
    hide IsBlank, IsIndented, FourSpaces;
    j := i;
    while j < |lines| && IsBlank(lines[j])
      invariant i <= j <= |lines| && forall n :: i <= n < j ==> IsBlank(lines[n])
      invariant Resumes(lines, i) <==> Resumes(lines, j)
    {
      j := j + 1;
    }
  }

  lemma {:induction false} GapGoesOn(lines: seq<string>, i: nat, j: nat)
    requires i <= j <= |lines| && Resumes(lines, i) && forall n :: i <= n < j ==> IsBlank(lines[n])
    ensures forall n :: i <= n < j ==> GoesOn(lines, n)
    decreases j - i
  {
    hide IsBlank, IsIndented, FourSpaces;
    if i < j { GapGoesOn(lines, i + 1, j); }
  }

  /** The lines of a gap that begins without four spaces are emptied, all of them. */
  lemma {:induction false} DedentGap(code: seq<string>, gap: seq<string>)
    requires gap != [] ==> !FourSpaces(gap[0])
    requires forall n :: 0 <= n < |gap| ==> IsBlank(gap[n])
    ensures Dedent(code + gap) == Dedent(code) + seq(|gap|, _ => "")
    ensures gap != [] ==> InGap(code + gap, |code| + |gap| - 1)
  {
    hide IsBlank, IsIndented, FourSpaces;
    if gap == [] {
      assert code + gap == code;
    } else {
      var k := |gap| - 1;
      DedentGap(code, gap[..k]);
      assert (code + gap)[..|code| + k] == code + gap[..k];
      if k > 0 { GapOfPrefix(code + gap, |code| + k - 1); }
    }
  }

  lemma {:induction false} GapOfPrefix(lines: seq<string>, n: nat)
    requires n + 1 < |lines|
    ensures InGap(lines[..n + 1], n) <==> InGap(lines, n)
  {
    hide IsBlank, IsIndented, FourSpaces;
    if n > 0 {
      GapOfPrefix(lines, n - 1);
      GapOfPrefix(lines[..n + 1], n - 1);
      assert lines[..n + 1][..n] == lines[..n];
    }
  }

  lemma CodeIsNoGap(code: seq<string>, s: string)
    requires FourSpaces(s)
    requires code == [] || !IsBlank(s) || !InGap(code, |code| - 1)
    ensures !InGap(code + [s], |code|)
  {
    hide IsBlank, FourSpaces;
    var lines := code + [s];
    assert lines[|code|] == s;
    if code != [] {
      assert lines[..|code|] == code;
      GapOfPrefix(lines, |code| - 1);
    }
  }

  lemma DedentCode(code: seq<string>, s: string)
    requires FourSpaces(s)
    requires code == [] || !IsBlank(s) || !InGap(code, |code| - 1)
    ensures Dedent(code + [s]) == Dedent(code) + [s[4..]] && !InGap(code + [s], |code|)
  {
    CodeIsNoGap(code, s);
    hide IsBlank, InGap;
    assert (code + [s])[..|code|] == code;
  }

  lemma OpeningCode(s: string)
    requires IsIndented(s)
    ensures FourSpaces(s) && !IsBlank(s)
  {
    if IsBlank(s) { BlankIsNothingElse(s); }
  }

  lemma EmptyCode(lines: seq<string>, start: nat)
    requires start <= |lines|
    ensures Dedent(lines[start..start]) == []
  {}

  /** Where the code stands after some lines: not in the middle of a gap, unless code comes next. */
  predicate CodeTo(lines: seq<string>, start: nat, i: nat, buf: seq<string>) {
    && start <= i <= |lines|
    && buf == Dedent(lines[start..i])
    && (i > start ==> !InGap(lines[start..i], i - start - 1) || (i < |lines| && !IsBlank(lines[i])))
    && (forall n :: start <= n < i ==> GoesOn(lines, n))
  }

  lemma CodeLine(lines: seq<string>, start: nat, i: nat, buf: seq<string>)
    requires i < |lines| && CodeTo(lines, start, i, buf) && FourSpaces(lines[i])
    ensures CodeTo(lines, start, i + 1, buf + [lines[i][4..]])
  {
    hide IsBlank, IsIndented, FourSpaces, InGap, Dedent, Resumes;
    if start == i { EmptyCode(lines, start); }
    DedentCode(lines[start..i], lines[i]);
    assert lines[start..i] + [lines[i]] == lines[start..i + 1];
  }

  lemma CodeGap(lines: seq<string>, start: nat, i: nat, buf: seq<string>, j: nat)
    requires CodeTo(lines, start, i, buf) && i < j < |lines| && !FourSpaces(lines[i])
    requires Resumes(lines, i) && !IsBlank(lines[j]) && forall n :: i <= n < j ==> IsBlank(lines[n])
    ensures CodeTo(lines, start, j, buf + seq(j - i, _ => ""))
  {
    hide IsBlank, IsIndented, FourSpaces, InGap, Dedent, Resumes, GoesOn;
    GapGoesOn(lines, i, j);
    DedentGap(lines[start..i], lines[i..j]);
    assert lines[start..i] + lines[i..j] == lines[start..j];
  }

  method TakeCode(lines: seq<string>, start: nat) returns (i: nat, buf: seq<string>)
    requires start < |lines| && FourSpaces(lines[start])
    ensures IndentedExtent(lines, start, i) && buf == Dedent(lines[start..i])
  {
    hide IsBlank, IsIndented, InGap, Dedent, Resumes;
    i, buf := start, [];
    EmptyCode(lines, start);
    while i < |lines|
      invariant CodeTo(lines, start, i, buf)
      invariant i == start ==> FourSpaces(lines[start])
    {
      if FourSpaces(lines[i]) {
        CodeLine(lines, start, i, buf);
        buf, i := buf + [lines[i][4..]], i + 1;
        continue;
      }
      if IsBlank(lines[i]) {
        var j := SkipBlank(lines, i);
        if j < |lines| && IsIndented(lines[j]) {
          CodeGap(lines, start, i, buf, j);
          buf, i := buf + seq(j - i, _ => ""), j;
          continue;
        }
      }
      break;
    }
  }

  method ReadIndented(lines: seq<string>, marked: set<nat>, start: nat) returns (b: Block)
    requires start < |lines| && IsIndented(lines[start])
    ensures b.Leaf? && b.kind == Indented && b.start == start && b.end <= |lines|
    ensures LeafOk(lines, b) && (b.marked <==> AnyMarked(marked, start, b.end))
  {
    OpeningCode(lines[start]);
    var i, code := TakeCode(lines, start);
    var buf := TrimBlank(code);
    b := Leaf(Indented, start, i, AnyMarked(marked, start, i), buf);
  }

  method TrimBlank(code: seq<string>) returns (buf: seq<string>)
    ensures buf == DropBlank(code)
  {
    buf := code;
    while buf != [] && IsBlank(buf[|buf| - 1])
      invariant DropBlank(buf) == DropBlank(code)
    {
      buf := buf[..|buf| - 1];
    }
  }

  /** All the characters of some lines: taking quote marks off leaves fewer. */
  function Chars(lines: seq<string>): nat {
    if lines == [] then 0 else Chars(lines[..|lines| - 1]) + |lines[|lines| - 1]|
  }

  lemma {:induction false} CharsAppend(a: seq<string>, b: seq<string>)
    ensures Chars(a + b) == Chars(a) + Chars(b)
  {
    if b == [] {
      assert a + b == a;
    } else {
      var n := |b| - 1;
      CharsAppend(a, b[..n]);
      assert (a + b)[..|a| + n] == a + b[..n];
    }
  }

  lemma CharsOfSlice(lines: seq<string>, start: nat, end: nat)
    requires start <= end <= |lines|
    ensures Chars(lines[start..end]) <= Chars(lines)
  {
    hide Chars;
    var a, b, c := lines[..start], lines[start..end], lines[end..];
    assert lines == a + b + c;
    CharsAppend(a + b, c);
    CharsAppend(a, b);
  }

  lemma {:induction false} UnquotingShortens(lines: seq<string>)
    requires forall i :: 0 <= i < |lines| ==> IsQuote(lines[i])
    ensures Chars(UnquoteAll(lines)) <= Chars(lines)
    ensures lines != [] ==> Chars(UnquoteAll(lines)) < Chars(lines)
  {
    hide IsQuote, Unquote;
    if lines != [] {
      var n := |lines| - 1;
      UnquotingShortens(lines[..n]);
      Unquoted(lines[n]);
      assert UnquoteAll(lines) == UnquoteAll(lines[..n]) + [Unquote(lines[n])];
      hide UnquoteAll;
      assert UnquoteAll(lines)[..n] == UnquoteAll(lines[..n]);
    }
  }

  lemma Unquoted(s: string)
    requires IsQuote(s)
    ensures |Unquote(s)| < |s|
  {}

  method ReadQuote(lines: seq<string>, marked: set<nat>, start: nat) returns (b: Block)
    requires start < |lines| && IsQuote(lines[start])
    ensures b.Quote? && b.start == start < b.end <= |lines| && Stretch(lines, IsQuote, start, b.end)
    ensures Rendered(UnquoteAll(lines[start..b.end]), Shift(marked, start, b.end), b.inner, 0, b.end - start + 1)
    decreases Chars(lines), 0
  {
    hide IsQuote, Unquote, BlockOk;
    var i, buf := start, [];
    while i < |lines| && IsQuote(lines[i])
      invariant start <= i <= |lines|
      invariant forall n :: start <= n < i ==> IsQuote(lines[n])
      invariant buf == UnquoteAll(lines[start..i])
    {
      assert lines[start..i + 1][..i - start] == lines[start..i];
      buf, i := buf + [Unquote(lines[i])], i + 1;
    }
    CharsOfSlice(lines, start, i);
    UnquotingShortens(lines[start..i]);
    var inner := Convert(buf, Shift(marked, start, i));
    b := Quote(start, i, inner);
  }

  method Convert(lines: seq<string>, marked: set<nat>) returns (out: seq<Block>)
    ensures Rendered(lines, marked, out, 0, |lines| + 1)
    decreases Chars(lines), 2
  {
    hide LeafOk, IsFence, IsRule, IsHeading, IsBar, IsSeparator, IsQuote, IsIndented, IsItem, IsBlank;
    out := [];
    var i := 0;
    while i < |lines|
      invariant i <= |lines| + 1 && Rendered(lines, marked, out, 0, i)
      decreases |lines| + 1 - i
    {
      var opening := Opens(lines, i);
      if opening.Blank? {
        SkipBlankLine(lines, marked, out, 0, i);
        i := i + 1;
      } else {
        var b := ReadBlock(lines, marked, i);
        AppendBlock(lines, marked, out, 0, i, b);
        out, i := out + [b], EndOf(b);
      }
    }
    RestIsBlank(lines, marked, out, 0, i);
  }

  /** The block that begins at a line that opens one. It always takes at least that line. */
  method ReadBlock(lines: seq<string>, marked: set<nat>, i: nat) returns (b: Block)
    requires i < |lines| && !Opens(lines, i).Blank?
    ensures BlockOk(lines, marked, b) && b.start == i < EndOf(b) <= |lines| + 1
    decreases Chars(lines), 1
  {
    hide LeafOk, AnyMarked, Rendered, UnquoteAll, Shift, Stretch;
    hide IsFence, IsRule, IsHeading, IsBar, IsSeparator, IsQuote, IsIndented, IsItem, IsBlank;
    var s := lines[i];
    if IsFence(s) {
      b := ReadFence(lines, marked, i);
    } else if IsRule(s) {
      b := Rule(i);
    } else if IsHeading(s) {
      b := HeadingAt(lines, marked, i);
    } else if IsBar(s) && i + 1 < |lines| && IsSeparator(lines[i + 1]) {
      b := ReadTable(lines, marked, i);
    } else if IsQuote(s) {
      b := ReadQuote(lines, marked, i);
    } else if IsIndented(s) {
      b := ReadIndented(lines, marked, i);
    } else if IsItem(s) {
      b := ReadItems(lines, marked, i);
    } else {
      b := ReadParagraph(lines, marked, i);
    }
    LeafExtends(lines, b);
  }

  method HeadingAt(lines: seq<string>, marked: set<nat>, i: nat) returns (b: Block)
    requires i < |lines|
    ensures b.Leaf? && b.kind == Heading && b.start == i && b.end == i + 1
    ensures LeafOk(lines, b) && (b.marked <==> AnyMarked(marked, i, b.end))
  {
    var level := Hashes(lines[i]);
    b := Leaf(Heading, i, i + 1, AnyMarked(marked, i, i + 1), [Strip(lines[i][level..])]);
  }

  lemma LeafExtends(lines: seq<string>, b: Block)
    requires b.Leaf? ==> b.start < |lines| && LeafOk(lines, b)
    ensures b.Leaf? ==> b.start < b.end
  {}

  lemma {:induction false} SkipBlankLine(lines: seq<string>, marked: set<nat>, blocks: seq<Block>, i: nat, at: nat)
    requires Rendered(lines, marked, blocks, i, at) && at < |lines| && Opens(lines, at).Blank?
    ensures Rendered(lines, marked, blocks, i, at + 1)
    decreases blocks
  {
    hide BlockOk, Opens;
    if blocks != [] { SkipBlankLine(lines, marked, blocks[1..], EndOf(blocks[0]), at); }
  }

  lemma {:induction false} RestIsBlank(lines: seq<string>, marked: set<nat>, blocks: seq<Block>, i: nat, at: nat)
    requires Rendered(lines, marked, blocks, i, at) && |lines| <= at <= |lines| + 1
    ensures Rendered(lines, marked, blocks, i, |lines| + 1)
    decreases blocks
  {
    hide BlockOk, Opens;
    if blocks != [] { RestIsBlank(lines, marked, blocks[1..], EndOf(blocks[0]), at); }
  }

  lemma {:induction false} AppendBlock(lines: seq<string>, marked: set<nat>, blocks: seq<Block>, i: nat, at: nat,
                                       b: Block)
    requires Rendered(lines, marked, blocks, i, at) && at == b.start && BlockOk(lines, marked, b)
    ensures Rendered(lines, marked, blocks + [b], i, EndOf(b))
    decreases blocks
  {
    hide BlockOk, Opens;
    if blocks == [] {
      assert ([] + [b])[1..] == [];
    } else {
      AppendBlock(lines, marked, blocks[1..], EndOf(blocks[0]), at, b);
      assert (blocks + [b])[1..] == blocks[1..] + [b];
    }
  }

  // ------------------------------------------------------------------ what the blocks hold, line by line

  /** Which kind a line opens does not hang on the order of the tests, but for code. */
  lemma OpensByKind(lines: seq<string>, i: nat)
    requires i < |lines|
    ensures var s := lines[i]; var head := IsBar(s) && i + 1 < |lines| && IsSeparator(lines[i + 1]);
            && (IsFence(s) ==> Opens(lines, i) == OpensLeaf(Fence))
            && (IsRule(s) ==> Opens(lines, i) == OpensRule)
            && (IsHeading(s) ==> Opens(lines, i) == OpensLeaf(Heading))
            && (head ==> Opens(lines, i) == OpensLeaf(Table))
            && (IsQuote(s) ==> Opens(lines, i) == OpensQuote)
            && (IsIndented(s) && !IsRule(s) && !head && !IsQuote(s) ==> Opens(lines, i) == OpensLeaf(Indented))
            && (IsItem(s) ==> Opens(lines, i) == OpensLeaf(Items))
            && (IsBlank(s) ==> Opens(lines, i) == Blank)
            && (Opens(lines, i) == OpensLeaf(Paragraph) || IsFence(s) || IsRule(s) || IsHeading(s) || head
                || IsQuote(s) || IsIndented(s) || IsItem(s) || IsBlank(s))
  {
    KindsAreApart(lines[i]);
    hide IsFence, IsRule, IsHeading, IsBar, IsSeparator, IsQuote, IsIndented, IsItem, IsBlank;
  }

  function StripAll(lines: seq<string>): (out: seq<string>)
    ensures |out| == |lines| && forall i :: 0 <= i < |lines| ==> out[i] == Strip(lines[i])
  {
    seq(|lines|, i requires 0 <= i < |lines| => Strip(lines[i]))
  }

  lemma {:induction false} WovenAppend(kept: seq<string>, between: seq<string>, b: string, x: string)
    requires |kept| == |between| + 1
    ensures Woven(kept + [x], between + [b]) == Woven(kept, between) + b + x
  {
    var kept', between' := kept + [x], between + [b];
    if between == [] {
      assert kept' == [kept[0], x];
      assert Woven(kept'[1..], between'[1..]) == x;
    } else {
      WovenAppend(kept[1..], between[1..], b, x);
      assert kept'[1..] == kept[1..] + [x] && between'[1..] == between[1..] + [b];
    }
  }

  /** A marker line and the lines wrapped under it, joined by single blanks. */
  function ItemOver(lines: seq<string>, from: nat, to: nat): string
    requires from < to <= |lines| && IsItem(lines[from])
  {
    Woven([ItemText(lines[from])] + StripAll(lines[from + 1..to]), Copies(" ", to - from - 1))
  }

  lemma ItemGrows(lines: seq<string>, from: nat, to: nat)
    requires from < to < |lines| && IsItem(lines[from])
    ensures ItemOver(lines, from, to + 1) == ItemOver(lines, from, to) + (" " + Strip(lines[to]))
  {
    hide IsItem, ItemText, Strip, Woven;
    var kept, between := [ItemText(lines[from])] + StripAll(lines[from + 1..to]), Copies(" ", to - from - 1);
    WovenAppend(kept, between, " ", Strip(lines[to]));
    assert between + [" "] == Copies(" ", to + 1 - from - 1);
    assert kept + [Strip(lines[to])] == [ItemText(lines[from])] + StripAll(lines[from + 1..to + 1]);
  }

  lemma ItemAlone(lines: seq<string>, from: nat)
    requires from < |lines| && IsItem(lines[from])
    ensures ItemOver(lines, from, from + 1) == ItemText(lines[from])
  {
    hide IsItem, ItemText;
    assert StripAll(lines[from + 1..from + 1]) == [];
  }

  /** Where item `k` ends: at the next marker line, or with the list. */
  function ItemEnd(at: seq<nat>, end: nat, k: nat): nat { if k + 1 < |at| then at[k + 1] else end }

  /** Item `k` runs from one marker line to the next. */
  predicate ItemAt(lines: seq<string>, end: nat, items: seq<string>, at: seq<nat>, k: nat)
    requires k < |at| == |items|
  {
    var to := ItemEnd(at, end, k);
    at[k] < to <= |lines| && IsItem(lines[at[k]]) && items[k] == ItemOver(lines, at[k], to)
  }

  predicate AllItemsAt(lines: seq<string>, end: nat, items: seq<string>, at: seq<nat>) {
    |at| == |items| && forall k :: 0 <= k < |items| ==> ItemAt(lines, end, items, at, k)
  }

  /** `at` lists the marker lines from `start` to `end`. */
  predicate Markers(lines: seq<string>, start: nat, end: nat, at: seq<nat>) {
    && start <= end <= |lines|
    && (forall k :: 0 <= k < |at| ==> start <= at[k] < end)
    && (forall n :: start <= n < end ==> (IsItem(lines[n]) <==> n in at))
  }

  lemma MarkersGrow(lines: seq<string>, start: nat, n: nat, at: seq<nat>)
    requires n < |lines| && Markers(lines, start, n, at)
    ensures Markers(lines, start, n + 1, if IsItem(lines[n]) then at + [n] else at)
  {
    hide IsItem;
  }

  lemma AddItem(lines: seq<string>, n: nat, end: nat, items: seq<string>, at: seq<nat>, text: string)
    requires n + 1 == end <= |lines| && AllItemsAt(lines, n, items, at)
    requires IsItem(lines[n]) && text == ItemText(lines[n])
    ensures AllItemsAt(lines, end, items + [text], at + [n])
  {
    ItemAlone(lines, n);
    hide IsItem, ItemText, ItemOver;
    var items', at' := items + [text], at + [n];
    forall k | 0 <= k < |items'| ensures ItemAt(lines, end, items', at', k) {
      if k < |items| { assert ItemAt(lines, n, items, at, k); }
    }
  }

  lemma ExtendItem(lines: seq<string>, n: nat, end: nat, items: seq<string>, at: seq<nat>, m: nat, more: string)
    requires n + 1 == end <= |lines| && AllItemsAt(lines, n, items, at)
    requires |items| == m + 1 && more == " " + Strip(lines[n])
    ensures AllItemsAt(lines, end, items[m := items[m] + more], at)
  {
    hide IsItem, ItemOver, Strip;
    assert ItemAt(lines, n, items, at, m);
    ItemGrows(lines, at[m], n);
    var items' := items[m := items[m] + more];
    forall k | 0 <= k < |items'| ensures ItemAt(lines, end, items', at, k) {
      if k < m { assert ItemAt(lines, n, items, at, k); }
    }
  }

  /**
   The items of a list by its lines: one for each marker line, in order, each holding the
   text of its marker line and the stripped text of every line up to the next marker.
   */
  lemma {:induction false} ItemsByMarker(lines: seq<string>, start: nat, end: nat) returns (at: seq<nat>)
    requires start < end <= |lines| && IsItem(lines[start])
    ensures Markers(lines, start, end, at) && AllItemsAt(lines, end, ItemsOf(lines[start..end]), at)
    ensures at != [] && Ascending(at)
    decreases end
  {
    hide IsItem, ItemText, Strip, ItemsOf, AllItemsAt, Markers;
    var q, n := lines[start..end], end - 1;
    LastItem(q);
    assert q[..n - start] == lines[start..n];
    var items := ItemsOf(lines[start..n]);
    if n == start {
      NoItems(lines[start..n]);
      at := [];
      NothingYet(lines, start);
    } else {
      at := ItemsByMarker(lines, start, n);
    }
    SameCount(lines, start, n, items, at);
    MarkersGrow(lines, start, n, at);
    if IsItem(lines[n]) {
      AddItem(lines, n, end, items, at, ItemText(lines[n]));
      at := at + [n];
    } else {
      ExtendItem(lines, n, end, items, at, |items| - 1, " " + Strip(lines[n]));
    }
  }

  lemma NothingYet(lines: seq<string>, start: nat)
    requires start <= |lines|
    ensures AllItemsAt(lines, start, [], []) && Markers(lines, start, start, [])
  {}

  lemma SameCount(lines: seq<string>, start: nat, n: nat, items: seq<string>, at: seq<nat>)
    requires AllItemsAt(lines, n, items, at) && Markers(lines, start, n, at)
    ensures |at| == |items| && forall k :: 0 <= k < |at| ==> at[k] < n
  {}

  lemma NoItems(q: seq<string>)
    requires q == []
    ensures ItemsOf(q) == []
  {}

  lemma LastItem(q: seq<string>)
    requires q != []
    ensures var before, s := ItemsOf(q[..|q| - 1]), q[|q| - 1];
            && (IsItem(s) ==> ItemsOf(q) == before + [ItemText(s)])
            && (!IsItem(s) && before != [] ==>
                  ItemsOf(q) == before[|before| - 1 := before[|before| - 1] + (" " + Strip(s))])
  {
    hide IsItem, ItemText, Strip;
    var before := ItemsOf(q[..|q| - 1]);
    if before != [] {
      var last := before[|before| - 1];
      assert last + " " + Strip(q[|q| - 1]) == last + (" " + Strip(q[|q| - 1]));
    }
  }

  /** The lines from `m` to `n` are blank, and the first of them has no four spaces. */
  predicate Gap(lines: seq<string>, m: nat, n: nat) {
    m <= n < |lines| && !FourSpaces(lines[m]) && forall j :: m <= j <= n ==> IsBlank(lines[j])
  }

  predicate Gapped(lines: seq<string>, start: nat, n: nat) { exists m :: start <= m <= n && Gap(lines, m, n) }

  lemma {:induction false} InGapExactly(lines: seq<string>, n: nat)
    requires n < |lines|
    ensures InGap(lines, n) <==> Gapped(lines, 0, n)
  {
    hide IsBlank, FourSpaces;
    if n > 0 { InGapExactly(lines, n - 1); }
    if InGap(lines, n) {
      if !FourSpaces(lines[n]) {
        assert Gap(lines, n, n);
      } else {
        var m :| 0 <= m <= n - 1 && Gap(lines, m, n - 1);
        assert Gap(lines, m, n);
      }
    }
    if m :| 0 <= m <= n && Gap(lines, m, n) && m < n { assert Gap(lines, m, n - 1); }
  }

  lemma {:induction false} DedentAt(lines: seq<string>, n: nat)
    requires n < |lines|
    ensures Dedent(lines)[n] == if InGap(lines, n) || !FourSpaces(lines[n]) then "" else lines[n][4..]
  {
    hide IsBlank, FourSpaces, InGap;
    var last := |lines| - 1;
    if n < last {
      DedentAt(lines[..last], n);
      SameGap(lines, last, n);
    }
  }

  lemma {:induction false} SameGap(lines: seq<string>, k: nat, n: nat)
    requires n < k <= |lines|
    ensures InGap(lines[..k], n) <==> InGap(lines, n)
  {
    hide IsBlank, FourSpaces;
    if n > 0 { SameGap(lines, k, n - 1); }
  }

  lemma {:induction false} DropBlankKeeps(buf: seq<string>)
    ensures DropBlank(buf) <= buf && forall i :: |DropBlank(buf)| <= i < |buf| ==> IsBlank(buf[i])
    ensures var out := DropBlank(buf); out != [] ==> !IsBlank(out[|out| - 1])
  {
    hide IsBlank;
    if buf != [] && IsBlank(buf[|buf| - 1]) { DropBlankKeeps(buf[..|buf| - 1]); }
  }

  /** A line of indented code: without its four spaces, and empty in a gap. */
  function CodeText(lines: seq<string>, start: nat, n: nat): string
    requires start <= n < |lines|
  {
    if Gapped(lines, start, n) || |lines[n]| < 4 then "" else lines[n][4..]
  }

  /**
   Indented code by its lines: each loses its four spaces, but for the lines of a gap, which
   become empty; blank lines at the end are dropped, and no other.
   */
  lemma IndentedBody(lines: seq<string>, b: Block)
    requires b.Leaf? && b.kind == Indented && b.start < |lines| && LeafOk(lines, b)
    ensures |b.body| <= b.end - b.start && b.end <= |lines|
    ensures b.body != [] ==> !IsBlank(b.body[|b.body| - 1])
    ensures forall n :: b.start <= n < b.end && !Gapped(lines, b.start, n) ==> |lines[n]| >= 4
    ensures forall n :: b.start <= n < b.end ==>
              if n - b.start < |b.body| then b.body[n - b.start] == CodeText(lines, b.start, n)
              else IsBlank(CodeText(lines, b.start, n))
  {
    hide *;
    IndentedIs(lines, b);
    var code := lines[b.start..b.end];
    forall n | b.start <= n < b.end
      ensures Gapped(lines, b.start, n) || |lines[n]| >= 4
      ensures Dedent(code)[n - b.start] == CodeText(lines, b.start, n)
    {
      CodeLineIs(lines, b.start, code, n, n - b.start);
    }
    DropBlankKeeps(Dedent(code));
  }

  lemma IndentedIs(lines: seq<string>, b: Block)
    requires b.Leaf? && b.kind == Indented && b.start < |lines| && LeafOk(lines, b)
    ensures b.start < b.end <= |lines| && b.body == DropBlank(Dedent(lines[b.start..b.end]))
    ensures |Dedent(lines[b.start..b.end])| == b.end - b.start
    ensures forall n :: b.start <= n < b.end ==> FourSpaces(lines[n]) || IsBlank(lines[n])
  {
    hide IsBlank, IsIndented, Resumes, DropBlank, FourSpaces;
    forall n | b.start <= n < b.end ensures FourSpaces(lines[n]) || IsBlank(lines[n]) { assert GoesOn(lines, n); }
  }

  lemma CodeLineIs(lines: seq<string>, start: nat, code: seq<string>, n: nat, k: nat)
    requires k < |code| && start + k == n && start + |code| <= |lines| && code == lines[start..start + |code|]
    requires FourSpaces(lines[n]) || IsBlank(lines[n])
    ensures Gapped(lines, start, n) || |lines[n]| >= 4
    ensures Dedent(code)[k] == CodeText(lines, start, n)
  {
    hide *;
    assert code[k] == lines[n];
    SpacesAreLong(lines[n]);
    DedentAt(code, k);
    GapIs(lines, start, code, n, k);
    if !FourSpaces(lines[n]) { GapOfOne(lines, start, n); }
    CodeTextIs(lines, start, n);
  }

  lemma GapIs(lines: seq<string>, start: nat, code: seq<string>, n: nat, k: nat)
    requires k < |code| && start + k == n && start + |code| <= |lines| && code == lines[start..start + |code|]
    ensures InGap(code, k) <==> Gapped(lines, start, n)
  {
    hide *;
    InGapExactly(code, k);
    GapInside(lines, start, start + |code|, n);
  }

  lemma CodeTextIs(lines: seq<string>, start: nat, n: nat)
    requires start <= n < |lines|
    ensures Gapped(lines, start, n) ==> CodeText(lines, start, n) == ""
    ensures !Gapped(lines, start, n) && |lines[n]| >= 4 ==> CodeText(lines, start, n) == lines[n][4..]
  {
    hide Gapped;
  }

  lemma SpacesAreLong(s: string)
    ensures FourSpaces(s) ==> |s| >= 4
  {}

  lemma GapOfOne(lines: seq<string>, start: nat, n: nat)
    requires start <= n < |lines| && !FourSpaces(lines[n]) && IsBlank(lines[n])
    ensures Gapped(lines, start, n)
  {
    hide IsBlank, FourSpaces;
    assert Gap(lines, n, n);
  }

  lemma GapInside(lines: seq<string>, start: nat, end: nat, n: nat)
    requires start <= n < end <= |lines|
    ensures Gapped(lines[start..end], 0, n - start) <==> Gapped(lines, start, n)
  {
    hide IsBlank, FourSpaces;
    var code, k := lines[start..end], n - start;
    if Gapped(code, 0, k) {
      var m :| 0 <= m <= k && Gap(code, m, k);
      forall j | start + m <= j <= n ensures IsBlank(lines[j]) { assert code[j - start] == lines[j]; }
      assert Gap(lines, start + m, n);
    }
    if Gapped(lines, start, n) {
      var m :| start <= m <= n && Gap(lines, m, n);
      assert Gap(code, m - start, k);
    }
  }

  // ------------------------------------------------------------------ what the reader can count on

  predicate Covers(b: Block, n: nat) { b.start <= n < EndOf(b) }

  /** The blocks come in the order of the lines and never share one. */
  lemma {:induction false} InOrder(lines: seq<string>, marked: set<nat>, blocks: seq<Block>, i: nat, end: nat,
                                   j: nat, k: nat)
    requires Rendered(lines, marked, blocks, i, end) && j < |blocks|
    ensures i <= blocks[j].start
    ensures j < k < |blocks| ==> EndOf(blocks[j]) <= blocks[k].start
    decreases blocks
  {
    hide BlockOk, Opens;
    if j > 0 {
      InOrder(lines, marked, blocks[1..], EndOf(blocks[0]), end, j - 1, if k > 0 then k - 1 else 0);
      InOrder(lines, marked, blocks[1..], EndOf(blocks[0]), end, 0, 0);
      EndsLater(lines, marked, blocks[0]);
    } else if 0 < k < |blocks| {
      InOrder(lines, marked, blocks[1..], EndOf(blocks[0]), end, k - 1, 0);
    }
  }

  lemma EndsLater(lines: seq<string>, marked: set<nat>, b: Block)
    requires BlockOk(lines, marked, b)
    ensures b.start < EndOf(b)
  {
    hide Rendered, Opens;
    if b.Leaf? { LeafExtends(lines, b); }
  }

  /** Every line is in exactly one block, or is blank and in none. */
  lemma {:induction false} EachLineOnce(lines: seq<string>, marked: set<nat>, blocks: seq<Block>, i: nat, end: nat,
                                        n: nat)
    requires Rendered(lines, marked, blocks, i, end) && i <= n < |lines| < end
    ensures (exists j: nat :: j < |blocks| && Covers(blocks[j], n)) || IsBlank(lines[n])
    ensures forall j: nat, k: nat :: j < k < |blocks| ==> !(Covers(blocks[j], n) && Covers(blocks[k], n))
    decreases blocks
  {
    hide BlockOk, IsFence, IsRule, IsHeading, IsBar, IsSeparator, IsQuote, IsIndented, IsItem, IsBlank;
    forall j: nat, k: nat | j < k < |blocks| ensures !(Covers(blocks[j], n) && Covers(blocks[k], n)) {
      InOrder(lines, marked, blocks, i, end, j, k);
    }
    if blocks != [] {
      var b := blocks[0];
      if n < b.start {
        assert Opens(lines, n).Blank?;
      } else if n < EndOf(b) {
        assert Covers(blocks[0], n);
      } else {
        EachLineOnce(lines, marked, blocks[1..], EndOf(b), end, n);
        if j: nat :| j < |blocks[1..]| && Covers(blocks[1..][j], n) { assert Covers(blocks[j + 1], n); }
      }
    } else {
      assert Opens(lines, n).Blank?;
    }
  }

  /** Some leaf over line `n`, perhaps inside quotes, carries a mark. */
  predicate Shown(blocks: seq<Block>, n: nat)
    decreases blocks
  {
    exists j: nat :: j < |blocks| && Covers(blocks[j], n) && ShownIn(blocks[j], n)
  }

  predicate ShownIn(b: Block, n: nat)
    decreases b
  {
    match b
    case Leaf(_, _, _, marked, _) => marked
    case Rule(_) => false
    case Quote(start, _, inner) => n >= start && Shown(inner, n - start)
  }

  /** Line `n`, or what is left of it inside quotes, lies in no leaf: it is a gap or a rule. */
  predicate Outside(blocks: seq<Block>, n: nat)
    decreases blocks
  {
    forall j: nat :: j < |blocks| && Covers(blocks[j], n) ==> OutsideIn(blocks[j], n)
  }

  predicate OutsideIn(b: Block, n: nat)
    decreases b
  {
    match b
    case Leaf(_, _, _, _, _) => false
    case Rule(_) => true
    case Quote(start, _, inner) => n >= start && Outside(inner, n - start)
  }

  lemma {:induction false} BareInside(lines: seq<string>, start: nat, end: nat, n: nat)
    requires start <= n < end <= |lines| && forall k :: start <= k < end ==> IsQuote(lines[k])
    ensures UnquoteAll(lines[start..end])[n - start] == Unquote(lines[n])
    ensures Bare(UnquoteAll(lines[start..end])[n - start]) == Bare(lines[n])
  {
    hide IsQuote, Unquote;
    assert lines[start..end][n - start] == lines[n];
  }

  /**
   The marks are carried. A marked line shows in some marked leaf, through any depth of
   quotes, exactly when it ends in a leaf at all; and a line that is neither blank nor a
   rule once its quote marks are off always does.
   */
  lemma {:induction false} MarksAreCarried(lines: seq<string>, marked: set<nat>, blocks: seq<Block>, i: nat, end: nat,
                                           n: nat)
    requires Rendered(lines, marked, blocks, i, end) && i <= n < |lines| < end && n in marked
    ensures Shown(blocks, n) <==> !Outside(blocks, n)
    ensures !IsBlank(Bare(lines[n])) && !IsRule(Bare(lines[n])) ==> Shown(blocks, n)
    decreases blocks
  {
    EachLineOnce(lines, marked, blocks, i, end, n);
    if j: nat :| j < |blocks| && Covers(blocks[j], n) {
      BlockIsOk(lines, marked, blocks, i, end, j);
      CarriedIn(lines, marked, blocks[j], n);
    } else {
      BareBlank(lines[n]);
    }
  }

  lemma {:induction false} CarriedIn(lines: seq<string>, marked: set<nat>, b: Block, n: nat)
    requires BlockOk(lines, marked, b) && Covers(b, n) && n < |lines| && n in marked
    ensures ShownIn(b, n) <==> !OutsideIn(b, n)
    ensures !IsBlank(Bare(lines[n])) && !IsRule(Bare(lines[n])) ==> ShownIn(b, n)
    decreases b
  {
    hide IsBlank, IsRule, Bare, IsQuote, Unquote, Rendered, UnquoteAll, Shift, LeafOk, Shown, Outside;
    hide IsFence, IsHeading, IsBar, IsSeparator, IsIndented, IsItem;
    if b.Quote? {
      QuoteIsOk(lines, marked, b, n);
      hide BlockOk;
      MarksAreCarried(UnquoteAll(lines[b.start..b.end]), Shift(marked, b.start, b.end), b.inner, 0,
                      b.end - b.start + 1, n - b.start);
    } else if b.Rule? {
      RuleIsBare(lines[b.start]);
    }
  }

  lemma QuoteIsOk(lines: seq<string>, marked: set<nat>, b: Block, n: nat)
    requires BlockOk(lines, marked, b) && b.Quote? && Covers(b, n) && n < |lines| && n in marked
    ensures b.start < b.end <= |lines| && Stretch(lines, IsQuote, b.start, b.end)
    ensures var inside := UnquoteAll(lines[b.start..b.end]);
            && |inside| == b.end - b.start
            && Rendered(inside, Shift(marked, b.start, b.end), b.inner, 0, |inside| + 1)
            && n - b.start in Shift(marked, b.start, b.end)
            && Bare(inside[n - b.start]) == Bare(lines[n])
  {
    hide IsQuote, Unquote, Bare, Opens, Rendered, LeafOk;
    BareInside(lines, b.start, b.end, n);
  }

  /** Lines `m` and `n` lie in one leaf, perhaps inside quotes. */
  predicate Together(blocks: seq<Block>, m: nat, n: nat)
    decreases blocks
  {
    exists j: nat :: j < |blocks| && Covers(blocks[j], m) && Covers(blocks[j], n) && TogetherIn(blocks[j], m, n)
  }

  predicate TogetherIn(b: Block, m: nat, n: nat)
    decreases b
  {
    match b
    case Leaf(_, _, _, _, _) => true
    case Rule(_) => false
    case Quote(start, _, inner) => m >= start && n >= start && Together(inner, m - start, n - start)
  }

  /** No mark is made up: where one shows, some marked line lies in the same leaf. */
  lemma {:induction false} MarksAreEarned(lines: seq<string>, marked: set<nat>, blocks: seq<Block>, i: nat, end: nat,
                                          n: nat)
    requires Rendered(lines, marked, blocks, i, end) && Shown(blocks, n)
    ensures exists m :: m in marked && Together(blocks, m, n)
    decreases blocks
  {
    var j: nat :| j < |blocks| && Covers(blocks[j], n) && ShownIn(blocks[j], n);
    BlockIsOk(lines, marked, blocks, i, end, j);
    hide Rendered, BlockOk;
    EarnedIn(lines, marked, blocks[j], n);
    var m :| m in marked && Covers(blocks[j], m) && TogetherIn(blocks[j], m, n);
    assert Together(blocks, m, n);
  }

  lemma EarnedOk(lines: seq<string>, marked: set<nat>, b: Block)
    requires BlockOk(lines, marked, b) && b.Quote?
    ensures b.start < b.end <= |lines| && forall n :: b.start <= n < b.end ==> IsQuote(lines[n])
    ensures Rendered(Inside(lines, b.start, b.end), Shift(marked, b.start, b.end), b.inner, 0, b.end - b.start + 1)
  {
    hide Rendered, Opens, IsQuote, Inside, Shift;
  }

  lemma {:induction false} EarnedIn(lines: seq<string>, marked: set<nat>, b: Block, n: nat)
    requires BlockOk(lines, marked, b) && Covers(b, n) && ShownIn(b, n)
    ensures exists m :: m in marked && Covers(b, m) && TogetherIn(b, m, n)
    decreases b
  {
    hide Rendered, LeafOk, Opens, UnquoteAll, Together, Shown, QuoteOk;
    if b.Leaf? {
      var m :| m in marked && b.start <= m < b.end;
      assert TogetherIn(b, m, n);
    } else if b.Quote? {
      EarnedOk(lines, marked, b);
      hide BlockOk, Inside;
      var inside, inner := Inside(lines, b.start, b.end), Shift(marked, b.start, b.end);
      MarksAreEarned(inside, inner, b.inner, 0, b.end - b.start + 1, n - b.start);
      var k :| k in inner && Together(b.inner, k, n - b.start);
      assert TogetherIn(b, b.start + k, n);
    }
  }

  lemma {:induction false} BlockIsOk(lines: seq<string>, marked: set<nat>, blocks: seq<Block>, i: nat, end: nat, j: nat)
    requires Rendered(lines, marked, blocks, i, end) && j < |blocks|
    ensures BlockOk(lines, marked, blocks[j])
    decreases blocks
  {
    hide BlockOk, Opens;
    if j > 0 { BlockIsOk(lines, marked, blocks[1..], EndOf(blocks[0]), end, j - 1); }
  }

  lemma BareBlank(s: string)
    ensures IsBlank(s) ==> IsBlank(Bare(s))
  {
    if IsBlank(s) { BlankIsNothingElse(s); }
  }

  lemma RuleIsBare(s: string)
    requires IsRule(s)
    ensures Bare(s) == s
  {
    RuleStart(s);
  }
}
