/**
  Width-aware greedy word wrapping (`wrapTextWithRuneWidth`).

  The text is cut into words by `Fields`; each line is `indent` followed by words
  separated by single spaces. Words are packed greedily against
  `effective = maxWidth - width(indent)`: the line being built is emitted when its
  width is positive and adding the next word (and the space before it) would exceed
  `effective`. A word is never split, so a long word stands alone on its line.

  `Builder`/`Step`/`Run` follow the source loop over strings, with its two different
  tests: emit the line when its WIDTH is positive, write a space when its LENGTH is
  positive. `Pack` makes the same decisions on groups of words; `RunMatchesPack`
  shows the two agree, and the layout properties are proved on the groups.
 */
module Wrap {
  import opened Base
  import opened Text

  /** The state of the word loop: the emitted lines and the text of the line being built. */
  datatype Builder = Builder(lines: seq<string>, cur: string)

  /** One pass of the word loop. */
  function Step(b: Builder, word: string, indent: string, effective: int, width: char -> nat): Builder
  {
    var curWidth := StringWidth(b.cur, width);
    var flushed :=
      if curWidth + StringWidth(word, width) + 1 > effective && curWidth > 0
      then Builder(b.lines + [indent + b.cur], "")
      else b;
    var sep := if |flushed.cur| > 0 then " " else "";
    Builder(flushed.lines, flushed.cur + sep + word)
  }

  /** The word loop over `words`, starting from no lines and an empty line buffer. */
  function Run(words: seq<string>, indent: string, effective: int, width: char -> nat): (b: Builder)
    ensures forall i :: 0 <= i < |b.lines| ==> indent <= b.lines[i]
    decreases |words|
  {
    if words == [] then Builder([], "")
    else Step(Run(words[..|words| - 1], indent, effective, width), words[|words| - 1], indent, effective, width)
  }

  /** The cells left for words once the indent is written (`effectiveWidth`). */
  function Effective(maxWidth: int, indent: string, width: char -> nat): int
  {
    maxWidth - StringWidth(indent, width)
  }

  /** After the loop: the line being built is emitted if it holds anything. */
  function Finish(b: Builder, indent: string): seq<string>
  {
    if |b.cur| > 0 then b.lines + [indent + b.cur] else b.lines
  }

  /** `wrapTextWithRuneWidth(text, maxWidth, indent)` with `width` as the cell width of a character. */
  function WrapText(text: string, maxWidth: int, indent: string, width: char -> nat): (lines: seq<string>)
    ensures forall i :: 0 <= i < |lines| ==> indent <= lines[i]
  {
    Finish(Run(Fields(text), indent, Effective(maxWidth, indent, width), width), indent)
  }

  // ---------------------------------------------------------------------------
  // The same greedy decisions on groups of words

  /** The groups of words already emitted, and the group of the line being built. */
  datatype Packing = Packing(full: seq<seq<string>>, open: seq<string>)

  function LineWidth(group: seq<string>, width: char -> nat): nat
  {
    StringWidth(Join(group, " "), width)
  }

  /** One greedy decision: close the open group before `word`, or add `word` to it. */
  function PackStep(p: Packing, word: string, effective: int, width: char -> nat): Packing
  {
    var w := LineWidth(p.open, width);
    if w + StringWidth(word, width) + 1 > effective && w > 0
    then Packing(p.full + [p.open], [word])
    else Packing(p.full, p.open + [word])
  }

  /** Greedy packing of `words` into groups, one group per output line. */
  function Pack(words: seq<string>, effective: int, width: char -> nat): Packing
    decreases |words|
  {
    if words == [] then Packing([], [])
    else PackStep(Pack(words[..|words| - 1], effective, width), words[|words| - 1], effective, width)
  }

  /** The groups of all output lines: the emitted ones, then the open one if it holds words. */
  function Groups(words: seq<string>, effective: int, width: char -> nat): seq<seq<string>>
  {
    var p := Pack(words, effective, width);
    if p.open == [] then p.full else p.full + [p.open]
  }

  /** The lines of a sequence of groups: `indent`, then the group's words joined by single spaces. */
  function Render(groups: seq<seq<string>>, indent: string): (lines: seq<string>)
    ensures |lines| == |groups|
  {
    seq(|groups|, i requires 0 <= i < |groups| => indent + Join(groups[i], " "))
  }

  /** The text of each line after its first `n` characters. */
  function Dedent(lines: seq<string>, n: nat): (bodies: seq<string>)
    ensures |bodies| == |lines|
  {
    seq(|lines|, i requires 0 <= i < |lines| => if n <= |lines[i]| then lines[i][n..] else "")
  }

  predicate Fits(group: seq<string>, effective: int, width: char -> nat)
  {
    |group| >= 2 ==> LineWidth(group, width) <= effective
  }

  /** The test that made the packer close `group` before the word `next`. */
  predicate Breaks(group: seq<string>, next: string, effective: int, width: char -> nat)
  {
    LineWidth(group, width) > 0 && LineWidth(group, width) + StringWidth(next, width) + 1 > effective
  }

  /** Groups `i` and `i + 1` were separated by a forced break. */
  predicate BreakAfter(g: seq<seq<string>>, i: int, effective: int, width: char -> nat)
  {
    0 <= i < |g| - 1 && g[i + 1] != [] && Breaks(g[i], g[i + 1][0], effective, width)
  }

  // ---------------------------------------------------------------------------
  // Lemmas about the packing

  /** The packing partitions the words, in order, into non-empty groups; the open group is
      empty only before the first word. */
  lemma {:induction false} PackPartitions(words: seq<string>, effective: int, width: char -> nat)
    ensures var p := Pack(words, effective, width);
      && Flatten(p.full) + p.open == words
      && (forall i :: 0 <= i < |p.full| ==> p.full[i] != [])
      && (p.open == [] <==> words == [])
    decreases |words|
  {
    if words != [] {
      var pre := words[..|words| - 1];
      var word := words[|words| - 1];
      assert words == pre + [word];
      PackPartitions(pre, effective, width);
      StepPartitions(Pack(pre, effective, width), pre, word, effective, width);
      assert Pack(words, effective, width) == PackStep(Pack(pre, effective, width), word, effective, width);
    }
  }

  /** One greedy decision keeps the packing a partition and leaves the open group non-empty. */
  lemma StepPartitions(p: Packing, pre: seq<string>, word: string, effective: int, width: char -> nat)
    requires Flatten(p.full) + p.open == pre
    requires forall i :: 0 <= i < |p.full| ==> p.full[i] != []
    requires p.open == [] <==> pre == []
    ensures var q := PackStep(p, word, effective, width);
      && Flatten(q.full) + q.open == pre + [word]
      && (forall i :: 0 <= i < |q.full| ==> q.full[i] != [])
      && q.open != []
  {
    var w := LineWidth(p.open, width);
    if w + StringWidth(word, width) + 1 > effective && w > 0 {
      FlattenAppend(p.full, [p.open]);
      assert Flatten([p.open]) == p.open + Flatten([]);
    }
  }

  lemma JoinOfWordsNonEmpty(g: seq<string>)
    requires g != [] && AllWords(g)
    ensures Join(g, " ") != []
  {
    JoinNonEmpty(g, " ");
  }

  lemma {:induction false} PrefixWords(words: seq<string>)
    requires words != [] && AllWords(words)
    ensures AllWords(words[..|words| - 1]) && IsWord(words[|words| - 1])
  {
  }

  /** Every group of the packing consists of input words. */
  lemma PackHoldsWords(words: seq<string>, effective: int, width: char -> nat)
    requires AllWords(words)
    ensures var p := Pack(words, effective, width);
      (forall i :: 0 <= i < |p.full| ==> AllWords(p.full[i])) && AllWords(p.open)
  {
    var p := Pack(words, effective, width);
    PackPartitions(words, effective, width);
    forall k | 0 <= k < |p.open|
      ensures IsWord(p.open[k])
    {
      assert p.open[k] == words[|Flatten(p.full)| + k];
    }
    forall i, k | 0 <= i < |p.full| && 0 <= k < |p.full[i]|
      ensures IsWord(p.full[i][k])
    {
      FlattenMember(p.full, i, k);
      assert p.full[i][k] in words;
    }
  }

  lemma RenderSnoc(g: seq<seq<string>>, x: seq<string>, indent: string)
    ensures Render(g + [x], indent) == Render(g, indent) + [indent + Join(x, " ")]
  {
  }

  /** The string builder of the source holds exactly the open group joined by single
      spaces, and every emitted line is `indent` plus an emitted group. */
  lemma {:induction false} RunMatchesPack(words: seq<string>, indent: string, effective: int, width: char -> nat)
    requires AllWords(words)
    ensures Run(words, indent, effective, width).lines == Render(Pack(words, effective, width).full, indent)
    ensures Run(words, indent, effective, width).cur == Join(Pack(words, effective, width).open, " ")
    decreases |words|
  {
    if words != [] {
      var pre := words[..|words| - 1];
      var word := words[|words| - 1];
      PrefixWords(words);
      RunMatchesPack(pre, indent, effective, width);
      var p := Pack(pre, effective, width);
      if p.open != [] {
        PackHoldsWords(pre, effective, width);
        JoinOfWordsNonEmpty(p.open);
        JoinSnoc(p.open, word, " ");
      }
      RenderSnoc(p.full, p.open, indent);
    }
  }

  /** The lines of the source loop are the rendered groups. */
  lemma RunRender(words: seq<string>, indent: string, effective: int, width: char -> nat)
    requires AllWords(words)
    ensures Finish(Run(words, indent, effective, width), indent) == Render(Groups(words, effective, width), indent)
  {
    RunMatchesPack(words, indent, effective, width);
    var p := Pack(words, effective, width);
    if p.open != [] {
      PackHoldsWords(words, effective, width);
      JoinOfWordsNonEmpty(p.open);
      RenderSnoc(p.full, p.open, indent);
    }
  }

  /** The groups partition the words, in order, into non-empty runs of words. */
  lemma GroupsPartition(words: seq<string>, effective: int, width: char -> nat)
    requires AllWords(words)
    ensures var g := Groups(words, effective, width);
      && Flatten(g) == words
      && (forall i :: 0 <= i < |g| ==> g[i] != [] && AllWords(g[i]))
  {
    var p := Pack(words, effective, width);
    PackPartitions(words, effective, width);
    PackHoldsWords(words, effective, width);
    CloseGroup(p.full, p.open, words);
  }

  /** Closing the open group of a partition of `words` gives a partition into non-empty groups. */
  lemma CloseGroup(full: seq<seq<string>>, open: seq<string>, words: seq<string>)
    requires Flatten(full) + open == words
    requires forall i :: 0 <= i < |full| ==> full[i] != [] && AllWords(full[i])
    requires AllWords(open)
    ensures var g := if open == [] then full else full + [open];
      && Flatten(g) == words
      && (forall i :: 0 <= i < |g| ==> g[i] != [] && AllWords(g[i]))
  {
    if open != [] {
      FlattenAppend(full, [open]);
      assert Flatten([open]) == open + Flatten([]);
    }
  }

  /** A line holding two or more words fits in the effective width (given cell widths of
      at least one); a lone word may be wider. */
  lemma {:induction false} PackFits(words: seq<string>, effective: int, width: char -> nat)
    requires CellWidths(width) && AllWords(words)
    ensures var p := Pack(words, effective, width);
      (forall i :: 0 <= i < |p.full| ==> Fits(p.full[i], effective, width)) && Fits(p.open, effective, width)
    decreases |words|
  {
    if words != [] {
      var pre := words[..|words| - 1];
      var word := words[|words| - 1];
      PrefixWords(words);
      PackFits(pre, effective, width);
      var p := Pack(pre, effective, width);
      var w := LineWidth(p.open, width);
      if !(w + StringWidth(word, width) + 1 > effective && w > 0) && p.open != [] {
        PackHoldsWords(pre, effective, width);
        JoinOfWordsNonEmpty(p.open);
        StringWidthAtLeastLength(Join(p.open, " "), width);
        JoinSnoc(p.open, word, " ");
        StringWidthAppend(Join(p.open, " ") + " ", word, width);
        StringWidthAppend(Join(p.open, " "), " ", width);
      }
    }
  }

  lemma GroupsFit(words: seq<string>, effective: int, width: char -> nat)
    requires CellWidths(width) && AllWords(words)
    ensures var g := Groups(words, effective, width);
      forall i :: 0 <= i < |g| ==> Fits(g[i], effective, width)
  {
    PackFits(words, effective, width);
  }

  /** Every line break was forced: the closed line had positive width and the first word of
      the next line, with its separating space, would not have fitted after it. */
  lemma {:induction false} PackBreaks(words: seq<string>, effective: int, width: char -> nat)
    ensures var g := Groups(words, effective, width);
      forall i :: 0 <= i < |g| - 1 ==> BreakAfter(g, i, effective, width)
    decreases |words|
  {
    if words != [] {
      var pre := words[..|words| - 1];
      var word := words[|words| - 1];
      PackBreaks(pre, effective, width);
      PackPartitions(pre, effective, width);
      var p := Pack(pre, effective, width);
      var g0 := Groups(pre, effective, width);
      var g := Groups(words, effective, width);
      var w := LineWidth(p.open, width);
      if w + StringWidth(word, width) + 1 > effective && w > 0 {
        assert g == g0 + [[word]];
        forall i | 0 <= i < |g| - 1
          ensures BreakAfter(g, i, effective, width)
        {
          if i < |g0| - 1 {
            assert BreakAfter(g0, i, effective, width);
          }
        }
      } else if p.open == [] {
        assert pre == [] && words == [word];
        PackOneWord(word, effective, width);
      } else {
        assert g == p.full + [p.open + [word]];
        assert g0 == p.full + [p.open];
        assert (p.open + [word])[0] == p.open[0];
        forall i | 0 <= i < |g| - 1
          ensures BreakAfter(g, i, effective, width)
        {
          assert BreakAfter(g0, i, effective, width);
        }
      }
    }
  }

  // ---------------------------------------------------------------------------
  // Properties of WrapText

  /** The output is the groups of the greedy packing, each prefixed with `indent`. */
  lemma WrapTextIsRender(text: string, maxWidth: int, indent: string, width: char -> nat)
    ensures WrapText(text, maxWidth, indent, width)
         == Render(Groups(Fields(text), Effective(maxWidth, indent, width), width), indent)
  {
    RunRender(Fields(text), indent, Effective(maxWidth, indent, width), width);
  }

  lemma {:induction false} WordsOfRenderedGroups(g: seq<seq<string>>)
    requires forall i :: 0 <= i < |g| ==> AllWords(g[i])
    ensures Words(Dedent(Render(g, ""), 0)) == Flatten(g)
  {
    if g != [] {
      FieldsOfJoinedWords(g[0]);
      WordsOfRenderedGroups(g[1..]);
      assert Dedent(Render(g, ""), 0)[1..] == Dedent(Render(g[1..], ""), 0);
    }
  }

  /** No word is lost, split or reordered: each line is `indent` followed by a non-empty body
      whose words are separated by single spaces, and the words of the bodies, read line after
      line, are exactly the fields of `text`. */
  lemma WrapKeepsWords(text: string, maxWidth: int, indent: string, width: char -> nat)
    ensures var lines := WrapText(text, maxWidth, indent, width);
      var bodies := Dedent(lines, |indent|);
      && (forall i :: 0 <= i < |lines| ==> lines[i] == indent + bodies[i])
      && (forall i :: 0 <= i < |bodies| ==> Fields(bodies[i]) != [] && bodies[i] == Join(Fields(bodies[i]), " "))
      && Words(bodies) == Fields(text)
  {
    var eff := Effective(maxWidth, indent, width);
    WrapTextIsRender(text, maxWidth, indent, width);
    GroupsPartition(Fields(text), eff, width);
    RenderedBodies(Groups(Fields(text), eff, width), indent);
  }

  /** Rendered groups of words: each line is `indent` and a body holding the group's words
      joined by single spaces. */
  lemma RenderedBodies(g: seq<seq<string>>, indent: string)
    requires forall i :: 0 <= i < |g| ==> g[i] != [] && AllWords(g[i])
    ensures var lines := Render(g, indent);
      var bodies := Dedent(lines, |indent|);
      && (forall i :: 0 <= i < |lines| ==> lines[i] == indent + bodies[i])
      && (forall i :: 0 <= i < |bodies| ==> Fields(bodies[i]) != [] && bodies[i] == Join(Fields(bodies[i]), " "))
      && Words(bodies) == Flatten(g)
  {
    var bodies := Dedent(Render(g, indent), |indent|);
    assert bodies == Dedent(Render(g, ""), 0);
    forall i | 0 <= i < |bodies|
      ensures Fields(bodies[i]) == g[i]
    {
      FieldsOfJoinedWords(g[i]);
    }
    WordsOfRenderedGroups(g);
  }

  /** Wrapping yields no line exactly when the text has no word ("" or only spaces). */
  lemma WrapEmptyIff(text: string, maxWidth: int, indent: string, width: char -> nat)
    ensures WrapText(text, maxWidth, indent, width) == [] <==> AllSpace(text)
  {
    WrapTextIsRender(text, maxWidth, indent, width);
    FieldsEmptyIffAllSpace(text);
  }

  /** A text of a single word is one line: `indent` and the word. */
  lemma PackOneWord(w: string, effective: int, width: char -> nat)
    ensures Pack([w], effective, width) == Packing([], [w])
  {
    assert [w][..0] == [];
  }

  lemma WrapSingleWord(text: string, maxWidth: int, indent: string, width: char -> nat)
    requires |Fields(text)| == 1
    ensures WrapText(text, maxWidth, indent, width) == [indent + Fields(text)[0]]
  {
    var w := Fields(text)[0];
    assert Fields(text) == [w];
    PackOneWord(w, Effective(maxWidth, indent, width), width);
    WrapTextIsRender(text, maxWidth, indent, width);
    assert Render([[w]], indent)[0] == indent + w;
  }

  lemma WrapHelloExample(width: char -> nat)
    ensures WrapText("hello", 60, ">> ", width) == [">> hello"]
  {
    assert ">> " + "hello" == ">> hello";
    LowerCaseWord("hello");
    WrapWord("hello", 60, ">> ", width);
  }

  lemma LowerCaseWord(w: string)
    requires |w| > 0 && forall i :: 0 <= i < |w| ==> 'a' <= w[i] <= 'z'
    ensures IsWord(w)
  {
  }

  lemma WrapWord(w: string, maxWidth: int, indent: string, width: char -> nat)
    requires IsWord(w)
    ensures WrapText(w, maxWidth, indent, width) == [indent + w]
  {
    FieldsOfWord(w);
    WrapSingleWord(w, maxWidth, indent, width);
  }

  /** Only a lone word may be wider than the effective width: every line body holding two or
      more words fits in `maxWidth - width(indent)` cells. */
  lemma WrapWidthBound(text: string, maxWidth: int, indent: string, width: char -> nat)
    requires CellWidths(width)
    ensures var bodies := Dedent(WrapText(text, maxWidth, indent, width), |indent|);
      forall i :: 0 <= i < |bodies| && |Fields(bodies[i])| >= 2 ==>
        StringWidth(bodies[i], width) <= Effective(maxWidth, indent, width)
  {
    var eff := Effective(maxWidth, indent, width);
    var words := Fields(text);
    var g := Groups(words, eff, width);
    WrapTextIsRender(text, maxWidth, indent, width);
    GroupsPartition(words, eff, width);
    GroupsFit(words, eff, width);
    var bodies := Dedent(WrapText(text, maxWidth, indent, width), |indent|);
    forall i | 0 <= i < |bodies| && |Fields(bodies[i])| >= 2
      ensures StringWidth(bodies[i], width) <= eff
    {
      FieldsOfJoinedWords(g[i]);
      assert bodies[i] == Join(g[i], " ");
      assert Fits(g[i], eff, width);
    }
  }

  /** Every line whose text after the indent holds two or more words is at most `effective`
      cells wide (a lone word may be wider). */
  predicate LinesFit(lines: seq<string>, indent: string, effective: int, width: char -> nat)
  {
    forall i :: 0 <= i < |lines| && |indent| <= |lines[i]| && |Fields(lines[i][|indent|..])| >= 2 ==>
      StringWidth(lines[i][|indent|..], width) <= effective
  }

  lemma WrapFits(text: string, maxWidth: int, indent: string, width: char -> nat)
    requires CellWidths(width)
    ensures LinesFit(WrapText(text, maxWidth, indent, width), indent, Effective(maxWidth, indent, width), width)
  {
    var lines := WrapText(text, maxWidth, indent, width);
    var bodies := Dedent(lines, |indent|);
    WrapWidthBound(text, maxWidth, indent, width);
    forall i | 0 <= i < |lines| && |indent| <= |lines[i]|
      ensures lines[i][|indent|..] == bodies[i]
    {
    }
  }

  lemma FitsAppend(a: seq<string>, b: seq<string>, indent: string, effective: int, width: char -> nat)
    requires LinesFit(a, indent, effective, width) && LinesFit(b, indent, effective, width)
    ensures LinesFit(a + b, indent, effective, width)
  {
    forall i | |a| <= i < |a + b|
      ensures (a + b)[i] == b[i - |a|]
    {
    }
  }

  /** A bare indent holds no word. */
  lemma SpacerFits(indent: string, effective: int, width: char -> nat)
    ensures LinesFit([indent], indent, effective, width)
  {
    assert [indent][0][|indent|..] == [];
  }

  lemma {:induction false} FitsFlatten(xss: seq<seq<string>>, indent: string, effective: int, width: char -> nat)
    requires forall i :: 0 <= i < |xss| ==> LinesFit(xss[i], indent, effective, width)
    ensures LinesFit(Flatten(xss), indent, effective, width)
  {
    if xss != [] {
      FitsFlatten(xss[1..], indent, effective, width);
      FitsAppend(xss[0], Flatten(xss[1..]), indent, effective, width);
    }
  }

  /** Each text wrapped on its own. */
  function WrapEach(texts: seq<string>, maxWidth: int, indent: string, width: char -> nat): (blocks: seq<seq<string>>)
    ensures |blocks| == |texts|
  {
    seq(|texts|, i requires 0 <= i < |texts| => WrapText(texts[i], maxWidth, indent, width))
  }

  lemma WrapEachCons(t: string, r: seq<string>, maxWidth: int, indent: string, width: char -> nat)
    ensures WrapEach([t] + r, maxWidth, indent, width) == [WrapText(t, maxWidth, indent, width)] + WrapEach(r, maxWidth, indent, width)
  {
  }

  /** Line `i` was ended by a forced break: its body has positive width and the first word of
      line `i + 1`, after a separating space, would exceed the effective width. */
  predicate ForcedBreak(bodies: seq<string>, i: int, effective: int, width: char -> nat)
  {
    && 0 <= i < |bodies| - 1
    && Fields(bodies[i + 1]) != []
    && StringWidth(bodies[i], width) > 0
    && StringWidth(bodies[i], width) + StringWidth(Fields(bodies[i + 1])[0], width) + 1 > effective
  }

  /** A line ends only when it must: every break between two lines is forced. */
  lemma WrapBreaksOnlyWhenFull(text: string, maxWidth: int, indent: string, width: char -> nat)
    ensures var bodies := Dedent(WrapText(text, maxWidth, indent, width), |indent|);
      forall i :: 0 <= i < |bodies| - 1 ==> ForcedBreak(bodies, i, Effective(maxWidth, indent, width), width)
  {
    var eff := Effective(maxWidth, indent, width);
    var words := Fields(text);
    WrapTextIsRender(text, maxWidth, indent, width);
    GroupsPartition(words, eff, width);
    PackBreaks(words, eff, width);
    RenderedBreaks(Groups(words, eff, width), indent, eff, width);
  }

  /** Groups separated by forced breaks render to line bodies separated by forced breaks. */
  lemma RenderedBreaks(g: seq<seq<string>>, indent: string, effective: int, width: char -> nat)
    requires forall i :: 0 <= i < |g| ==> g[i] != [] && AllWords(g[i])
    requires forall i :: 0 <= i < |g| - 1 ==> BreakAfter(g, i, effective, width)
    ensures var bodies := Dedent(Render(g, indent), |indent|);
      forall i :: 0 <= i < |bodies| - 1 ==> ForcedBreak(bodies, i, effective, width)
  {
    var bodies := Dedent(Render(g, indent), |indent|);
    forall i | 0 <= i < |bodies| - 1
      ensures ForcedBreak(bodies, i, effective, width)
    {
      assert BreakAfter(g, i, effective, width);
      FieldsOfJoinedWords(g[i + 1]);
      assert bodies[i] == Join(g[i], " ");
    }
  }

  /** Wrapping depends only on the words: re-joining the line bodies with single spaces and
      wrapping again reproduces the same lines. */
  lemma WrapRewrapStable(text: string, maxWidth: int, indent: string, width: char -> nat)
    ensures var lines := WrapText(text, maxWidth, indent, width);
      WrapText(Join(Dedent(lines, |indent|), " "), maxWidth, indent, width) == lines
  {
    var lines := WrapText(text, maxWidth, indent, width);
    WrapKeepsWords(text, maxWidth, indent, width);
    FieldsOfJoin(Dedent(lines, |indent|), " ");
  }

  /** The flush test looks at the width of the line buffer, the separator test at its length:
      after a first word of width zero, the next word joins the line whatever its width. */
  lemma ZeroWidthWordSkipsWidthTest(z: string, v: string, maxWidth: int, indent: string, width: char -> nat)
    requires IsWord(z) && IsWord(v) && StringWidth(z, width) == 0
    ensures WrapText(z + " " + v, maxWidth, indent, width) == [indent + z + " " + v]
  {
    var eff := Effective(maxWidth, indent, width);
    var t := z + " " + v;
    JoinTwo(z, v);
    FieldsOfJoinedWords([z, v]);
    PackAfterZeroWidth(z, v, eff, width);
    assert Groups([z, v], eff, width) == [[z, v]];
    WrapTextIsRender(t, maxWidth, indent, width);
    assert Render([[z, v]], indent) == [indent + t];
    ConcatAssoc(indent, z + " ", v);
    ConcatAssoc(indent, z, " ");
  }

  lemma JoinTwo(z: string, v: string)
    ensures Join([z, v], " ") == z + " " + v
  {
    assert [z, v][1..] == [v];
  }

  lemma PackAfterZeroWidth(z: string, v: string, effective: int, width: char -> nat)
    requires StringWidth(z, width) == 0
    ensures Pack([z, v], effective, width) == Packing([], [z, v])
  {
    assert [z, v][..1] == [z];
    PackOneWord(z, effective, width);
    assert LineWidth([z], width) == 0;
  }
}
