/**
  The comment thread view (`formatComments`). Comments arrive in document order, each
  carrying its nesting depth. Each comment becomes a block: a header naming the author
  (and the time), the body wrapped at 60 cells behind a depth-dependent indent (or a
  deleted marker), a "[...]" line for comments nested deeper than 10, and a separator.

  `EmitComments` follows the source loop, which appends to one growing list of lines
  and removes a trailing spacer by looking at that whole list. `CommentBlock` describes
  the lines of one comment on their own; `ThreadIsBlocks` shows that the view is the
  concatenation of the blocks, so comments do not influence each other.
 */
module Thread {
  import opened Base
  import opened Text
  import opened Records
  import opened Wrap

  /** Width, in cells, that comment text is wrapped to. */
  const MaxWidth: int := 60

  /** Deeper comments are indented no further than this depth. */
  const MaxVisualDepth: nat := 4

  /** Comments nested deeper than this get a "[...]" line. */
  const MaxDepth: nat := 10

  /** The body line shown for a comment with an empty body. */
  const Deleted: string := "[삭제됨]"

  /** The line that closes every comment. */
  const Separator: string := "  "

  /** The depths are valid repeat counts (`strings.Repeat` panics on a negative count). */
  predicate ValidDepths(cs: seq<Comment>)
  {
    forall i :: 0 <= i < |cs| ==> cs[i].depth >= 0
  }

  function VisualDepth(depth: nat): nat
  {
    if depth < MaxVisualDepth then depth else MaxVisualDepth
  }

  /** Two groups of three spaces per visual level, then the bar. */
  function Indent(depth: nat): string
  {
    Repeat("   ", VisualDepth(depth) * 2) + "| "
  }

  /** The author line: the indent, the author, the time in parentheses when there is one,
      and the honorific suffix. */
  function Header(c: Comment, indent: string): string
  {
    var withTime := if c.time != "" then indent + c.author + " (" + c.time + ")" else indent + c.author;
    withTime + " 님:"
  }

  // ---------------------------------------------------------------------------
  // The source loop

  /** The lines of one paragraph: nothing when it is blank after trimming, otherwise the
      trimmed paragraph wrapped behind `indent` and a bare-indent spacer line. */
  function ParagraphBlock(p: string, indent: string, width: char -> nat): seq<string>
  {
    var t := TrimSpace(p);
    if t == "" then [] else WrapText(t, MaxWidth, indent, width) + [indent]
  }

  /** The paragraph loop, appending the lines of each paragraph to `lines`. */
  function EmitParagraphs(lines: seq<string>, paras: seq<string>, indent: string, width: char -> nat): seq<string>
    decreases |paras|
  {
    if paras == [] then lines
    else EmitParagraphs(lines + ParagraphBlock(paras[0], indent, width), paras[1..], indent, width)
  }

  /** `lines` without its last line when that line is the bare spacer. */
  function DropSpacer(lines: seq<string>, spacer: string): seq<string>
  {
    if |lines| > 0 && lines[|lines| - 1] == spacer then lines[..|lines| - 1] else lines
  }

  /** One pass of the comment loop, appending the lines of `c` to `lines`. */
  function EmitComment(lines: seq<string>, c: Comment, width: char -> nat): seq<string>
    requires c.depth >= 0
  {
    var indent := Indent(c.depth);
    var withHeader := lines + [Header(c, indent)];
    var withBody :=
      if c.body == "" then withHeader + [indent + Deleted]
      else DropSpacer(EmitParagraphs(withHeader, Split(c.body, "\n\n"), indent, width), indent);
    var withMarker := if c.depth > MaxDepth then withBody + [indent + "[...]"] else withBody;
    withMarker + [Separator]
  }

  /** The comment loop. Although it works on one growing list, it appends to the lines it
      starts from exactly the blocks of the comments, in order. */
  function EmitComments(lines: seq<string>, cs: seq<Comment>, width: char -> nat): (r: seq<string>)
    requires ValidDepths(cs)
    ensures r == lines + Blocks(cs, width)
    decreases |cs|
  {
    if cs == [] then
      assert lines + [] == lines;
      lines
    else
      var b := CommentBlock(cs[0], width);
      EmitCommentAppends(lines, cs[0], width);
      ConcatAssoc(lines, b, Blocks(cs[1..], width));
      EmitComments(EmitComment(lines, cs[0], width), cs[1..], width)
  }

  /** `formatComments`, with `width` as the cell width of a character. */
  function FormatComments(cs: seq<Comment>, width: char -> nat): (lines: seq<string>)
    requires ValidDepths(cs)
    ensures lines == [] <==> cs == []
    ensures |lines| >= 2 * |cs|
    ensures cs != [] ==> lines[0] == Header(cs[0], Indent(cs[0].depth)) && lines[|lines| - 1] == Separator
  {
    BlocksShape(cs, width);
    assert [] + Blocks(cs, width) == Blocks(cs, width);
    EmitComments([], cs, width)
  }

  // ---------------------------------------------------------------------------
  // One comment on its own

  /** The wrapped non-blank paragraphs, each followed by a spacer. */
  function ParagraphBlocks(paras: seq<string>, indent: string, width: char -> nat): seq<string>
  {
    if paras == [] then [] else ParagraphBlock(paras[0], indent, width) + ParagraphBlocks(paras[1..], indent, width)
  }

  /** The body lines of one comment. */
  function BodyBlock(c: Comment, width: char -> nat): seq<string>
    requires c.depth >= 0
  {
    var indent := Indent(c.depth);
    if c.body == "" then [indent + Deleted]
    else DropSpacer(ParagraphBlocks(Split(c.body, "\n\n"), indent, width), indent)
  }

  /** The "[...]" line, present exactly for comments nested deeper than `MaxDepth`. */
  function DepthMarker(c: Comment): seq<string>
    requires c.depth >= 0
  {
    if c.depth > MaxDepth then [Indent(c.depth) + "[...]"] else []
  }

  /** All lines of one comment: header, body, depth marker, separator. */
  function CommentBlock(c: Comment, width: char -> nat): seq<string>
    requires c.depth >= 0
  {
    [Header(c, Indent(c.depth))] + BodyBlock(c, width) + DepthMarker(c) + [Separator]
  }

  /** The blocks of the comments, one after the other. */
  function Blocks(cs: seq<Comment>, width: char -> nat): seq<string>
    requires ValidDepths(cs)
  {
    if cs == [] then [] else CommentBlock(cs[0], width) + Blocks(cs[1..], width)
  }

  /** Every comment contributes at least its header and its separator: the blocks open with
      the first header and close with a separator. */
  lemma {:induction false} BlocksShape(cs: seq<Comment>, width: char -> nat)
    requires ValidDepths(cs)
    ensures |Blocks(cs, width)| >= 2 * |cs|
    ensures cs != [] ==> Blocks(cs, width)[0] == Header(cs[0], Indent(cs[0].depth))
    ensures cs != [] ==> Blocks(cs, width)[|Blocks(cs, width)| - 1] == Separator
  {
    if cs != [] {
      BlocksShape(cs[1..], width);
      var b := CommentBlock(cs[0], width);
      var r := Blocks(cs[1..], width);
      assert Blocks(cs, width) == b + r;
      assert b[0] == Header(cs[0], Indent(cs[0].depth));
      assert b[|b| - 1] == Separator;
      if r != [] {
        assert (b + r)[|b + r| - 1] == r[|r| - 1];
      }
    }
  }

  // ---------------------------------------------------------------------------
  // The loop is the concatenation of the blocks

  lemma EmitParagraphsStep(lines: seq<string>, paras: seq<string>, indent: string, width: char -> nat)
    requires paras != []
    ensures EmitParagraphs(lines, paras, indent, width)
         == EmitParagraphs(lines + ParagraphBlock(paras[0], indent, width), paras[1..], indent, width)
  {
  }

  lemma ParagraphBlocksStep(paras: seq<string>, indent: string, width: char -> nat)
    requires paras != []
    ensures ParagraphBlocks(paras, indent, width)
         == ParagraphBlock(paras[0], indent, width) + ParagraphBlocks(paras[1..], indent, width)
  {
  }

  lemma {:induction false} EmitParagraphsAppends(lines: seq<string>, paras: seq<string>, indent: string, width: char -> nat)
    ensures EmitParagraphs(lines, paras, indent, width) == lines + ParagraphBlocks(paras, indent, width)
    decreases |paras|
  {
    if paras != [] {
      var head := ParagraphBlock(paras[0], indent, width);
      var rest := ParagraphBlocks(paras[1..], indent, width);
      EmitParagraphsStep(lines, paras, indent, width);
      ParagraphBlocksStep(paras, indent, width);
      EmitParagraphsAppends(lines + head, paras[1..], indent, width);
      ConcatAssoc(lines, head, rest);
    } else {
      assert lines + [] == lines;
    }
  }

  /** The header is longer than the indent, so it is never taken for a spacer. */
  lemma HeaderIsNotIndent(c: Comment, indent: string)
    ensures |Header(c, indent)| > |indent|
  {
  }

  /** The spacer test only looks past `h` when lines follow it. */
  lemma DropSpacerAfter(pre: seq<string>, h: string, p: seq<string>, spacer: string)
    requires h != spacer
    ensures DropSpacer(pre + [h] + p, spacer) == pre + [h] + DropSpacer(p, spacer)
  {
    var l := pre + [h] + p;
    if p == [] {
      assert l == pre + [h];
    } else {
      assert l[|l| - 1] == p[|p| - 1];
      assert l[..|l| - 1] == pre + [h] + p[..|p| - 1];
    }
  }

  lemma AppendFive<T>(lines: seq<T>, h: T, b: seq<T>, m: seq<T>, sep: T)
    ensures lines + [h] + b + m + [sep] == lines + ([h] + b + m + [sep])
  {
  }

  /** The body lines the loop appends after the header. */
  lemma EmitBodyAppends(lines: seq<string>, c: Comment, width: char -> nat)
    requires c.depth >= 0
    ensures var indent := Indent(c.depth);
      var withHeader := lines + [Header(c, indent)];
      c.body != "" ==>
        DropSpacer(EmitParagraphs(withHeader, Split(c.body, "\n\n"), indent, width), indent)
        == withHeader + BodyBlock(c, width)
  {
    var indent := Indent(c.depth);
    var h := Header(c, indent);
    if c.body != "" {
      var paras := Split(c.body, "\n\n");
      EmitParagraphsAppends(lines + [h], paras, indent, width);
      HeaderIsNotIndent(c, indent);
      DropSpacerAfter(lines, h, ParagraphBlocks(paras, indent, width), indent);
    }
  }

  /** One pass of the loop appends exactly the block of the comment: the trailing-spacer test,
      although it looks at all lines so far, only ever removes a spacer of this comment. */
  lemma EmitCommentAppends(lines: seq<string>, c: Comment, width: char -> nat)
    requires c.depth >= 0
    ensures EmitComment(lines, c, width) == lines + CommentBlock(c, width)
  {
    var indent := Indent(c.depth);
    var h := Header(c, indent);
    EmitBodyAppends(lines, c, width);
    AppendFive(lines, h, BodyBlock(c, width), DepthMarker(c), Separator);
  }

  lemma {:induction false} BlocksAppend(a: seq<Comment>, b: seq<Comment>, width: char -> nat)
    requires ValidDepths(a) && ValidDepths(b)
    ensures ValidDepths(a + b)
    ensures Blocks(a + b, width) == Blocks(a, width) + Blocks(b, width)
  {
    if a == [] {
      assert a + b == b;
    } else {
      assert (a + b)[1..] == a[1..] + b;
      BlocksAppend(a[1..], b, width);
      ConcatAssoc(CommentBlock(a[0], width), Blocks(a[1..], width), Blocks(b, width));
    }
  }

  /** The view is the concatenation of the blocks of the comments, in input order. */
  lemma ThreadIsBlocks(cs: seq<Comment>, width: char -> nat)
    requires ValidDepths(cs)
    ensures FormatComments(cs, width) == Blocks(cs, width)
  {
    assert [] + Blocks(cs, width) == Blocks(cs, width);
  }

  /** Comments do not influence each other's lines: the view of two runs of comments is the
      view of the first followed by the view of the second. */
  lemma ThreadAppend(a: seq<Comment>, b: seq<Comment>, width: char -> nat)
    requires ValidDepths(a) && ValidDepths(b)
    ensures ValidDepths(a + b)
    ensures FormatComments(a + b, width) == FormatComments(a, width) + FormatComments(b, width)
  {
    BlocksAppend(a, b, width);
    ThreadIsBlocks(a + b, width);
    ThreadIsBlocks(a, width);
    ThreadIsBlocks(b, width);
  }

  /** The lines of one comment: its header, its body, the "[...]" line exactly when it is
      nested deeper than 10, and the separator. */
  lemma ThreadSingle(c: Comment, width: char -> nat)
    requires c.depth >= 0
    ensures FormatComments([c], width)
         == [Header(c, Indent(c.depth))] + BodyBlock(c, width)
            + (if c.depth > 10 then [Indent(c.depth) + "[...]"] else []) + ["  "]
  {
    ThreadIsBlocks([c], width);
    assert [c][1..] == [];
    assert Blocks([c], width) == CommentBlock(c, width) + [];
  }

  /** Header, body and separator of one comment. */
  function ShallowBlock(c: Comment, width: char -> nat): seq<string>
    requires c.depth >= 0
  {
    [Header(c, Indent(c.depth))] + BodyBlock(c, width) + [Separator]
  }

  function ShallowBlocks(cs: seq<Comment>, width: char -> nat): seq<string>
    requires ValidDepths(cs)
  {
    if cs == [] then [] else ShallowBlock(cs[0], width) + ShallowBlocks(cs[1..], width)
  }

  lemma ShallowCommentBlock(c: Comment, width: char -> nat)
    requires 0 <= c.depth <= 10
    ensures CommentBlock(c, width) == ShallowBlock(c, width)
  {
    var h := [Header(c, Indent(c.depth))];
    var b := BodyBlock(c, width);
    assert DepthMarker(c) == [];
    assert h + b + [] == h + b;
  }

  /** For comments nested at most 10 deep the view has no "[...]" line: each comment shows
      exactly its header, its body and the separator. */
  lemma {:induction false} ShallowThread(cs: seq<Comment>, width: char -> nat)
    requires forall i :: 0 <= i < |cs| ==> 0 <= cs[i].depth <= 10
    ensures FormatComments(cs, width) == ShallowBlocks(cs, width)
  {
    ThreadIsBlocks(cs, width);
    ShallowBlocksAgree(cs, width);
  }

  lemma {:induction false} ShallowBlocksAgree(cs: seq<Comment>, width: char -> nat)
    requires forall i :: 0 <= i < |cs| ==> 0 <= cs[i].depth <= 10
    ensures Blocks(cs, width) == ShallowBlocks(cs, width)
  {
    if cs != [] {
      ShallowCommentBlock(cs[0], width);
      ShallowBlocksAgree(cs[1..], width);
    }
  }

  // ---------------------------------------------------------------------------
  // Indentation

  lemma {:induction false} RepeatSpaces(n: nat)
    ensures forall i :: 0 <= i < |Repeat("   ", n)| ==> Repeat("   ", n)[i] == ' '
  {
    if n > 0 {
      RepeatSpaces(n - 1);
      var r := Repeat("   ", n);
      assert r == "   " + Repeat("   ", n - 1);
      forall i | 3 <= i < |r|
        ensures r[i] == ' '
      {
        assert r[i] == Repeat("   ", n - 1)[i - 3];
      }
    }
  }

  /** The indent is 6 spaces per visual level, at most four levels, followed by "| ". */
  lemma IndentShape(depth: nat)
    ensures var ind := Indent(depth);
      && |ind| == 6 * (if depth < 4 then depth else 4) + 2
      && (forall i :: 0 <= i < |ind| - 2 ==> ind[i] == ' ')
      && ind[|ind| - 2..] == "| "
  {
    var n := VisualDepth(depth) * 2;
    RepeatSpaces(n);
    var ind := Indent(depth);
    assert ind[..|ind| - 2] == Repeat("   ", n);
  }

  /** Deeper comments are never indented less; up to depth 4 each level indents further,
      and from depth 4 on the indent no longer changes. */
  lemma IndentGrows(d1: nat, d2: nat)
    requires d1 <= d2
    ensures |Indent(d1)| <= |Indent(d2)|
    ensures d1 < d2 && d1 < 4 ==> |Indent(d1)| < |Indent(d2)|
    ensures d1 >= 4 ==> Indent(d1) == Indent(d2)
  {
    IndentShape(d1);
    IndentShape(d2);
  }

  lemma IndentIsNotSeparator(depth: nat, line: string)
    requires Indent(depth) <= line
    ensures line != Separator
  {
    IndentShape(depth);
    var ind := Indent(depth);
    assert line[..|ind|] == ind;
    assert line[|ind| - 2] == '|';
  }

  // ---------------------------------------------------------------------------
  // The body of one comment

  /** Every line starts with the indent. */
  predicate Indented(lines: seq<string>, indent: string)
  {
    forall i :: 0 <= i < |lines| ==> indent <= lines[i]
  }

  lemma WrappedLinesAreNotIndent(t: string, indent: string, width: char -> nat)
    ensures var w := WrapText(t, MaxWidth, indent, width);
      forall i :: 0 <= i < |w| ==> indent <= w[i] && w[i] != indent
  {
    WrapKeepsWords(t, MaxWidth, indent, width);
    var w := WrapText(t, MaxWidth, indent, width);
    var bodies := Dedent(w, |indent|);
    forall i | 0 <= i < |w|
      ensures indent <= w[i] && w[i] != indent
    {
      assert w[i] == indent + bodies[i];
      assert Fields(bodies[i]) != [];
    }
  }

  lemma ParagraphBlockShape(p: string, indent: string, width: char -> nat)
    ensures var b := ParagraphBlock(p, indent, width);
      && (TrimSpace(p) == "" <==> b == [])
      && ClosedBlock(b, indent)
      && Indented(b, indent)
  {
    var t := TrimSpace(p);
    if t != "" {
      var w := WrapText(t, MaxWidth, indent, width);
      WrappedLinesAreNotIndent(t, indent, width);
      WrapEmptyIff(t, MaxWidth, indent, width);
      assert !IsSpace(t[0]);
      ClosedByIndent(w, indent);
    }
  }

  /** Non-empty indented text lines closed by a bare indent form a closed block. */
  lemma ClosedByIndent(w: seq<string>, indent: string)
    requires w != [] && forall i :: 0 <= i < |w| ==> indent <= w[i] && w[i] != indent
    ensures ClosedBlock(w + [indent], indent) && Indented(w + [indent], indent)
  {
    var b := w + [indent];
    assert forall i :: 0 <= i < |w| ==> b[i] == w[i];
  }

  lemma {:induction false} ParagraphBlocksShape(paras: seq<string>, indent: string, width: char -> nat)
    ensures var p := ParagraphBlocks(paras, indent, width);
      && SpacerClosed(p, indent)
      && Count(p, indent) == CountNonBlank(paras)
      && Indented(p, indent)
  {
    if paras != [] {
      var b := ParagraphBlock(paras[0], indent, width);
      var r := ParagraphBlocks(paras[1..], indent, width);
      ParagraphBlocksStep(paras, indent, width);
      ParagraphBlockShape(paras[0], indent, width);
      ParagraphBlocksShape(paras[1..], indent, width);
      PrependIndented(b, r, indent);
    }
  }

  /** A closed block of indented lines put in front of closed blocks of indented lines. */
  lemma PrependIndented(b: seq<string>, r: seq<string>, indent: string)
    requires ClosedBlock(b, indent) && Indented(b, indent)
    requires SpacerClosed(r, indent) && Indented(r, indent)
    ensures SpacerClosed(b + r, indent)
    ensures Count(b + r, indent) == (if b == [] then 0 else 1) + Count(r, indent)
    ensures Indented(b + r, indent)
  {
    PrependBlock(b, r, indent);
    forall i | 0 <= i < |b + r|
      ensures indent <= (b + r)[i]
    {
      if i >= |b| {
        assert (b + r)[i] == r[i - |b|];
      }
    }
  }

  /** Spacers only stand between blocks: never first, never last, never two in a row. */
  predicate SpacerSeparated(lines: seq<string>, spacer: string)
  {
    forall i :: 0 <= i < |lines| && lines[i] == spacer ==>
      0 < i < |lines| - 1 && lines[i - 1] != spacer && lines[i + 1] != spacer
  }

  lemma DropClosingSpacer(lines: seq<string>, spacer: string)
    requires SpacerClosed(lines, spacer)
    ensures var d := DropSpacer(lines, spacer);
      && SpacerSeparated(d, spacer)
      && (lines != [] ==> lines == d + [spacer] && Count(d, spacer) + 1 == Count(lines, spacer))
  {
    if lines != [] {
      var d := lines[..|lines| - 1];
      assert lines == d + [spacer];
      CountAppend(d, [spacer], spacer);
      assert Count([spacer], spacer) == 1 + Count([], spacer);
      forall i | 0 <= i < |d| && d[i] == spacer
        ensures 0 < i < |d| - 1 && d[i - 1] != spacer && d[i + 1] != spacer
      {
        assert lines[i] == spacer;
        assert lines[|lines| - 1] == spacer;
      }
    }
  }

  lemma {:induction false} DedentAppend(a: seq<string>, b: seq<string>, n: nat)
    ensures Dedent(a + b, n) == Dedent(a, n) + Dedent(b, n)
  {
  }

  /** A closing spacer line carries no word. */
  lemma WordsWithSpacer(d: seq<string>, indent: string)
    ensures Words(Dedent(d + [indent], |indent|)) == Words(Dedent(d, |indent|))
  {
    DedentAppend(d, [indent], |indent|);
    assert Dedent([indent], |indent|) == [""];
    WordsAppend(Dedent(d, |indent|), [""]);
    assert Words([""]) == Fields("") + Words([]);
  }

  lemma ParagraphBlockWords(p: string, indent: string, width: char -> nat)
    ensures Words(Dedent(ParagraphBlock(p, indent, width), |indent|)) == Fields(p)
  {
    var t := TrimSpace(p);
    FieldsOfTrimSpace(p);
    TrimSpaceEmptyIffAllSpace(p);
    if t != "" {
      var w := WrapText(t, MaxWidth, indent, width);
      WrapKeepsWords(t, MaxWidth, indent, width);
      WordsWithSpacer(w, indent);
    }
  }

  lemma {:induction false} ParagraphBlocksWords(paras: seq<string>, indent: string, width: char -> nat)
    ensures Words(Dedent(ParagraphBlocks(paras, indent, width), |indent|)) == Words(paras)
  {
    if paras != [] {
      var n := |indent|;
      var b := ParagraphBlock(paras[0], indent, width);
      var r := ParagraphBlocks(paras[1..], indent, width);
      ParagraphBlocksStep(paras, indent, width);
      ParagraphBlockWords(paras[0], indent, width);
      ParagraphBlocksWords(paras[1..], indent, width);
      DedentAppend(b, r, n);
      WordsAppend(Dedent(b, n), Dedent(r, n));
      WordsStep(paras);
    }
  }

  lemma {:induction false} ParagraphBlocksEmptyIff(paras: seq<string>, indent: string, width: char -> nat)
    ensures ParagraphBlocks(paras, indent, width) == [] <==> Words(paras) == []
  {
    if paras != [] {
      ParagraphBlocksStep(paras, indent, width);
      ParagraphBlockShape(paras[0], indent, width);
      TrimSpaceEmptyIffAllSpace(paras[0]);
      ParagraphBlocksEmptyIff(paras[1..], indent, width);
      WordsStep(paras);
    }
  }

  /** The wrapped paragraphs of a body hold the body's words. */
  lemma BodyParagraphsWords(paras: seq<string>, body: string, indent: string, width: char -> nat)
    requires Join(paras, "\n\n") == body
    ensures Words(Dedent(ParagraphBlocks(paras, indent, width), |indent|)) == Fields(body)
  {
    ParagraphBlocksWords(paras, indent, width);
    FieldsOfLines(paras, "\n\n");
  }

  /** There are no wrapped paragraphs exactly when the body is only spaces. */
  lemma BodyParagraphsEmptyIff(paras: seq<string>, body: string, indent: string, width: char -> nat)
    requires Join(paras, "\n\n") == body
    ensures ParagraphBlocks(paras, indent, width) == [] <==> AllSpace(body)
  {
    ParagraphBlocksEmptyIff(paras, indent, width);
    FieldsOfLines(paras, "\n\n");
    FieldsEmptyIffAllSpace(body);
  }

  /** Dropping the closing spacer keeps the words and the indentation, and leaves one spacer
      fewer, none of them at either end. */
  lemma DroppedSpacer(p: seq<string>, indent: string, words: seq<string>, blank: bool, n: nat)
    requires SpacerClosed(p, indent) && Indented(p, indent)
    requires Words(Dedent(p, |indent|)) == words && (p == [] <==> blank) && Count(p, indent) == n
    ensures var b := DropSpacer(p, indent);
      && Indented(b, indent)
      && Words(Dedent(b, |indent|)) == words
      && (b == [] <==> blank)
      && SpacerSeparated(b, indent)
      && (b != [] ==> Count(b, indent) + 1 == n)
  {
    DropClosingSpacer(p, indent);
    if p != [] {
      var b := DropSpacer(p, indent);
      WordsWithSpacer(b, indent);
      assert forall i :: 0 <= i < |b| ==> b[i] == p[i];
    }
  }

  /** A comment's body: the deleted marker when the body is empty; otherwise lines that all
      start with the indent, hold the body's words in order, have no line exactly when the
      body is only spaces, and separate paragraphs by single bare-indent lines that neither
      open nor close the body. */
  lemma CommentBody(c: Comment, width: char -> nat)
    requires c.depth >= 0
    ensures var indent := Indent(c.depth);
      var b := BodyBlock(c, width);
      && (c.body == "" ==> b == [indent + "[삭제됨]"])
      && (c.body != "" ==>
            && (forall i :: 0 <= i < |b| ==> indent <= b[i])
            && Words(Dedent(b, |indent|)) == Fields(c.body)
            && (b == [] <==> AllSpace(c.body))
            && SpacerSeparated(b, indent)
            && (b != [] ==> Count(b, indent) + 1 == CountNonBlank(Split(c.body, "\n\n"))))
  {
    if c.body != "" {
      var indent := Indent(c.depth);
      var paras := Split(c.body, "\n\n");
      var p := ParagraphBlocks(paras, indent, width);
      ParagraphBlocksShape(paras, indent, width);
      BodyParagraphsWords(paras, c.body, indent, width);
      BodyParagraphsEmptyIff(paras, c.body, indent, width);
      DroppedSpacer(p, indent, Fields(c.body), AllSpace(c.body), CountNonBlank(paras));
      assert BodyBlock(c, width) == DropSpacer(p, indent);
    }
  }

  // ---------------------------------------------------------------------------
  // Paragraphs as separately wrapped pieces

  lemma {:induction false} ParagraphBlocksArePieces(paras: seq<string>, indent: string, width: char -> nat)
    ensures ParagraphBlocks(paras, indent, width)
         == Flatten(CloseEach(WrapEach(NonBlankPieces(paras), MaxWidth, indent, width), indent))
  {
    if paras != [] {
      var t := TrimSpace(paras[0]);
      var r := NonBlankPieces(paras[1..]);
      ParagraphBlocksStep(paras, indent, width);
      ParagraphBlocksArePieces(paras[1..], indent, width);
      if t != "" {
        WrapEachCons(t, r, MaxWidth, indent, width);
        FlattenCloseCons(WrapText(t, MaxWidth, indent, width), WrapEach(r, MaxWidth, indent, width), indent);
      }
    }
  }

  /** Lines that show exactly the words of `t` behind `indent`: at least one line, each
      starting with the indent and none a bare indent. */
  predicate ShowsIndented(lines: seq<string>, indent: string, t: string)
  {
    && lines != []
    && Words(Dedent(lines, |indent|)) == Fields(t)
    && forall j :: 0 <= j < |lines| ==> indent <= lines[j] && lines[j] != indent
  }

  lemma WrappedPieceShows(t: string, indent: string, width: char -> nat)
    requires Fields(t) != []
    ensures ShowsIndented(WrapText(t, MaxWidth, indent, width), indent, t)
  {
    WrappedLinesAreNotIndent(t, indent, width);
    WrapKeepsWords(t, MaxWidth, indent, width);
    WrapEmptyIff(t, MaxWidth, indent, width);
    FieldsEmptyIffAllSpace(t);
  }

  lemma CountLast(p: seq<string>, x: string)
    requires p != [] && p[|p| - 1] == x
    ensures Count(p, x) > 0
  {
    assert p == p[..|p| - 1] + [x];
    CountAppend(p[..|p| - 1], [x], x);
    assert Count([x], x) == 1 + Count([], x);
  }

  /** The spacer loop over the paragraphs leaves, once its closing spacer is dropped, either
      nothing (no paragraph) or the lines it would have with that spacer put back. */
  lemma DroppedClosingSpacer(p: seq<string>, indent: string, n: nat)
    requires SpacerClosed(p, indent) && Count(p, indent) == n
    ensures n == 0 ==> DropSpacer(p, indent) == []
    ensures n > 0 ==> DropSpacer(p, indent) + [indent] == p
  {
    if p != [] {
      CountLast(p, indent);
      assert p == p[..|p| - 1] + [indent];
    }
  }

  /** A comment body is shown paragraph by paragraph: the k-th run of lines between bare-indent
      spacers is the k-th non-blank paragraph, trimmed and wrapped on its own behind the
      indent, and shows exactly that paragraph's words. With its last spacer put back, the
      body is each wrapped paragraph closed by one spacer. */
  lemma CommentParagraphs(c: Comment, width: char -> nat)
    requires c.depth >= 0
    ensures var indent := Indent(c.depth);
      var ps := NonBlankPieces(Split(c.body, "\n\n"));
      var b := BodyBlock(c, width);
      && (c.body == "" ==> b == [indent + "[삭제됨]"])
      && (c.body != "" ==>
            && Words(ps) == Fields(c.body)
            && (ps == [] ==> b == [])
            && (ps != [] ==> b + [indent] == Flatten(CloseEach(WrapEach(ps, MaxWidth, indent, width), indent))))
      && (forall i :: 0 <= i < |ps| ==> ShowsIndented(WrapEach(ps, MaxWidth, indent, width)[i], indent, ps[i]))
  {
    var indent := Indent(c.depth);
    var paras := Split(c.body, "\n\n");
    var ps := NonBlankPieces(paras);
    if c.body != "" {
      var p := ParagraphBlocks(paras, indent, width);
      ParagraphBlocksArePieces(paras, indent, width);
      ParagraphBlocksShape(paras, indent, width);
      DroppedClosingSpacer(p, indent, |ps|);
      NonBlankPiecesWords(paras);
      FieldsOfLines(paras, "\n\n");
      assert BodyBlock(c, width) == DropSpacer(p, indent);
    }
    forall i | 0 <= i < |ps|
      ensures ShowsIndented(WrapEach(ps, MaxWidth, indent, width)[i], indent, ps[i])
    {
      WrappedPieceShows(ps[i], indent, width);
    }
  }

  // ---------------------------------------------------------------------------
  // Width

  lemma FitsDropSpacer(p: seq<string>, indent: string, effective: int, width: char -> nat)
    requires LinesFit(p, indent, effective, width)
    ensures LinesFit(DropSpacer(p, indent), indent, effective, width)
  {
  }

  lemma ParagraphBlocksFit(paras: seq<string>, indent: string, width: char -> nat)
    requires CellWidths(width)
    ensures LinesFit(ParagraphBlocks(paras, indent, width), indent, Effective(MaxWidth, indent, width), width)
  {
    var eff := Effective(MaxWidth, indent, width);
    var ps := NonBlankPieces(paras);
    var w := WrapEach(ps, MaxWidth, indent, width);
    var blocks := CloseEach(w, indent);
    ParagraphBlocksArePieces(paras, indent, width);
    forall i | 0 <= i < |blocks|
      ensures LinesFit(blocks[i], indent, eff, width)
    {
      WrapFits(ps[i], MaxWidth, indent, width);
      SpacerFits(indent, eff, width);
      FitsAppend(w[i], [indent], indent, eff, width);
    }
    FitsFlatten(blocks, indent, eff, width);
  }

  lemma DeletedFits(indent: string, effective: int, width: char -> nat)
    ensures LinesFit([indent + Deleted], indent, effective, width)
  {
    assert IsWord(Deleted);
    FieldsOfWord(Deleted);
    assert [indent + Deleted][0][|indent|..] == Deleted;
  }

  /** A line of the body that starts with the indent and fits after it fits, indent
      included, in 60 cells. */
  lemma IndentedLineFits(line: string, indent: string, width: char -> nat)
    requires indent <= line
    requires StringWidth(line[|indent|..], width) <= Effective(MaxWidth, indent, width)
    ensures StringWidth(line, width) <= MaxWidth
  {
    assert line == indent + line[|indent|..];
    StringWidthAppend(indent, line[|indent|..], width);
  }

  /** If every character is at least one cell wide, every body line whose text after the indent
      holds two or more words is, indent included, at most 60 cells wide; only a lone word may
      be wider. */
  lemma CommentWidthBound(c: Comment, width: char -> nat)
    requires CellWidths(width) && c.depth >= 0
    ensures var indent := Indent(c.depth);
      var b := BodyBlock(c, width);
      forall i :: 0 <= i < |b| ==>
        && indent <= b[i]
        && (|Fields(b[i][|indent|..])| >= 2 ==> StringWidth(b[i], width) <= 60)
  {
    var indent := Indent(c.depth);
    var eff := Effective(MaxWidth, indent, width);
    var b := BodyBlock(c, width);
    BodyIndented(c, width);
    if c.body == "" {
      DeletedFits(indent, eff, width);
    } else {
      var p := ParagraphBlocks(Split(c.body, "\n\n"), indent, width);
      ParagraphBlocksFit(Split(c.body, "\n\n"), indent, width);
      FitsDropSpacer(p, indent, eff, width);
      assert b == DropSpacer(p, indent);
    }
    assert LinesFit(b, indent, eff, width);
    forall i | 0 <= i < |b| && |Fields(b[i][|indent|..])| >= 2
      ensures StringWidth(b[i], width) <= MaxWidth
    {
      IndentedLineFits(b[i], indent, width);
    }
  }

  /** Each comment ends with exactly one separator line and no other line of the view is a
      separator, so the view has as many separators as there are comments. */
  lemma SeparatorPerComment(cs: seq<Comment>, width: char -> nat)
    requires ValidDepths(cs)
    ensures Count(FormatComments(cs, width), "  ") == |cs|
  {
    ThreadIsBlocks(cs, width);
    BlocksSeparators(cs, width);
  }

  lemma {:induction false} BlocksSeparators(cs: seq<Comment>, width: char -> nat)
    requires ValidDepths(cs)
    ensures Count(Blocks(cs, width), Separator) == |cs|
  {
    if cs != [] {
      BlockSeparators(cs[0], width);
      BlocksSeparators(cs[1..], width);
      CountAppend(CommentBlock(cs[0], width), Blocks(cs[1..], width), Separator);
    }
  }

  lemma BlockSeparators(c: Comment, width: char -> nat)
    requires c.depth >= 0
    ensures Count(CommentBlock(c, width), Separator) == 1
  {
    var indent := Indent(c.depth);
    var h := Header(c, indent);
    var body := BodyBlock(c, width);
    var marker := DepthMarker(c);
    BodyIndented(c, width);
    HeaderIndented(c, indent);
    assert Indented(marker, indent);
    FrontIndented(h, body, marker, indent);
    OneSeparator([h] + body + marker, c.depth);
  }

  lemma BodyIndented(c: Comment, width: char -> nat)
    requires c.depth >= 0
    ensures Indented(BodyBlock(c, width), Indent(c.depth))
  {
    CommentBody(c, width);
  }

  lemma HeaderIndented(c: Comment, indent: string)
    ensures indent <= Header(c, indent)
  {
  }

  lemma FrontIndented(h: string, body: seq<string>, marker: seq<string>, indent: string)
    requires indent <= h && Indented(body, indent) && Indented(marker, indent)
    ensures Indented([h] + body + marker, indent)
  {
    var front := [h] + body + marker;
    forall i | 0 <= i < |front|
      ensures indent <= front[i]
    {
      if 0 < i <= |body| {
        assert front[i] == body[i - 1];
      } else if i > |body| {
        assert front[i] == marker[i - 1 - |body|];
      }
    }
  }

  /** Lines that all start with a comment indent, then the separator: one separator. */
  lemma OneSeparator(front: seq<string>, depth: nat)
    requires Indented(front, Indent(depth))
    ensures Count(front + [Separator], Separator) == 1
  {
    forall i | 0 <= i < |front|
      ensures front[i] != Separator
    {
      IndentIsNotSeparator(depth, front[i]);
    }
    CountAbsent(front, Separator);
    CountAppend(front, [Separator], Separator);
    assert Count([Separator], Separator) == 1 + Count([], Separator);
  }

  /** A comment with an empty body shows its header, the deleted marker and the separator
      (and the "[...]" line when nested deeper than 10). */
  lemma DeletedComment(c: Comment, width: char -> nat)
    requires c.depth >= 0 && c.body == ""
    ensures FormatComments([c], width)
         == [Header(c, Indent(c.depth)), Indent(c.depth) + "[삭제됨]"] + DepthMarker(c) + ["  "]
  {
    ThreadSingle(c, width);
  }

  /** A comment whose body is not empty but only spaces shows neither body lines nor the
      deleted marker. */
  lemma BlankBodyComment(c: Comment, width: char -> nat)
    requires c.depth >= 0 && c.body != "" && AllSpace(c.body)
    ensures FormatComments([c], width) == [Header(c, Indent(c.depth))] + DepthMarker(c) + ["  "]
  {
    BlankBody(c, width);
    ThreadSingle(c, width);
    assert [Header(c, Indent(c.depth))] + [] == [Header(c, Indent(c.depth))];
  }

  lemma BlankBody(c: Comment, width: char -> nat)
    requires c.depth >= 0 && c.body != "" && AllSpace(c.body)
    ensures BodyBlock(c, width) == []
  {
    CommentBody(c, width);
  }

  lemma HeaderExample()
    ensures Header(Comment("user1", "hi", 0, "1시간전", "123"), Indent(0)) == "| user1 (1시간전) 님:"
  {
    assert Indent(0) == "| ";
  }
}
