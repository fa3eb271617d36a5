/**
  The topic view (`formatTopicContent`): a highlighted title, a gray meta line of author,
  time and points, then the body. The body is cut into paragraphs at blank lines
  ("\n\n") and each paragraph into sub-lines at "\n"; every non-blank piece is trimmed and
  wrapped at 60 cells with no indent, and each non-blank paragraph is followed by one
  empty line.
 */
module Topic {
  import opened Base
  import opened Text
  import opened Records
  import opened Wrap

  /** Width, in cells, that topic text is wrapped to. */
  const MaxWidth: int := 60

  function TitleLines(c: TopicContent): seq<string>
  {
    if c.title != "" then ["[yellow]" + c.title + "[-]", ""] else []
  }

  /** The non-empty meta fields, in the order author, time, points (points get a "P"). */
  function MetaParts(c: TopicContent): seq<string>
  {
    (if c.author != "" then [c.author] else [])
    + (if c.time != "" then [c.time] else [])
    + (if c.points != "" then [c.points + "P"] else [])
  }

  function MetaLines(c: TopicContent): seq<string>
  {
    var meta := MetaParts(c);
    if |meta| > 0 then ["[gray]" + Join(meta, " · ") + "[-]", ""] else []
  }

  /** The loop over the sub-lines of one paragraph: each is trimmed, skipped when empty,
      and otherwise wrapped. */
  function SubLineLines(subs: seq<string>, width: char -> nat): seq<string>
  {
    if subs == [] then []
    else
      var t := TrimSpace(subs[0]);
      (if t == "" then [] else WrapText(t, MaxWidth, "", width)) + SubLineLines(subs[1..], width)
  }

  /** One paragraph: nothing when blank, otherwise its wrapped sub-lines and an empty line. */
  function ParagraphBlock(p: string, width: char -> nat): seq<string>
  {
    var t := TrimSpace(p);
    if t == "" then [] else SubLineLines(Split(t, "\n"), width) + [""]
  }

  /** The loop over the paragraphs of the body. */
  function ParagraphLines(paras: seq<string>, width: char -> nat): seq<string>
  {
    if paras == [] then [] else ParagraphBlock(paras[0], width) + ParagraphLines(paras[1..], width)
  }

  function BodyLines(body: string, width: char -> nat): seq<string>
  {
    if body != "" then ParagraphLines(Split(body, "\n\n"), width) else []
  }

  /** `formatTopicContent`, with `width` as the cell width of a character. */
  function FormatTopicContent(c: TopicContent, width: char -> nat): (lines: seq<string>)
    ensures c.title != "" ==> |lines| >= 2 && lines[0] == "[yellow]" + c.title + "[-]" && lines[1] == ""
    ensures c.title == "" && MetaParts(c) != [] ==> |lines| >= 2 && "[gray]" <= lines[0] && lines[1] == ""
  {
    TitleLines(c) + MetaLines(c) + BodyLines(c.body, width)
  }

  // ---------------------------------------------------------------------------
  // Words of the body

  lemma WrappedLinesAreText(t: string, width: char -> nat)
    ensures var w := WrapText(t, MaxWidth, "", width);
      && Words(w) == Fields(t)
      && (forall i :: 0 <= i < |w| ==> w[i] != "")
  {
    var w := WrapText(t, MaxWidth, "", width);
    WrapKeepsWords(t, MaxWidth, "", width);
    assert Dedent(w, 0) == w;
  }

  /** The lines of one sub-line: its words, on non-empty lines. */
  lemma SubLineHead(s: string, width: char -> nat)
    ensures var t := TrimSpace(s);
      var head := if t == "" then [] else WrapText(t, MaxWidth, "", width);
      && Words(head) == Fields(s)
      && (forall i :: 0 <= i < |head| ==> head[i] != "")
  {
    var t := TrimSpace(s);
    FieldsOfTrimSpace(s);
    TrimSpaceEmptyIffAllSpace(s);
    if t != "" {
      WrappedLinesAreText(t, width);
    }
  }

  /** Lines holding words, put in front of lines holding words. */
  lemma NonEmptyLinesAppend(a: seq<string>, b: seq<string>)
    requires forall i :: 0 <= i < |a| ==> a[i] != ""
    requires forall i :: 0 <= i < |b| ==> b[i] != ""
    ensures Words(a + b) == Words(a) + Words(b)
    ensures forall i :: 0 <= i < |a + b| ==> (a + b)[i] != ""
  {
    WordsAppend(a, b);
    forall i | 0 <= i < |a + b|
      ensures (a + b)[i] != ""
    {
      if i >= |a| {
        assert (a + b)[i] == b[i - |a|];
      }
    }
  }

  lemma {:induction false} SubLineWords(subs: seq<string>, width: char -> nat)
    ensures Words(SubLineLines(subs, width)) == Words(subs)
    ensures forall i :: 0 <= i < |SubLineLines(subs, width)| ==> SubLineLines(subs, width)[i] != ""
  {
    if subs != [] {
      var t := TrimSpace(subs[0]);
      var head := if t == "" then [] else WrapText(t, MaxWidth, "", width);
      var rest := SubLineLines(subs[1..], width);
      assert SubLineLines(subs, width) == head + rest;
      SubLineWords(subs[1..], width);
      SubLineHead(subs[0], width);
      NonEmptyLinesAppend(head, rest);
      WordsStep(subs);
    }
  }

  lemma ParagraphWords(p: string, width: char -> nat)
    ensures Words(ParagraphBlock(p, width)) == Fields(p)
  {
    var t := TrimSpace(p);
    FieldsOfTrimSpace(p);
    TrimSpaceEmptyIffAllSpace(p);
    if t != "" {
      NonBlankParagraphWords(t, width);
    }
  }

  lemma NonBlankParagraphWords(t: string, width: char -> nat)
    ensures Words(SubLineLines(Split(t, "\n"), width) + [""]) == Fields(t)
  {
    var subs := Split(t, "\n");
    var lines := SubLineLines(subs, width);
    SubLineWords(subs, width);
    assert AllSpace("\n");
    FieldsOfLines(subs, "\n");
    WordsAppend(lines, [""]);
    assert Words([""]) == Fields("") + Words([]);
  }

  lemma {:induction false} ParagraphLinesWords(paras: seq<string>, width: char -> nat)
    ensures Words(ParagraphLines(paras, width)) == Words(paras)
  {
    if paras != [] {
      ParagraphWords(paras[0], width);
      ParagraphLinesWords(paras[1..], width);
      WordsAppend(ParagraphBlock(paras[0], width), ParagraphLines(paras[1..], width));
    }
  }

  /** No word of the body is lost or reordered: the words of the body lines, read line
      after line, are exactly the words of the body. */
  lemma TopicBodyKeepsWords(body: string, width: char -> nat)
    ensures Words(BodyLines(body, width)) == Fields(body)
  {
    if body != "" {
      ParagraphLinesWords(Split(body, "\n\n"), width);
      FieldsOfLines(Split(body, "\n\n"), "\n\n");
    }
  }

  // ---------------------------------------------------------------------------
  // Paragraphs and sub-lines as separately wrapped pieces

  /** A trimmed paragraph as shown: its non-blank sub-lines, trimmed, each wrapped on its own
      and shown one after the other, so no line mixes the words of two sub-lines. */
  function ParagraphText(t: string, width: char -> nat): seq<string>
  {
    Flatten(WrapEach(NonBlankPieces(Split(t, "\n")), MaxWidth, "", width))
  }

  /** The shown text of each paragraph. */
  function ParagraphTexts(ps: seq<string>, width: char -> nat): (blocks: seq<seq<string>>)
    ensures |blocks| == |ps|
    ensures forall i :: 0 <= i < |ps| ==> blocks[i] == ParagraphText(ps[i], width)
  {
    if ps == [] then [] else [ParagraphText(ps[0], width)] + ParagraphTexts(ps[1..], width)
  }

  /** Lines that show exactly the words of `t`, in order, none of them empty. */
  predicate ShowsWords(lines: seq<string>, t: string)
  {
    && lines != []
    && Words(lines) == Fields(t)
    && forall j :: 0 <= j < |lines| ==> lines[j] != ""
  }

  lemma {:induction false} SubLinesAreWrappedPieces(subs: seq<string>, width: char -> nat)
    ensures SubLineLines(subs, width) == Flatten(WrapEach(NonBlankPieces(subs), MaxWidth, "", width))
  {
    if subs != [] {
      var t := TrimSpace(subs[0]);
      var r := NonBlankPieces(subs[1..]);
      SubLinesAreWrappedPieces(subs[1..], width);
      if t != "" {
        WrapEachCons(t, r, MaxWidth, "", width);
        FlattenCons(WrapText(t, MaxWidth, "", width), WrapEach(r, MaxWidth, "", width));
      }
    }
  }

  /** A blank paragraph shows nothing. Otherwise its trimmed sub-lines are wrapped each on
      its own, blank ones are skipped, and one empty line follows. */
  lemma ParagraphSubLines(p: string, width: char -> nat)
    ensures var t := TrimSpace(p);
      ParagraphBlock(p, width) == if t == "" then [] else ParagraphText(t, width) + [""]
  {
    var t := TrimSpace(p);
    if t != "" {
      SubLinesAreWrappedPieces(Split(t, "\n"), width);
    }
  }

  lemma ParagraphTextsCons(t: string, r: seq<string>, width: char -> nat)
    ensures Flatten(CloseEach(ParagraphTexts([t] + r, width), ""))
         == ParagraphText(t, width) + [""] + Flatten(CloseEach(ParagraphTexts(r, width), ""))
  {
    var x := ParagraphText(t, width);
    var ys := ParagraphTexts(r, width);
    assert ([t] + r)[1..] == r;
    FlattenCloseCons(x, ys, "");
  }

  lemma {:induction false} ParagraphLinesArePieces(paras: seq<string>, width: char -> nat)
    ensures ParagraphLines(paras, width) == Flatten(CloseEach(ParagraphTexts(NonBlankPieces(paras), width), ""))
  {
    if paras != [] {
      var t := TrimSpace(paras[0]);
      var r := NonBlankPieces(paras[1..]);
      ParagraphLinesArePieces(paras[1..], width);
      ParagraphSubLines(paras[0], width);
      if t != "" {
        ParagraphTextsCons(t, r, width);
      }
    }
  }

  /** A paragraph with a word shows exactly its words, on non-empty lines. */
  lemma ParagraphTextShows(t: string, width: char -> nat)
    requires Fields(t) != []
    ensures ShowsWords(ParagraphText(t, width), t)
  {
    var subs := Split(t, "\n");
    SubLinesAreWrappedPieces(subs, width);
    SubLineWords(subs, width);
    FieldsOfLines(subs, "\n");
    assert Words(ParagraphText(t, width)) == Fields(t);
  }

  lemma BodyLinesArePieces(body: string, width: char -> nat)
    ensures BodyLines(body, width) == Flatten(CloseEach(ParagraphTexts(NonBlankPieces(Split(body, "\n\n")), width), ""))
    ensures BodyLines(body, width) == ParagraphLines(Split(body, "\n\n"), width)
  {
    var paras := Split(body, "\n\n");
    ParagraphLinesArePieces(paras, width);
    if body == "" {
      assert paras == [""];
    }
  }

  /** The body is shown paragraph by paragraph: the k-th block between empty lines is the k-th
      non-blank paragraph, trimmed, and shows exactly its words. Every block is closed by one
      empty line, so there are as many empty lines as non-blank paragraphs. */
  lemma TopicParagraphs(body: string, width: char -> nat)
    ensures var ps := NonBlankPieces(Split(body, "\n\n"));
      && BodyLines(body, width) == Flatten(CloseEach(ParagraphTexts(ps, width), ""))
      && Words(ps) == Fields(body)
      && (forall i :: 0 <= i < |ps| ==> ShowsWords(ParagraphTexts(ps, width)[i], ps[i]))
    ensures SpacerClosed(BodyLines(body, width), "")
    ensures Count(BodyLines(body, width), "") == CountNonBlank(Split(body, "\n\n"))
  {
    var paras := Split(body, "\n\n");
    var ps := NonBlankPieces(paras);
    BodyLinesArePieces(body, width);
    ParagraphLinesShape(paras, width);
    NonBlankPiecesWords(paras);
    FieldsOfLines(paras, "\n\n");
    forall i | 0 <= i < |ps|
      ensures ShowsWords(ParagraphTexts(ps, width)[i], ps[i])
    {
      ParagraphTextShows(ps[i], width);
    }
  }

  /** Every sub-line is wrapped at 60 cells. */
  lemma ParagraphTextFits(t: string, width: char -> nat)
    requires CellWidths(width)
    ensures LinesFit(ParagraphText(t, width), "", MaxWidth, width)
  {
    var ts := NonBlankPieces(Split(t, "\n"));
    var w := WrapEach(ts, MaxWidth, "", width);
    assert Effective(MaxWidth, "", width) == MaxWidth;
    forall i | 0 <= i < |w|
      ensures LinesFit(w[i], "", MaxWidth, width)
    {
      WrapFits(ts[i], MaxWidth, "", width);
    }
    FitsFlatten(w, "", MaxWidth, width);
  }

  /** If every character is at least one cell wide, every body line holding two or more words
      is at most 60 cells wide; only a lone word may be wider. */
  lemma TopicWidthBound(body: string, width: char -> nat)
    requires CellWidths(width)
    ensures var lines := BodyLines(body, width);
      forall i :: 0 <= i < |lines| && |Fields(lines[i])| >= 2 ==> StringWidth(lines[i], width) <= 60
  {
    var ps := NonBlankPieces(Split(body, "\n\n"));
    var blocks := CloseEach(ParagraphTexts(ps, width), "");
    BodyLinesArePieces(body, width);
    forall i | 0 <= i < |blocks|
      ensures LinesFit(blocks[i], "", MaxWidth, width)
    {
      ParagraphTextFits(ps[i], width);
      SpacerFits("", MaxWidth, width);
      FitsAppend(ParagraphText(ps[i], width), [""], "", MaxWidth, width);
    }
    FitsFlatten(blocks, "", MaxWidth, width);
    var lines := BodyLines(body, width);
    forall i | 0 <= i < |lines|
      ensures lines[i][|""|..] == lines[i]
    {
    }
  }

  // ---------------------------------------------------------------------------
  // Paragraph structure

  lemma ParagraphBlockShape(p: string, width: char -> nat)
    ensures var b := ParagraphBlock(p, width);
      && (TrimSpace(p) == "" <==> b == [])
      && ClosedBlock(b, "")
  {
    var t := TrimSpace(p);
    if t != "" {
      var subs := Split(t, "\n");
      SubLineWords(subs, width);
      FieldsOfLines(subs, "\n");
      FieldsEmptyIffAllSpace(t);
      assert Fields(t) != [] by {
        assert !IsSpace(t[0]);
      }
    }
  }

  lemma {:induction false} ParagraphLinesShape(paras: seq<string>, width: char -> nat)
    ensures SpacerClosed(ParagraphLines(paras, width), "")
    ensures Count(ParagraphLines(paras, width), "") == CountNonBlank(paras)
  {
    if paras != [] {
      ParagraphBlockShape(paras[0], width);
      ParagraphLinesShape(paras[1..], width);
      PrependBlock(ParagraphBlock(paras[0], width), ParagraphLines(paras[1..], width), "");
    }
  }

  // ---------------------------------------------------------------------------
  // Whole view

  lemma {:induction false} ParagraphLinesEmptyIff(paras: seq<string>, width: char -> nat)
    ensures ParagraphLines(paras, width) == [] <==> Words(paras) == []
  {
    if paras != [] {
      ParagraphBlockShape(paras[0], width);
      TrimSpaceEmptyIffAllSpace(paras[0]);
      ParagraphLinesEmptyIff(paras[1..], width);
    }
  }

  /** The body shows no line exactly when it has no word. */
  lemma BodyEmptyIff(body: string, width: char -> nat)
    ensures BodyLines(body, width) == [] <==> AllSpace(body)
  {
    FieldsEmptyIffAllSpace(body);
    if body != "" {
      ParagraphLinesEmptyIff(Split(body, "\n\n"), width);
      FieldsOfLines(Split(body, "\n\n"), "\n\n");
    }
  }

  /** The view is empty exactly when there is no title, no meta field and no word in the body. */
  lemma TopicEmptyIff(c: TopicContent, width: char -> nat)
    ensures FormatTopicContent(c, width) == []
        <==> c.title == "" && c.author == "" && c.time == "" && c.points == "" && AllSpace(c.body)
  {
    BodyEmptyIff(c.body, width);
    assert FormatTopicContent(c, width) == TitleLines(c) + MetaLines(c) + BodyLines(c.body, width);
    assert MetaLines(c) == [] <==> MetaParts(c) == [];
  }

  /** A content with only a title is shown as the highlighted title and one empty line. */
  lemma TopicTitleOnly(c: TopicContent, width: char -> nat)
    requires c.title != "" && c.author == "" && c.time == "" && c.points == "" && c.body == ""
    ensures FormatTopicContent(c, width) == ["[yellow]" + c.title + "[-]", ""]
  {
  }

  /** The view: the title block when there is a title, then the meta block when a meta field
      is set, then the body lines, whose words are the body's words. */
  lemma TopicLayout(c: TopicContent, width: char -> nat)
    ensures var lines := FormatTopicContent(c, width);
      var h := (if c.title != "" then 2 else 0) + (if c.author != "" || c.time != "" || c.points != "" then 2 else 0);
      && |lines| >= h
      && (c.author != "" || c.time != "" || c.points != "" ==>
            lines[h - 2] == "[gray]" + Join(MetaParts(c), " · ") + "[-]" && lines[h - 1] == "")
      && lines[h..] == BodyLines(c.body, width)
      && Words(lines[h..]) == Fields(c.body)
  {
    TopicBodyKeepsWords(c.body, width);
    var lines := FormatTopicContent(c, width);
    assert lines[|TitleLines(c)| + |MetaLines(c)|..] == BodyLines(c.body, width);
  }

  lemma MetaExample(width: char -> nat)
    ensures MetaLines(TopicContent("", "", "", "kim", "", "12")) == ["[gray]kim · 12P[-]", ""]
  {
    var c := TopicContent("", "", "", "kim", "", "12");
    assert c.points + "P" == "12P";
    assert MetaParts(c) == ["kim", "12P"];
    calc {
      Join(["kim", "12P"], " · ");
      "kim" + " · " + Join(["12P"], " · ");
      "kim" + " · " + "12P";
    }
    assert "[gray]" + ("kim" + " · " + "12P") + "[-]" == "[gray]kim · 12P[-]";
  }
}
