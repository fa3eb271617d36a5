/**
  The string operations of Go's `strings` package that the layout code relies on
  (Fields, Split, Join, TrimSpace, Repeat, TrimPrefix), and display width as the
  sum of an abstract per-character cell width (the role of `runewidth.StringWidth`).
 */
module Text {
  import opened Base

  /** Go's `unicode.IsSpace`: the ASCII spaces \t \n \v \f \r and ' ', U+0085, U+00A0,
      and the remaining Unicode White_Space code points. */
  predicate IsSpace(c: char)
  {
    || c == '\t' || c == '\n' || c == '\U{000B}' || c == '\U{000C}' || c == '\r' || c == ' '
    || c == '\U{0085}' || c == '\U{00A0}' || c == '\U{1680}'
    || ('\U{2000}' <= c <= '\U{200A}')
    || c == '\U{2028}' || c == '\U{2029}' || c == '\U{202F}' || c == '\U{205F}' || c == '\U{3000}'
  }

  predicate AllSpace(s: string)
  {
    forall i :: 0 <= i < |s| ==> IsSpace(s[i])
  }

  /** A word as `strings.Fields` produces it: a non-empty run of non-space characters. */
  predicate IsWord(w: string)
  {
    |w| > 0 && forall i :: 0 <= i < |w| ==> !IsSpace(w[i])
  }

  predicate AllWords(ws: seq<string>)
  {
    forall i :: 0 <= i < |ws| ==> IsWord(ws[i])
  }

  /** Length of the longest space-free prefix of `s`. */
  function WordLength(s: string): (n: nat)
    ensures n <= |s|
    ensures forall i :: 0 <= i < n ==> !IsSpace(s[i])
    ensures n == |s| || IsSpace(s[n])
  {
    if s == [] || IsSpace(s[0]) then 0 else 1 + WordLength(s[1..])
  }

  /** `strings.Fields`: the maximal runs of non-space characters, in order. */
  function Fields(s: string): (ws: seq<string>)
    ensures AllWords(ws)
    decreases |s|
  {
    if s == [] then []
    else if IsSpace(s[0]) then Fields(s[1..])
    else
      var n := WordLength(s);
      [s[..n]] + Fields(s[n..])
  }

  /** The words of a sequence of lines, read line after line. */
  function Words(lines: seq<string>): seq<string>
  {
    if lines == [] then [] else Fields(lines[0]) + Words(lines[1..])
  }

  /** `strings.Join`: the parts with `sep` between neighbours. */
  function Join(parts: seq<string>, sep: string): string
  {
    if parts == [] then ""
    else if |parts| == 1 then parts[0]
    else parts[0] + sep + Join(parts[1..], sep)
  }

  predicate OccursAt(s: string, sep: string, i: int)
  {
    0 <= i && i + |sep| <= |s| && s[i..i + |sep|] == sep
  }

  /** Leftmost position of `sep` in `s` (`strings.Index`). */
  function IndexOf(s: string, sep: string): (r: Option<nat>)
    requires |sep| > 0
    ensures r.Some? ==> OccursAt(s, sep, r.value) && forall j :: 0 <= j < r.value ==> !OccursAt(s, sep, j)
    ensures r.None? ==> forall j :: !OccursAt(s, sep, j)
    decreases |s|
  {
    if |s| < |sep| then None
    else if s[..|sep|] == sep then Some(0)
    else
      var r := IndexOf(s[1..], sep);
      assert !OccursAt(s, sep, 0);
      forall j | 0 <= j
        ensures OccursAt(s, sep, j + 1) <==> OccursAt(s[1..], sep, j)
      {
        OccursAtTail(s, sep, j);
      }
      match r
      case None =>
        forall j | 1 <= j
          ensures !OccursAt(s, sep, j)
        {
          OccursAtTail(s, sep, j - 1);
        }
        None
      case Some(k) =>
        forall j | 1 <= j < k + 1
          ensures !OccursAt(s, sep, j)
        {
          OccursAtTail(s, sep, j - 1);
        }
        OccursAtTail(s, sep, k);
        Some(k + 1)
  }

  lemma OccursAtTail(s: string, sep: string, j: nat)
    requires s != []
    ensures OccursAt(s, sep, j + 1) <==> OccursAt(s[1..], sep, j)
  {
    if j + 1 + |sep| <= |s| {
      assert s[1..][j..j + |sep|] == s[j + 1..j + 1 + |sep|];
    }
  }

  /** `strings.Split` for a non-empty separator: the pieces between the occurrences of
      `sep` found scanning left to right. */
  function Split(s: string, sep: string): (parts: seq<string>)
    requires |sep| > 0
    ensures |parts| >= 1
    ensures Join(parts, sep) == s
    ensures forall i, j :: 0 <= i < |parts| ==> !OccursAt(parts[i], sep, j)
    decreases |s|
  {
    var idx := IndexOf(s, sep);
    match idx
    case None => [s]
    case Some(k) =>
      var rest := Split(s[k + |sep|..], sep);
      assert s == s[..k] + sep + s[k + |sep|..] by {
        assert s[k..k + |sep|] == sep;
        assert s == s[..k] + s[k..k + |sep|] + s[k + |sep|..];
      }
      forall j | 0 <= j
        ensures !OccursAt(s[..k], sep, j)
      {
        if j + |sep| <= k {
          assert !OccursAt(s, sep, j);
          assert s[..k][j..j + |sep|] == s[j..j + |sep|];
        }
      }
      assert ([s[..k]] + rest)[1..] == rest;
      [s[..k]] + rest
  }

  function TrimLeft(s: string): (r: string)
    ensures |r| <= |s| && r == s[|s| - |r|..]
    ensures AllSpace(s[..|s| - |r|])
    ensures r == [] || !IsSpace(r[0])
  {
    if s != [] && IsSpace(s[0]) then TrimLeft(s[1..]) else s
  }

  function TrimRight(s: string): (r: string)
    ensures |r| <= |s| && r == s[..|r|]
    ensures AllSpace(s[|r|..])
    ensures r == [] || !IsSpace(r[|r| - 1])
  {
    if s != [] && IsSpace(s[|s| - 1]) then TrimRight(s[..|s| - 1]) else s
  }

  /** `strings.TrimSpace`: `s` without its leading and trailing spaces. */
  function TrimSpace(s: string): (r: string)
    ensures r == [] || (!IsSpace(r[0]) && !IsSpace(r[|r| - 1]))
  {
    TrimRight(TrimLeft(s))
  }

  /** Number of pieces that are not blank after trimming. */
  function CountNonBlank(pieces: seq<string>): nat
  {
    if pieces == [] then 0 else (if TrimSpace(pieces[0]) != "" then 1 else 0) + CountNonBlank(pieces[1..])
  }

  /** The pieces that are not blank, trimmed, in order: what is left of `pieces` once each is
      trimmed and the empty ones are skipped. */
  function NonBlankPieces(pieces: seq<string>): (ts: seq<string>)
    ensures |ts| == CountNonBlank(pieces)
    ensures forall i :: 0 <= i < |ts| ==> Fields(ts[i]) != []
  {
    if pieces == [] then []
    else
      var t := TrimSpace(pieces[0]);
      var r := NonBlankPieces(pieces[1..]);
      if t == "" then r
      else
        TrimmedHasWord(pieces[0]);
        [t] + r
  }

  lemma TrimmedHasWord(s: string)
    requires TrimSpace(s) != ""
    ensures Fields(TrimSpace(s)) != []
  {
    FieldsOfTrimSpace(s);
    TrimSpaceEmptyIffAllSpace(s);
  }

  /** Dropping blank pieces and trimming the others keeps every word, in order. */
  lemma {:induction false} NonBlankPiecesWords(pieces: seq<string>)
    ensures Words(NonBlankPieces(pieces)) == Words(pieces)
  {
    if pieces != [] {
      var t := TrimSpace(pieces[0]);
      var r := NonBlankPieces(pieces[1..]);
      NonBlankPiecesWords(pieces[1..]);
      FieldsOfTrimSpace(pieces[0]);
      TrimSpaceEmptyIffAllSpace(pieces[0]);
      if t != "" {
        assert ([t] + r)[1..] == r;
      }
    }
  }

  /** `strings.Repeat`. */
  function Repeat(s: string, n: nat): (r: string)
    ensures |r| == n * |s|
  {
    if n == 0 then "" else s + Repeat(s, n - 1)
  }

  /** Repeating spaces gives spaces. */
  lemma {:induction false} RepeatAllSpace(s: string, n: nat)
    requires AllSpace(s)
    ensures AllSpace(Repeat(s, n))
  {
    if n > 0 {
      RepeatAllSpace(s, n - 1);
    }
  }

  /** `strings.TrimPrefix`: `s` without one leading copy of `prefix`, or `s` itself. */
  function TrimPrefix(s: string, prefix: string): (r: string)
    ensures prefix <= s ==> prefix + r == s
    ensures !(prefix <= s) ==> r == s
  {
    if prefix <= s then s[|prefix|..] else s
  }

  /** Display width: the sum of the cell widths of the characters. */
  function StringWidth(s: string, width: char -> nat): nat
  {
    if s == [] then 0 else width(s[0]) + StringWidth(s[1..], width)
  }

  /** Cell widths as a terminal measures printable text: every character takes at least one
      cell and the separating space exactly one. */
  predicate CellWidths(width: char -> nat)
  {
    width(' ') == 1 && forall c :: width(c) >= 1
  }

  // ---------------------------------------------------------------------------
  // Width

  lemma {:induction false} StringWidthAppend(a: string, b: string, width: char -> nat)
    ensures StringWidth(a + b, width) == StringWidth(a, width) + StringWidth(b, width)
  {
    if a != [] {
      assert (a + b)[1..] == a[1..] + b;
      StringWidthAppend(a[1..], b, width);
    } else {
      assert a + b == b;
    }
  }

  /** With cell widths of at least one, a string's width is at least its length,
      so only the empty string has width zero. */
  lemma {:induction false} StringWidthAtLeastLength(s: string, width: char -> nat)
    requires CellWidths(width)
    ensures StringWidth(s, width) >= |s|
  {
    if s != [] {
      StringWidthAtLeastLength(s[1..], width);
    }
  }

  // ---------------------------------------------------------------------------
  // Fields

  lemma {:induction false} WordLengthBeforeSpace(a: string, c: char, b: string)
    requires IsSpace(c)
    ensures WordLength(a + [c] + b) == WordLength(a)
  {
    if a == [] {
      assert (a + [c] + b)[0] == c;
    } else if !IsSpace(a[0]) {
      assert (a + [c] + b)[1..] == a[1..] + [c] + b;
      WordLengthBeforeSpace(a[1..], c, b);
    }
  }

  /** A space character splits the fields: those before it, then those after it. */
  lemma {:induction false} FieldsSplitAtSpace(a: string, c: char, b: string)
    requires IsSpace(c)
    ensures Fields(a + [c] + b) == Fields(a) + Fields(b)
    decreases |a|
  {
    var s := a + [c] + b;
    if a == [] {
      assert s[1..] == b;
    } else if IsSpace(a[0]) {
      assert s[1..] == a[1..] + [c] + b;
      FieldsSplitAtSpace(a[1..], c, b);
    } else {
      var n := WordLength(a);
      WordLengthBeforeSpace(a, c, b);
      assert s[..n] == a[..n];
      assert s[n..] == a[n..] + [c] + b;
      FieldsSplitAtSpace(a[n..], c, b);
    }
  }

  /** A string has no fields exactly when it is all spaces. */
  lemma {:induction false} FieldsEmptyIffAllSpace(s: string)
    ensures Fields(s) == [] <==> AllSpace(s)
    decreases |s|
  {
    if s != [] && IsSpace(s[0]) {
      FieldsEmptyIffAllSpace(s[1..]);
      assert AllSpace(s) <==> AllSpace(s[1..]) by {
        if AllSpace(s[1..]) {
          assert forall i :: 1 <= i < |s| ==> s[i] == s[1..][i - 1];
        }
      }
    }
  }

  lemma {:induction false} FieldsAfterSpaces(sp: string, x: string)
    requires AllSpace(sp)
    ensures Fields(sp + x) == Fields(x)
    decreases |sp|
  {
    if sp != [] {
      assert (sp + x)[1..] == sp[1..] + x;
      FieldsAfterSpaces(sp[1..], x);
    } else {
      assert sp + x == x;
    }
  }

  lemma {:induction false} FieldsBeforeSpaces(x: string, sp: string)
    requires AllSpace(sp)
    ensures Fields(x + sp) == Fields(x)
  {
    if sp != [] {
      assert x + sp == x + [sp[0]] + sp[1..];
      FieldsSplitAtSpace(x, sp[0], sp[1..]);
      FieldsEmptyIffAllSpace(sp[1..]);
    } else {
      assert x + sp == x;
    }
  }

  lemma FieldsOfWord(w: string)
    requires IsWord(w)
    ensures Fields(w) == [w]
  {
    assert !IsSpace(w[0]);
    assert WordLength(w) == |w|;
    assert w[..|w|] == w;
    assert w[|w|..] == [];
  }

  lemma {:induction false} FieldsOfTrimLeft(s: string)
    ensures Fields(TrimLeft(s)) == Fields(s)
    decreases |s|
  {
    if s != [] && IsSpace(s[0]) {
      FieldsOfTrimLeft(s[1..]);
    }
  }

  lemma FieldsOfTrimRight(s: string)
    ensures Fields(TrimRight(s)) == Fields(s)
  {
    var r := TrimRight(s);
    assert s == r + s[|r|..];
    FieldsBeforeSpaces(r, s[|r|..]);
  }

  /** Trimming does not change the fields. */
  lemma FieldsOfTrimSpace(s: string)
    ensures Fields(TrimSpace(s)) == Fields(s)
  {
    FieldsOfTrimLeft(s);
    FieldsOfTrimRight(TrimLeft(s));
  }

  /** TrimSpace yields the empty string exactly when the input is all spaces. */
  lemma TrimSpaceEmptyIffAllSpace(s: string)
    ensures TrimSpace(s) == "" <==> Fields(s) == []
  {
    FieldsOfTrimSpace(s);
    var t := TrimSpace(s);
    if t != "" {
      FieldsEmptyIffAllSpace(t);
    }
  }

  lemma WordsStep(lines: seq<string>)
    requires lines != []
    ensures Words(lines) == Fields(lines[0]) + Words(lines[1..])
  {
  }

  lemma {:induction false} WordsAppend(a: seq<string>, b: seq<string>)
    ensures Words(a + b) == Words(a) + Words(b)
  {
    if a == [] {
      assert a + b == b;
    } else {
      assert (a + b)[1..] == a[1..] + b;
      WordsAppend(a[1..], b);
    }
  }

  /** Joining with a separator made of spaces neither merges nor splits words:
      the fields of the joined string are the fields of the parts, in order. */
  lemma {:induction false} FieldsOfJoin(parts: seq<string>, sep: string)
    requires |sep| > 0 && AllSpace(sep)
    ensures Fields(Join(parts, sep)) == Words(parts)
  {
    if |parts| == 1 {
      assert Words(parts) == Fields(parts[0]) + Words([]);
    } else if |parts| > 1 {
      var rest := Join(parts[1..], sep);
      assert parts[0] + sep + rest == parts[0] + [sep[0]] + (sep[1..] + rest);
      FieldsSplitAtSpace(parts[0], sep[0], sep[1..] + rest);
      FieldsAfterSpaces(sep[1..], rest);
      FieldsOfJoin(parts[1..], sep);
    }
  }

  lemma {:induction false} WordsOfWords(ws: seq<string>)
    requires AllWords(ws)
    ensures Words(ws) == ws
  {
    if ws != [] {
      FieldsOfWord(ws[0]);
      WordsOfWords(ws[1..]);
    }
  }

  /** Joining paragraphs with blank lines or sub-lines with newlines keeps their words. */
  lemma FieldsOfLines(parts: seq<string>, sep: string)
    requires sep == "\n" || sep == "\n\n"
    ensures Fields(Join(parts, sep)) == Words(parts)
  {
    assert forall i | 0 <= i < |sep| :: sep[i] == '\n';
    FieldsOfJoin(parts, sep);
  }

  /** Round trip: splitting words joined by single spaces gives back the words. */
  lemma FieldsOfJoinedWords(ws: seq<string>)
    requires AllWords(ws)
    ensures Fields(Join(ws, " ")) == ws
  {
    FieldsOfJoin(ws, " ");
    WordsOfWords(ws);
  }

  lemma {:induction false} JoinSnoc(parts: seq<string>, last: string, sep: string)
    requires parts != []
    ensures Join(parts + [last], sep) == Join(parts, sep) + sep + last
  {
    if |parts| == 1 {
      assert (parts + [last])[1..] == [last];
    } else {
      assert (parts + [last])[1..] == parts[1..] + [last];
      JoinSnoc(parts[1..], last, sep);
    }
  }

  lemma {:induction false} JoinNonEmpty(parts: seq<string>, sep: string)
    requires parts != [] && parts[0] != []
    ensures Join(parts, sep) != []
  {
    if |parts| > 1 {
      assert Join(parts, sep)[..|parts[0]|] == parts[0];
    }
  }
}
