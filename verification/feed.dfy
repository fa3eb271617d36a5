/**
  The record building that runs after the markup is decoded (`parseGeekNewsRSS`,
  `parseGeekNewsComments`). Decoding itself (XML unmarshalling, HTML selectors, HTML to
  text) is outside the model: its results arrive as `AtomFeed` and `CommentRow` values.

  A feed entry becomes an article whose comments link is the topic page: the href of the
  first link with rel "alternate" or no rel, or the entry id when that href is missing or
  empty. A comment row takes its depth from the `--depth:` declaration in its style
  attribute; rows nested deeper than 10 are dropped, and the "cid" prefix is removed from
  the row id.
 */
module Feed {
  import opened Base
  import opened Text
  import opened Records

  // ---------------------------------------------------------------------------
  // Atom feed

  datatype AtomLink = AtomLink(rel: string, mediaType: string, href: string)

  datatype AtomAuthor = AtomAuthor(name: string, uri: string)

  datatype AtomEntry = AtomEntry(
    title: string,
    links: seq<AtomLink>,
    id: string,
    updated: string,
    author: AtomAuthor,
    content: string)

  datatype AtomFeed = AtomFeed(entries: seq<AtomEntry>)

  /** The domain shown for every feed article: the links all point at the topic pages. */
  const SiteDomain: string := "news.hada.io"

  /** A link to the topic page: rel "alternate", or no rel at all. */
  predicate IsAlternate(l: AtomLink)
  {
    l.rel == "alternate" || l.rel == ""
  }

  /** `i` is the first alternate link of `links`. */
  predicate FirstAlternate(links: seq<AtomLink>, i: int)
  {
    0 <= i < |links| && IsAlternate(links[i]) && forall j :: 0 <= j < i ==> !IsAlternate(links[j])
  }

  /** The link loop: the href of the first alternate link, or "" when there is none. */
  function AlternateHref(links: seq<AtomLink>): string
  {
    if links == [] then ""
    else if IsAlternate(links[0]) then links[0].href
    else AlternateHref(links[1..])
  }

  /** The loop stops at the first alternate link and takes its href; without one it leaves
      the href empty. */
  lemma {:induction false} AlternateHrefSpec(links: seq<AtomLink>)
    ensures (exists i :: FirstAlternate(links, i) && AlternateHref(links) == links[i].href)
         || ((forall i :: 0 <= i < |links| ==> !IsAlternate(links[i])) && AlternateHref(links) == "")
  {
    if links != [] {
      if IsAlternate(links[0]) {
        assert FirstAlternate(links, 0);
      } else {
        AlternateHrefSpec(links[1..]);
        assert forall i :: 1 <= i < |links| ==> links[i] == links[1..][i - 1];
        if exists i :: FirstAlternate(links[1..], i) && AlternateHref(links[1..]) == links[1..][i].href {
          var i :| FirstAlternate(links[1..], i) && AlternateHref(links[1..]) == links[1..][i].href;
          assert FirstAlternate(links, i + 1);
        }
      }
    }
  }

  /** The topic page of an entry: the alternate href, or the entry id when it is empty. */
  function TopicUrl(e: AtomEntry): string
  {
    var href := AlternateHref(e.links);
    if href == "" then e.id else href
  }

  function EntryArticle(e: AtomEntry): Article
  {
    Article(e.title, "", "", TopicUrl(e), SiteDomain)
  }

  /** The entry loop of `parseGeekNewsRSS`: one article per entry, in entry order. */
  method ArticlesOf(entries: seq<AtomEntry>) returns (articles: seq<Article>)
    ensures |articles| == |entries|
    ensures forall i :: 0 <= i < |entries| ==>
      && articles[i].title == entries[i].title
      && articles[i].link == ""
      && articles[i].comments == ""
      && articles[i].commentsLink == TopicUrl(entries[i])
      && articles[i].domain == "news.hada.io"
  {
    articles := [];
    var k := 0;
    while k < |entries|
      invariant 0 <= k <= |entries|
      invariant |articles| == k
      invariant forall i :: 0 <= i < k ==> articles[i] == EntryArticle(entries[i])
    {
      articles := articles + [EntryArticle(entries[k])];
      k := k + 1;
    }
  }

  /** `parseGeekNewsRSS` once the XML is decoded: a decoding error is passed on, otherwise
      the articles of the entries. */
  method ParseFeed(decoded: Result<AtomFeed>) returns (r: Result<seq<Article>>)
    ensures decoded.Err? ==> r == Err(decoded.message)
    ensures decoded.Ok? ==> r.Ok? && |r.value| == |decoded.value.entries|
    ensures decoded.Ok? ==> forall i :: 0 <= i < |r.value| ==>
      && r.value[i].title == decoded.value.entries[i].title
      && r.value[i].link == ""
      && r.value[i].comments == ""
      && r.value[i].commentsLink == TopicUrl(decoded.value.entries[i])
      && r.value[i].domain == "news.hada.io"
  {
    match decoded
    case Err(m) =>
      r := Err(m);
    case Ok(feed) =>
      var articles := ArticlesOf(feed.entries);
      r := Ok(articles);
  }

  /** The comments link is the first alternate link's href when that is not empty, and the
      entry id otherwise (no alternate link, or an empty href on the first one: later
      alternate links are not consulted). */
  lemma TopicUrlChoice(e: AtomEntry)
    ensures (exists i :: FirstAlternate(e.links, i) && e.links[i].href != "" && TopicUrl(e) == e.links[i].href)
         || (TopicUrl(e) == e.id && forall i :: FirstAlternate(e.links, i) ==> e.links[i].href == "")
  {
    AlternateHrefSpec(e.links);
    forall i, j | FirstAlternate(e.links, i) && FirstAlternate(e.links, j)
      ensures i == j
    {
    }
  }

  // ---------------------------------------------------------------------------
  // The depth declaration in a comment row's style

  /** Go's regexp `\s`: tab, newline, form feed, carriage return and space. */
  predicate IsRegexSpace(c: char)
  {
    c == '\t' || c == '\n' || c == '\U{000C}' || c == '\r' || c == ' '
  }

  /** Go's regexp `\d`: an ASCII digit. */
  predicate IsDigit(c: char)
  {
    '0' <= c <= '9'
  }

  const DepthKey: string := "--depth:"

  /** Length of the longest prefix of `s` whose characters are all in the class. */
  function LeadingRun(s: string, inClass: char -> bool): (n: nat)
    ensures n <= |s|
    ensures forall i :: 0 <= i < n ==> inClass(s[i])
    ensures n == |s| || !inClass(s[n])
  {
    if s == [] || !inClass(s[0]) then 0 else 1 + LeadingRun(s[1..], inClass)
  }

  /** The number written by a run of decimal digits. */
  function DecimalValue(digits: string): nat
  {
    if digits == [] then 0
    else 10 * DecimalValue(digits[..|digits| - 1]) + ((digits[|digits| - 1] as int - '0' as int) % 10)
  }

  /** `--depth:\s*(\d+)` matches at `p`, with `k` spaces before `n` digits. */
  predicate DepthMatch(s: string, p: int, k: int, n: int)
  {
    && OccursAt(s, DepthKey, p)
    && 0 <= k && 1 <= n && p + |DepthKey| + k + n <= |s|
    && (forall i :: p + |DepthKey| <= i < p + |DepthKey| + k ==> IsRegexSpace(s[i]))
    && (forall i :: p + |DepthKey| + k <= i < p + |DepthKey| + k + n ==> IsDigit(s[i]))
  }

  /** Nothing matches at any position from `from` to before `to`. */
  ghost predicate NoMatchBetween(s: string, from: int, to: int)
  {
    forall p, k, n :: from <= p < to ==> !DepthMatch(s, p, k, n)
  }

  /** The match at `p`, if any, as its space count and digit count: both runs are taken as
      long as they go. */
  function MatchAt(s: string, p: nat): Option<(nat, nat)>
  {
    if !OccursAt(s, DepthKey, p) then None
    else
      var q := p + |DepthKey|;
      var k := LeadingRun(s[q..], IsRegexSpace);
      var n := LeadingRun(s[q + k..], IsDigit);
      if n == 0 then None else Some((k, n))
  }

  /** A prefix of class characters is covered by the leading run. */
  lemma {:induction false} LeadingRunCovers(t: string, inClass: char -> bool, m: nat)
    requires m <= |t| && forall i :: 0 <= i < m ==> inClass(t[i])
    ensures LeadingRun(t, inClass) >= m
  {
    if m > 0 {
      LeadingRunCovers(t[1..], inClass, m - 1);
    }
  }

  /** Since `\s` and `\d` share no character, a match at `p` has exactly as many spaces as
      the run of spaces after the key, so the greedy scan finds it. */
  lemma MatchFound(s: string, p: nat, k: nat, n: nat)
    requires DepthMatch(s, p, k, n)
    ensures MatchAt(s, p).Some?
  {
    var q := p + |DepthKey|;
    var t := s[q..];
    assert forall i :: 0 <= i < k ==> t[i] == s[q + i];
    LeadingRunCovers(t, IsRegexSpace, k);
    assert t[k] == s[q + k];
    assert IsDigit(t[k]);
    var k0 := LeadingRun(t, IsRegexSpace);
    assert k0 == k;
    assert s[q + k..][0] == s[q + k];
  }

  /** The scan at `p` either finds a match, with maximal runs, or there is none at `p`. */
  lemma MatchAtSpec(s: string, p: nat)
    ensures var r := MatchAt(s, p);
      && (r.Some? ==> DepthMatch(s, p, r.value.0, r.value.1))
      && (r.Some? ==> var end := p + |DepthKey| + r.value.0 + r.value.1; end == |s| || !IsDigit(s[end]))
      && (r.None? ==> forall k, n :: !DepthMatch(s, p, k, n))
  {
    forall k, n | DepthMatch(s, p, k, n)
      ensures MatchAt(s, p).Some?
    {
      MatchFound(s, p, k, n);
    }
    if MatchAt(s, p).Some? {
      var q := p + |DepthKey|;
      var k := LeadingRun(s[q..], IsRegexSpace);
      var n := LeadingRun(s[q + k..], IsDigit);
      assert forall i :: q <= i < q + k ==> s[i] == s[q..][i - q];
      assert forall i :: q + k <= i < q + k + n ==> s[i] == s[q + k..][i - q - k];
      if q + k + n < |s| {
        assert s[q + k + n] == s[q + k..][n];
      }
    }
  }

  /** `r` is the leftmost match at or after `from`: its position, space count and digit count,
      with the digit run taken whole and no match starting between `from` and it; or `None`
      when nothing matches from `from` on. */
  ghost predicate IsLeftmost(s: string, from: nat, r: Option<(nat, nat, nat)>)
  {
    && (r.Some? ==> from <= r.value.0 && DepthMatch(s, r.value.0, r.value.1, r.value.2))
    && (r.Some? ==> var end := r.value.0 + |DepthKey| + r.value.1 + r.value.2; end == |s| || !IsDigit(s[end]))
    && (r.Some? ==> NoMatchBetween(s, from, r.value.0))
    && (r.None? ==> NoMatchBetween(s, from, |s|))
  }

  /** The leftmost match at or after `from` (`FindStringSubmatch` scans from the left), as
      its position, space count and digit count. */
  function LeftmostMatch(s: string, from: nat): (r: Option<(nat, nat, nat)>)
    ensures IsLeftmost(s, from, r)
    decreases |s| - from
  {
    if from >= |s| then
      LeftmostPastEnd(s, from);
      None
    else if MatchAt(s, from).Some? then
      LeftmostHere(s, from);
      Some((from, MatchAt(s, from).value.0, MatchAt(s, from).value.1))
    else
      var r := LeftmostMatch(s, from + 1);
      LeftmostSkip(s, from, r);
      r
  }

  lemma LeftmostPastEnd(s: string, from: nat)
    requires from >= |s|
    ensures IsLeftmost(s, from, None)
  {
  }

  lemma LeftmostHere(s: string, from: nat)
    requires MatchAt(s, from).Some?
    ensures IsLeftmost(s, from, Some((from, MatchAt(s, from).value.0, MatchAt(s, from).value.1)))
  {
    MatchAtSpec(s, from);
  }

  lemma LeftmostSkip(s: string, from: nat, r: Option<(nat, nat, nat)>)
    requires MatchAt(s, from).None? && IsLeftmost(s, from + 1, r)
    ensures IsLeftmost(s, from, r)
  {
    MatchAtSpec(s, from);
    NoMatchExtends(s, from, if r.Some? then r.value.0 else |s|);
  }

  /** No match at `from` and none after it up to `to` is none from `from` to `to`. */
  lemma NoMatchExtends(s: string, from: nat, to: int)
    requires forall k, n :: !DepthMatch(s, from, k, n)
    requires NoMatchBetween(s, from + 1, to)
    ensures NoMatchBetween(s, from, to)
  {
  }

  /** The depth of a row: the number after the leftmost `--depth:` declaration, 0 when the row
      has no style or the style has no such declaration. */
  function StyleDepth(style: Option<string>): (d: nat)
    ensures style.None? ==> d == 0
    ensures style.Some? ==>
      var s := style.value;
      || (NoMatchBetween(s, 0, |s|) && d == 0)
      || DepthReadAt(s, d)
  {
    match style
    case None => 0
    case Some(s) =>
      var m := LeftmostMatch(s, 0);
      if m.Some? then
        ReadAtMatch(s, m);
        MatchValue(s, m)
      else 0
  }

  /** The value of the digit run of match `m` in `s`, 0 without a match. */
  function MatchValue(s: string, m: Option<(nat, nat, nat)>): nat
    requires m.Some? ==> m.value.0 + |DepthKey| + m.value.1 + m.value.2 <= |s|
  {
    match m
    case None => 0
    case Some((p, k, n)) =>
      var start := p + |DepthKey| + k;
      DecimalValue(s[start..start + n])
  }

  /** `d` is the value of the whole digit run of the leftmost match in `s`. */
  ghost predicate DepthReadAt(s: string, d: nat)
  {
    exists p, k, n ::
      && DepthMatch(s, p, k, n)
      && NoMatchBetween(s, 0, p)
      && (p + |DepthKey| + k + n == |s| || !IsDigit(s[p + |DepthKey| + k + n]))
      && d == DecimalValue(s[p + |DepthKey| + k..p + |DepthKey| + k + n])
  }

  lemma ReadAtMatch(s: string, m: Option<(nat, nat, nat)>)
    requires m.Some? && DepthMatch(s, m.value.0, m.value.1, m.value.2) && NoMatchBetween(s, 0, m.value.0)
    requires var end := m.value.0 + |DepthKey| + m.value.1 + m.value.2; end == |s| || !IsDigit(s[end])
    ensures DepthReadAt(s, MatchValue(s, m))
  {
    var (p, k, n) := m.value;
    assert DepthMatch(s, p, k, n);
  }

  lemma StyleDepthExample()
    ensures StyleDepth(Some("--depth: 3")) == 3
    ensures StyleDepth(None) == 0
  {
    var s := "--depth: 3";
    assert OccursAt(s, DepthKey, 0) by {
      assert s[0..8] == DepthKey;
    }
    assert s[8..] == " 3";
    assert LeadingRun(" 3", IsRegexSpace) == 1 by {
      assert " 3"[1..] == "3";
      assert LeadingRun("3", IsRegexSpace) == 0;
    }
    assert s[9..] == "3";
    assert LeadingRun("3", IsDigit) == 1 by {
      assert "3"[1..] == "";
    }
    assert MatchAt(s, 0) == Some((1, 1));
    assert s[9..10] == "3";
    assert DecimalValue("3") == 3 by {
      assert "3"[..0] == "";
    }
  }

  // ---------------------------------------------------------------------------
  // Comment rows

  /** What the selectors find in one comment row: the style and id attributes (absent or
      present), the author and time link texts, and the body converted to plain text. */
  datatype CommentRow = CommentRow(
    style: Option<string>,
    id: Option<string>,
    author: string,
    time: string,
    body: string)

  /** Rows nested deeper than this are dropped. */
  const MaxDepth: nat := 10

  /** The comment id: the row id without one leading "cid", or "" when the row has no id. */
  function CommentId(id: Option<string>): (r: string)
    ensures id.None? ==> r == ""
    ensures id.Some? && "cid" <= id.value ==> "cid" + r == id.value
    ensures id.Some? && !("cid" <= id.value) ==> r == id.value
  {
    match id
    case None => ""
    case Some(v) => TrimPrefix(v, "cid")
  }

  function RowComment(row: CommentRow): Comment
  {
    Comment(row.author, row.body, StyleDepth(row.style), row.time, CommentId(row.id))
  }

  /** The row loop of `parseGeekNewsComments`: rows deeper than 10 are skipped, the others
      become comments in document order. */
  function ParseComments(rows: seq<CommentRow>): (cs: seq<Comment>)
    ensures |cs| <= |rows|
    ensures forall i :: 0 <= i < |cs| ==> 0 <= cs[i].depth <= 10
  {
    if rows == [] then []
    else
      var rest := ParseComments(rows[1..]);
      if StyleDepth(rows[0].style) > MaxDepth then rest else [RowComment(rows[0])] + rest
  }

  /** The comments of a row sequence are those of its parts, in order. */
  lemma {:induction false} ParseCommentsAppend(a: seq<CommentRow>, b: seq<CommentRow>)
    ensures ParseComments(a + b) == ParseComments(a) + ParseComments(b)
  {
    if a == [] {
      assert a + b == b;
    } else {
      assert (a + b)[1..] == a[1..] + b;
      ParseCommentsAppend(a[1..], b);
    }
  }

  /** A single row gives its comment exactly when its depth is at most 10; the comment carries
      the row's author, time and body, the depth of its style and its id without "cid". */
  lemma ParseOneRow(row: CommentRow)
    ensures StyleDepth(row.style) > 10 ==> ParseComments([row]) == []
    ensures StyleDepth(row.style) <= 10 ==> ParseComments([row]) == [Comment(row.author, row.body, StyleDepth(row.style), row.time, CommentId(row.id))]
  {
    assert [row][1..] == [];
  }

  lemma CommentIdExample()
    ensures CommentId(Some("cid50523")) == "50523"
    ensures CommentId(Some("50523")) == "50523"
    ensures CommentId(None) == ""
  {
    assert "cid" <= "cid50523";
    assert "50523"[0] == '5';
  }
}
