# gn-text layout core in Dafny

gn-text is a terminal client for the GeekNews aggregator (news.hada.io). This project models
two parts of it and proves properties about them. The first is its text-layout pipeline:
- the display-width-aware greedy word wrapper (`wrapTextWithRuneWidth`);
- the topic view (`formatTopicContent`);
- the comment-thread flattener (`formatComments`).

The second is the record building that runs once the feed XML or topic HTML has been
decoded: entry → `Article` in `parseGeekNewsRSS`, and the depth, id and filter rules of
`parseGeekNewsComments`.

Modules, one per concern:

- `Base` (base.dfy): `Option`, `Result`, `Flatten`, `Count`, and blocks of lines closed by a spacer line.
- `Text` (text.dfy): the parts of Go's `strings` package that the code uses: `Fields`, `Split`, `Join`, `TrimSpace`, `Repeat` and `TrimPrefix`. Whitespace follows `unicode.IsSpace`. Display width is the sum of an abstract per-character cell width.
- `Records` (records.dfy): `Article`, `Comment`, `TopicContent`.
- `Wrap` (wrap.dfy): the wrapper. It copies the source loop exactly, including its two different tests: the line is flushed when its *width* is positive, and a space is written when its *length* is positive. A word-group packing serves as the reference definition. `RunMatchesPack` proves that the two agree.
- `Topic` (topic.dfy): the topic view.
- `Thread` (thread.dfy): the comment view. `EmitComments` copies the source loop over one growing line list, including the trailing-spacer test on the whole list. `Blocks` is the per-comment reference definition.
- `Feed` (feed.dfy): feed entries to articles, and comment rows to comments. The depth comes from the regular expression `--depth:\s*(\d+)`, with Go RE2 classes: `\s` is tab, newline, form feed, carriage return and space, and `\d` is an ASCII digit. The leftmost match is used.
- `Pipeline` (pipeline.dfy): the parser's output fed to the comment view.

Display width is a parameter `width: char -> nat`. It stands in for the East-Asian width table of the `runewidth` library. The width bounds are proved under `Text.CellWidths`: every character is at least one cell wide, and the space is exactly one cell.

Two behaviours of the code are worth stating outright:
- The wrapper flushes a line when the line's width is positive, not when the line is non-empty. `Wrap.ZeroWidthWordSkipsWidthTest` shows the consequence: after a zero-width first word, the next word joins the line whatever its width.
- The deleted-comment marker is the literal `[삭제됨]`, and the header suffix is ` 님:`.

Both views are related to a reference layout built from `Text.NonBlankPieces`, `Wrap.WrapEach` and `Base.CloseEach`. The reference trims the pieces and drops the blank ones, wraps each piece on its own, closes each with a spacer line, and concatenates the results. In the topic view the block of a paragraph is built the same way, one level down: the paragraph's non-blank trimmed sub-lines are wrapped one by one (`Topic.ParagraphText`). `Topic.TopicParagraphs` and `Thread.CommentParagraphs` prove that the source loops produce exactly this layout.

## Model

| member | source | states |
|---|---|---|
| Wrap.WrapText | web.go:174-202 | Every line the wrapper returns starts with the indent |
| Wrap.RunMatchesPack | web.go:181-195 | The string-builder loop holds exactly the open word group joined by single spaces, and every flushed line is `indent` plus a closed group of the greedy packing |
| Wrap.WrapKeepsWords | web.go:175-199 | Every output line is `indent` followed by a non-empty body of single-space-separated words. Read across the lines in order, those words are exactly the whitespace fields of the text: none lost, split or reordered |
| Wrap.WrapEmptyIff | web.go:175-201 | The wrapper yields no line exactly when the text is empty or all whitespace |
| Wrap.WrapSingleWord | web.go:181-199 | A text with one word yields exactly one line, `indent + word`, whatever the width (a long word is never split) |
| Wrap.WrapHelloExample | web_test.go:88-98 | Wrapping "hello" at width 60 with indent ">> " gives [">> hello"] |
| Wrap.WrapWidthBound | web.go:178-195 | If every character is at least one cell wide, a line holding two or more words is at most `maxWidth - width(indent)` cells wide; only a lone word may be wider |
| Wrap.WrapBreaksOnlyWhenFull | web.go:183-189 | Every line break is forced: the ended line has positive width, and that width plus the next line's first word plus one space exceeds the effective width |
| Wrap.WrapRewrapStable | web.go:174-202 | Joining the line bodies with single spaces and wrapping again reproduces the same lines |
| Wrap.ZeroWidthWordSkipsWidthTest | web.go:185-194 | The flush test looks at width and the space test at length, so after a zero-width word the next word joins the line whatever its width |
| Topic.FormatTopicContent | web.go:71-79 | With a non-empty title the view opens with `[yellow]title[-]` and an empty line; without a title but with a meta field it opens with a `[gray]` line and an empty line |
| Topic.TopicLayout | web.go:82-118 | The meta line is `[gray]` + the non-empty of author, time, points+"P" joined by " · " + `[-]`, followed by an empty line. After the title and meta blocks come exactly the body lines, and their words are exactly the words of the body |
| Topic.TopicBodyKeepsWords | web.go:98-118 | The body lines hold the body's words in order, after paragraph and sub-line splitting, trimming and wrapping at 60 cells |
| Topic.TopicParagraphs | web.go:97-118 | The body lines are, for each non-blank paragraph in order, that trimmed paragraph's lines followed by one empty line. The k-th block shows exactly the words of the k-th non-blank paragraph, on non-empty lines. Together the paragraphs hold all the body's words. The body has as many empty lines as non-blank paragraphs, none first and none after another |
| Topic.ParagraphSubLines | web.go:100-116 | A blank paragraph shows nothing. Otherwise each non-blank trimmed sub-line is wrapped at 60 cells on its own, the results follow one another, and one empty line closes the paragraph. No line mixes the words of two sub-lines |
| Topic.TopicWidthBound | web.go:107-114 | If every character is at least one cell wide, every body line holding two or more words is at most 60 cells wide |
| Topic.TopicEmptyIff | web.go:71-121 | The view is empty exactly when title, author, time and points are empty and the body has no word |
| Topic.TopicTitleOnly | web.go:76-79 | A content with only a title gives exactly the highlighted title and one empty line |
| Topic.MetaExample | web.go:82-95 | Author "kim" and points "12" give the meta lines `[gray]kim · 12P[-]` and "" |
| Thread.FormatComments | web.go:124-170 | The view is empty exactly when there are no comments. Otherwise it opens with the first comment's header, closes with a separator, and has at least two lines per comment |
| Thread.BlocksShape | web.go:130-167 | Each comment contributes at least its header and its separator, so the blocks of a run of comments open with the first header and end with a separator |
| Thread.EmitComments | web.go:128-168 | The loop works on one growing list, yet it appends to its starting lines exactly the per-comment blocks, in input order |
| Thread.EmitCommentAppends | web.go:128-168 | One pass of the loop appends exactly the block of its comment. The trailing-spacer test looks at all lines so far, but only ever removes a spacer of this comment, because the header is never a bare indent |
| Thread.ThreadIsBlocks | web.go:124-171 | The view is the concatenation of the per-comment blocks, in input order |
| Thread.ThreadAppend | web.go:128-168 | The view of two runs of comments is the view of the first followed by the view of the second |
| Thread.ThreadSingle | web.go:130-167 | A comment's lines are its header, its body, the `indent + "[...]"` line exactly when its depth exceeds 10, and the "  " separator |
| Thread.IndentShape | web.go:130-131 | The indent is 6·min(depth, 4) spaces followed by "| " |
| Thread.IndentGrows | web.go:130-131 | Indent length never decreases with depth, grows strictly while the shallower depth is below 4, and is the same for all depths from 4 on |
| Thread.HeaderExample | web.go:133-139 | A depth-0 comment by user1 at "1시간전" has the header "| user1 (1시간전) 님:" |
| Thread.CommentBody | web.go:142-160 | An empty body gives the single line `indent + "[삭제됨]"`. Otherwise every body line starts with the indent and the lines hold the body's words in order. There is no line exactly when the body is all whitespace. Paragraphs are separated by single bare-indent lines, which never open or close the body |
| Thread.CommentParagraphs | web.go:142-160 | An empty body gives `indent + "[삭제됨]"`. Otherwise, with its last spacer put back, the body is each non-blank trimmed paragraph wrapped at 60 cells behind the indent and closed by one bare-indent line. A body with no such paragraph shows no line. Each wrapped paragraph shows exactly that paragraph's words on indented lines that are never a bare indent, and together the paragraphs hold all the body's words |
| Thread.CommentWidthBound | web.go:146-158 | If every character is at least one cell wide, every body line starts with the indent, and a line holding two or more words after the indent is at most 60 cells wide, indent included |
| Thread.DeletedComment | web.go:142-143 | A comment with an empty body shows its header, the deleted marker, the "[...]" line when deeper than 10, and the separator |
| Thread.BlankBodyComment | web.go:144-160 | A body that is non-empty but all whitespace gives neither body lines nor the deleted marker |
| Thread.SeparatorPerComment | web.go:167 | The view has exactly one "  " line per comment |
| Thread.ShallowThread | web.go:162-165 | For comments of depth at most 10, each comment shows only its header, body and separator |
| Feed.AlternateHrefSpec | parser.go:70-76 | The link loop takes the href of the first link whose rel is "alternate" or empty, and leaves "" when no link qualifies |
| Feed.TopicUrlChoice | parser.go:70-81 | The comments link is the first alternate link's href when that href is non-empty, and the entry id otherwise. Later alternate links are never consulted |
| Feed.ArticlesOf | parser.go:67-92 | One article per entry, in entry order, with the entry's title, empty link and comment count, the topic URL as comments link, and domain "news.hada.io" |
| Feed.ParseFeed | parser.go:61-95 | A decoding error is returned as is. Otherwise there is one article per entry, in order, with the entry's title, empty link and comment count, the topic URL as comments link, and domain "news.hada.io" |
| Feed.MatchAtSpec | parser.go:105-111 | The scan at a position finds a match of `--depth:\s*(\d+)` exactly when one exists there, and takes the digit run whole |
| Feed.LeftmostMatch | parser.go:111 | The match used is the leftmost one: no match starts before it |
| Feed.StyleDepth | parser.go:108-114 | The depth is the value of the whole digit run of the leftmost match. It is 0 when the row has no style or the style has no match |
| Feed.StyleDepthExample | parser.go:105-114 | The style "--depth: 3" gives depth 3, and a missing style gives 0 |
| Feed.ParseComments | parser.go:107-121 | Every emitted comment has depth between 0 and 10, and there are no more comments than rows |
| Feed.ParseCommentsAppend | parser.go:107-147 | The rows are processed independently and in document order |
| Feed.ParseOneRow | parser.go:109-146 | A row deeper than 10 is dropped. Otherwise it becomes the comment with the row's author, body and time, the style's depth, and the id without "cid" |
| Feed.CommentId | parser.go:129-132 | The id is the id attribute with one leading "cid" removed (unchanged without that prefix), and "" when the attribute is absent |
| Feed.CommentIdExample | parser_test.go:95-97 | "cid50523" gives "50523" |
| Pipeline.ParsedThreadHasNoMarker | parser.go:117-120 | Parsed comments are valid formatter input, and their view never gets the depth-marker line: each comment shows only its header, its body and the separator |

## Left out

- HTTP fetching: `fetchWebpage`, `fetchExternalLink`, and the glue in `fetchGeekNewsComments` that fetches a page and joins the topic view, a rule line and the comment view. This is network I/O.
- Markup decoding: `xml.Unmarshal`, the goquery selectors that find rows, authors and times, `sanitize` (html2text), and `parseGeekNewsTopicLink`. These are thin wrappers over libraries whose behaviour is not visible. The model takes their results as input: `AtomFeed` values, and `CommentRow` values carrying the style and id attributes, the author and time texts, and the plain-text body.
- `parseGeekNewsTopicContent` is not part of this model. `TopicContent` values are inputs to the topic view.
- `extractTopicID` and `extractDomainFromURL` are left out: they are thin wrappers over `net/url`.
- ui.go and main.go are left out: terminal widgets, key handling, flag parsing and launching a browser.
- The East-Asian width table of `runewidth` is not modelled. Character width is an abstract parameter, and string width is the sum of the character widths.
- Go strings are byte sequences. The model works on sequences of code points, so invalid UTF-8 is not modelled.
- `strconv.Atoi` overflow on very long digit runs is not modelled: the depth is an unbounded natural. Go clamps such a value to the largest `int`, which is also above 10, so such rows are dropped either way.
- Wrap.WrapWidthBound: proved only when every character is at least one cell wide and the space is one cell wide. With zero-width characters the source can put a zero-width word and a wide word on one over-long line (see `Wrap.ZeroWidthWordSkipsWidthTest`).
- Topic.TopicWidthBound: proved only when every character is at least one cell wide and the space is one cell wide, for the same reason as `Wrap.WrapWidthBound`. The title and meta lines are not wrapped by the source, so no bound is claimed for them.
- Thread.CommentWidthBound: proved only under the same cell-width assumption. The header line is not wrapped by the source, so no bound is claimed for it.
- Thread.FormatComments: requires every depth to be non-negative. With a negative depth, `strings.Repeat` gets a negative count and panics, so there is no view to model.
- Topic.FormatTopicContent: the color markers `[yellow]`, `[gray]` and `[-]` are kept as literal text. Interpreting them is the terminal widget's job.
