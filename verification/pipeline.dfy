/**
  The comment rows of a topic page, through `parseGeekNewsComments` and then
  `formatComments`. The parser keeps only comments of depth at most 10, so the
  formatter's "[...]" line for deeper comments is never produced on this path.
 */
module Pipeline {
  import Feed
  import Thread

  /** The parsed comments are valid input for the formatter, and their view is, comment by
      comment, the header, the body and the separator, with no "[...]" line. */
  lemma ParsedThreadHasNoMarker(rows: seq<Feed.CommentRow>, width: char -> nat)
    ensures Thread.ValidDepths(Feed.ParseComments(rows))
    ensures var cs := Feed.ParseComments(rows);
      Thread.FormatComments(cs, width) == Thread.ShallowBlocks(cs, width)
  {
    Thread.ShallowThread(Feed.ParseComments(rows), width);
  }
}
