/** The records that flow between the parser and the layout code. */
module Records {

  /** One entry of the article list. `link` is the external article URL, `comments` the
      comment count, `commentsLink` the topic page, `domain` the host shown next to it. */
  datatype Article = Article(
    title: string,
    link: string,
    comments: string,
    commentsLink: string,
    domain: string)

  /** One comment of a thread. `depth` is the 0-based nesting level; `time` is shown as is. */
  datatype Comment = Comment(
    author: string,
    body: string,
    depth: int,
    time: string,
    id: string)

  /** The content of a topic page; a missing section is an empty string. */
  datatype TopicContent = TopicContent(
    title: string,
    externalLink: string,
    body: string,
    author: string,
    time: string,
    points: string)
}
