/**
 * The parts of a parsed doc comment that the plugins read: the summary and
 * the content of each block tag, each a sequence of display parts carrying text.
 */
module Comments {

  datatype CommentDisplayPart = CommentDisplayPart(text: string)

  /** A block tag; only its content is indexed, so its name is not kept. */
  datatype CommentTag = CommentTag(content: seq<CommentDisplayPart>)

  datatype Comment = Comment(
    summary: seq<CommentDisplayPart>,
    blockTags: seq<CommentTag>)
}
