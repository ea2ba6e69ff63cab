/**
 * The tokens of golang.org/x/net/html as the table extractor sees them.
 * The tokenizer itself is not modelled: an HTML body is given as the
 * sequence of tokens it yields before io.EOF.
 */
module HtmlToken {

  /** html.TokenType, without ErrorToken: the end of the sequence stands for io.EOF. */
  datatype TokenType = TextToken | StartTagToken | EndTagToken | SelfClosingTagToken | CommentToken | DoctypeToken

  /** html.Attribute (its namespace is never consulted). */
  datatype Attribute = Attribute(key: string, val: string)

  /**
   * html.Token: `data` is the tag name of a tag token and the text of a
   * text, comment or doctype token; `attrs` holds the attributes of a tag
   * token (start, end or self-closing) and is empty on every other kind.
   */
  datatype Token = Token(kind: TokenType, data: string, attrs: seq<Attribute>)
}
