/** The parsed page, reduced to what the analysis reads from it. The HTML
    parser itself is not part of this model: a page is given as its text
    nodes in document order and its `<meta>` tags in document order. */
module Page {

  datatype Option<T> = None | Some(value: T)

  /** A text node together with the tag name of its enclosing element
      (`element.parent.name`); the root's name is `[document]`. */
  datatype TextNode = TextNode(parent: string, text: string)

  /** A `<meta>` tag: its `name` and `content` attributes, each possibly absent. */
  datatype MetaTag = MetaTag(name: Option<string>, content: Option<string>)
}
