/** The parsed HTML document as the discovery code sees it: the node kind,
    the tag name, the attributes and the children of every node. The
    parser's `FirstChild`/`NextSibling` links become a sequence of children
    in document order. */
module Html {
  import opened GoStrings

  /** `html.NodeType`. */
  datatype NodeType = ErrorNode | TextNode | DocumentNode | ElementNode | CommentNode | DoctypeNode | RawNode

  /** `html.Attribute` without its namespace, which the resolver never reads. */
  datatype Attribute = Attribute(key: GoString, val: GoString)

  /** `html.Node`: `data` is the tag name of an element node. */
  datatype Node = Node(kind: NodeType, data: GoString, attrs: seq<Attribute>, children: seq<Node>)
}
