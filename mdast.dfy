/**
 * The slice of the mdast syntax tree that the sectioning helper looks at:
 * the top-level children of a document root, each either a heading (with
 * its depth) or some other block. A node's `text` is its plain-text
 * rendering, the string that mdast's `toString` produces for it.
 */
module Mdast {
  import JsText

  /** Heading depth: `#` is 1, `######` is 6. */
  type Depth = d: int | 1 <= d <= 6 witness 1

  /** A top-level node. `Other` stands for every block that is not a
      heading (paragraph, list, table, ...); which kind it is never matters
      here, so it is not recorded. */
  datatype Node =
    | Heading(depth: Depth, text: string)
    | Other(text: string)

  datatype Root = Root(children: seq<Node>)

  /** `nodeText`: the node's plain text with surrounding whitespace trimmed. */
  function NodeText(node: Node): (r: string)
    ensures |r| <= |node.text|
    ensures r == [] || (!JsText.IsWhitespace(r[0]) && !JsText.IsWhitespace(r[|r| - 1]))
  {
    JsText.Trim(node.text)
  }
}
