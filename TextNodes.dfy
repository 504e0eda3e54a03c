/**
  The inline node value produced by the Markdown tokenizer: a text, its kind
  and an optional url. Equality is structural, as for the repository's
  `TextNode` (two nodes are equal when text, kind and url are).
*/
module TextNodes {
  import opened Wrappers

  datatype TextType = Text | Bold | Italic | Code | Link | Image

  datatype TextNode = TextNode(text: string, textType: TextType, url: Option<string>)

  /** The texts of a node sequence, in order. */
  function Texts(nodes: seq<TextNode>): (r: seq<string>)
    decreases |nodes|
  {
    if nodes == [] then [] else Texts(nodes[..|nodes| - 1]) + [nodes[|nodes| - 1].text]
  }
}
