/** The mutable node of a YAML graph, shared by the algorithms that walk such graphs. */
module YamlNode {
  datatype Kind = Unset | Document | Sequence | Mapping | Scalar | Alias

  class Node {
    var kind: Kind
    var style: int
    var tag: string
    var value: string
    var anchor: string
    var alias: Node?
    var content: seq<Node?>
    var headComment: string
    var lineComment: string
    var footComment: string
    var line: int
    var column: int

    // A struct copy of another node, without its references.
    constructor CopyScalars(n: Node)
      ensures SameScalars(n) && anchor == n.anchor && alias == null && content == []
    {
      kind, style, tag, value, anchor := n.kind, n.style, n.tag, n.value, n.anchor;
      headComment, lineComment, footComment := n.headComment, n.lineComment, n.footComment;
      line, column := n.line, n.column;
      alias, content := null, [];
    }

    // A node of some kind, with no more than a value or children.
    constructor Plain(kind: Kind, value: string, content: seq<Node?>)
      ensures this.kind == kind && this.value == value && this.content == content
      ensures style == line == column == 0 && tag == anchor == "" && alias == null
      ensures headComment == lineComment == footComment == ""
    {
      this.kind, this.value, this.content := kind, value, content;
      style, line, column, tag, anchor, alias := 0, 0, 0, "", "", null;
      headComment, lineComment, footComment := "", "", "";
    }

    // All fields but the anchor and the references.
    ghost predicate SameScalars(n: Node)
      reads this, n
    {
      && kind == n.kind && style == n.style && tag == n.tag && value == n.value
      && headComment == n.headComment && lineComment == n.lineComment && footComment == n.footComment
      && line == n.line && column == n.column
    }
  }

  // Everything a node of the set refers to is in the set.
  ghost predicate Closed(nodes: set<Node>)
    reads nodes
  {
    forall n | n in nodes :: Inside(n, nodes)
  }

  ghost predicate Inside(n: Node, nodes: set<Node>)
    reads n
  {
    && (n.alias == null || n.alias in nodes)
    && forall i | 0 <= i < |n.content| :: n.content[i] == null || n.content[i] in nodes
  }
}
