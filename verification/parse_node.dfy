/** Source spans, the values a parse produces and the generic parse-tree
    node built by the default reduction handler. */
module ParseNodes {
  import opened Wrappers
  import opened Symbols
  import opened Text

  /** A span of source text; the default constructor leaves every field 0. */
  datatype SourcePos = SourcePos(lineStart: int, charStart: int, lineEnd: int, charEnd: int)

  const DefaultPos: SourcePos := SourcePos(0, 0, 0, 0)

  /** The display form of a span: start line, start column and end column. */
  function PosString(p: SourcePos): string {
    "line " + IntString(p.lineStart) + ":" + IntString(p.charStart) + "-" + IntString(p.charEnd)
  }

  /** A value on the parse stack: `null`, a token, a generic parse node, the
      raw array of a rule's symbols, or a list built by a list handler. */
  datatype Value =
    | Null
    | Token(t: Terminal)
    | Node(node: ParseNode)
    | Array(elems: seq<Value>)
    | List(elems: seq<Value>)

  /** A `GenericParseNode`: the nonterminal it was reduced to, its span, and
      its components (possibly `null`). */
  datatype ParseNode = ParseNode(nodeType: Nonterminal, from: Option<SourcePos>, components: Option<seq<Value>>)

  /** The constructor stores its arguments as given. */
  function MakeNode(nodeType: Nonterminal, from: Option<SourcePos>, symbols: Option<seq<Value>>): (n: ParseNode)
    ensures n.nodeType == nodeType && n.from == from && n.components == symbols
  {
    ParseNode(nodeType, from, symbols)
  }

  /** `GenericParseNode.toString`, given the display forms of its components:
      the type's name in angle brackets, then each component followed by
      ", ", with the last separator trimmed, inside parentheses. */
  function NodeString(nodeType: Nonterminal, parts: Option<seq<string>>): string {
    var head := NontermString(nodeType) + "(";
    if parts.None? || |parts.value| == 0 then head + ")"
    else
      var body := EachFollowedBy(parts.value, ", ");
      head + body[..|body| - 2] + ")"
  }

  /** Components render in order, separated by ", ", with no trailing
      separator; none or null render as empty parentheses. */
  lemma NodeStringJoins(nodeType: Nonterminal, parts: Option<seq<string>>)
    ensures parts.Some? ==>
      NodeString(nodeType, parts) == "<" + nodeType.name + ">(" + Join(parts.value, ", ") + ")"
    ensures parts.None? ==> NodeString(nodeType, parts) == "<" + nodeType.name + ">()"
  {
    if parts.Some? && |parts.value| > 0 {
      TrimmedEachIsJoin(parts.value, ", ");
    }
  }
}
