/** What tinyxml2's printer writes in compact mode, and what its parser reads:
  * reference functions on the text that is still to be read.
  */
module XmlGrammar {
  import opened XmlText

  datatype Attribute = Attribute(name: string, value: string)

  datatype Node =
    | Element(name: string, attributes: seq<Attribute>, kids: seq<Node>)
    | Text(value: string, cdata: bool)
    | Comment(value: string)
    | Declaration(value: string)
    | Unknown(value: string)

  // ---------- printing ----------

  function PrintAttribute(a: Attribute): string {
    a.name + "=\"" + Escape(a.value, false) + "\""
  }

  function PrintAttributes(attributes: seq<Attribute>): string {
    if attributes == [] then "" else " " + PrintAttribute(attributes[0]) + PrintAttributes(attributes[1..])
  }

  function PrintNode(node: Node): string
    decreases node
  {
    match node
    case Element(name, attributes, kids) =>
      "<" + name + PrintAttributes(attributes) +
      (if kids == [] then "/>" else ">" + PrintNodes(kids) + "</" + name + ">")
    case Text(value, cdata) => if cdata then "<![CDATA[" + value + "]]>" else Escape(value, true)
    case Comment(value) => "<!--" + value + "-->"
    case Declaration(value) => "<?" + value + "?>"
    case Unknown(value) => "<!" + value + ">"
  }

  function PrintNodes(nodes: seq<Node>): string
    decreases nodes
  {
    if nodes == [] then "" else PrintNode(nodes[0]) + PrintNodes(nodes[1..])
  }

  // ---------- parsing ----------

  datatype XmlError =
    | ErrorEmptyDocument | ErrorParsing | ErrorMismatchedElement | ErrorParsingElement | ErrorParsingAttribute
    | ErrorParsingText | ErrorParsingCData | ErrorParsingComment | ErrorParsingDeclaration | ErrorParsingUnknown
    | ErrorDepthExceeded

  const MAX_ELEMENT_DEPTH := 100

  function SkipWhiteSpace(s: string): (r: string)
    ensures |r| <= |s| && r == s[|s| - |r|..]
    ensures r != [] ==> !IsWhiteSpace(r[0])
  {
    if s != [] && IsWhiteSpace(s[0]) then SkipWhiteSpace(s[1..]) else s
  }

  predicate Blank(s: string) {
    forall i :: 0 <= i < |s| ==> IsWhiteSpace(s[i])
  }

  predicate LegalName(name: string) {
    name != [] && IsNameStartChar(name[0]) && forall i :: 0 <= i < |name| ==> IsNameChar(name[i])
  }

  function NameLength(s: string): (n: nat)
    ensures n <= |s|
  {
    if s != [] && IsNameChar(s[0]) then 1 + NameLength(s[1..]) else 0
  }

  /** `ParseName`: how many characters make up the name at the start of s; 0 if none does. */
  function ParseName(s: string): (n: nat)
    ensures n <= |s|
  {
    if s != [] && IsNameStartChar(s[0]) then 1 + NameLength(s[1..]) else 0
  }

  datatype Found = NotFound | FoundAt(k: nat)

  /** `ParseText`: how many characters precede the end tag. */
  function ParseText(s: string, endTag: string): (r: Found)
    requires endTag != []
    ensures r.FoundAt? ==> r.k + |endTag| <= |s|
  {
    if s == [] then NotFound
    else if endTag <= s then FoundAt(0)
    else
      match ParseText(s[1..], endTag)
      case NotFound => NotFound
      case FoundAt(k) => FoundAt(k + 1)
  }

  function Decoded(raw: string, f: Flags): string {
    DecodeInPlace(raw, 0, "", f)
  }

  /** The text at an attribute's opening quote, after its '='; empty if there is no '='. */
  function SkipEquals(s: string): (u: string)
    ensures |u| <= |s|
  {
    var t := SkipWhiteSpace(s);
    if At(t, 0) != '=' then s[|s|..] else SkipWhiteSpace(t[1..])
  }

  datatype QuotedResult = NotQuoted | Quoted(value: string, rest: string)

  /** A value in double or single quotes. */
  function ParseQuoted(u: string): (r: QuotedResult)
    ensures r.Quoted? ==> |r.rest| < |u|
  {
    if At(u, 0) != '\"' && At(u, 0) != '\'' then NotQuoted
    else
      match ParseText(u[1..], [u[0]])
      case NotFound => NotQuoted
      case FoundAt(k) => Quoted(Decoded(u[1..k + 1], ATTRIBUTE_VALUE), u[k + 2..])
  }

  datatype AttributeResult = NoAttribute | OneAttribute(attribute: Attribute, rest: string)

  /** `XMLAttribute::ParseDeep`. */
  function ParseAttribute(s: string): (r: AttributeResult)
    ensures r.OneAttribute? ==> |r.rest| < |s|
  {
    var n := ParseName(s);
    if n == 0 || n == |s| then NoAttribute
    else
      match ParseQuoted(SkipEquals(s[n..]))
      case NotQuoted => NoAttribute
      case Quoted(value, rest) => OneAttribute(Attribute(s[..n], value), rest)
  }

  datatype ClosingType = Open | Closed | Closing

  datatype AttributesResult = AttributesFailed(error: XmlError)
                            | Attributes(attributes: seq<Attribute>, sealed: bool, rest: string)

  predicate HasAttribute(attributes: seq<Attribute>, name: string) {
    exists i :: 0 <= i < |attributes| && attributes[i].name == name
  }

  /** `XMLElement::ParseAttributes`, with the attributes read so far; `sealed` tells "/>" from ">". */
  function ParseAttributes(s: string, attributes: seq<Attribute>): (r: AttributesResult)
    ensures r.Attributes? ==> |r.rest| < |s|
    decreases |s|
  {
    var t := SkipWhiteSpace(s);
    if t == [] then AttributesFailed(ErrorParsingElement)
    else if IsNameStartChar(t[0]) then
      match ParseAttribute(t)
      case NoAttribute => AttributesFailed(ErrorParsingAttribute)
      case OneAttribute(attribute, rest) =>
        if HasAttribute(attributes, attribute.name) then AttributesFailed(ErrorParsingAttribute)
        else ParseAttributes(rest, attributes + [attribute])
    else if t[0] == '>' then Attributes(attributes, false, t[1..])
    else if "/>" <= t then Attributes(attributes, true, t[2..])
    else AttributesFailed(ErrorParsingElement)
  }

  datatype TagResult = TagFailed(error: XmlError)
                     | Tag(name: string, attributes: seq<Attribute>, closing: ClosingType, rest: string)

  /** The tag an element starts with (after its '<'); an end tag reads like an element. */
  function ParseTag(s: string): (r: TagResult)
    ensures r.Tag? ==> |r.rest| < |s|
  {
    var t := SkipWhiteSpace(s);
    var u := if At(t, 0) == '/' then t[1..] else t;
    var n := ParseName(u);
    if n == 0 then TagFailed(ErrorParsing)
    else
      match ParseAttributes(u[n..], [])
      case AttributesFailed(error) => TagFailed(error)
      case Attributes(attributes, sealed, rest) =>
        Tag(u[..n], attributes, if sealed then Closed else if At(t, 0) == '/' then Closing else Open, rest)
  }

  datatype BetweenResult = NotClosed | Between(value: string, rest: string)

  /** The value between a header of the given length and its end tag. */
  function ParseBetween(t: string, header: nat, endTag: string): (r: BetweenResult)
    requires header <= |t| && endTag != []
    ensures r.Between? ==> |r.rest| < |t|
  {
    match ParseText(t[header..], endTag)
    case NotFound => NotClosed
    case FoundAt(k) => Between(Decoded(t[header..header + k], COMMENT), t[header + k + |endTag|..])
  }

  datatype MarkupResult = NoMarkup | MarkupFailed(error: XmlError) | Markup(node: Node, rest: string)

  /** The nodes that `Identify` knows by a header longer than '<', in its order. */
  function ParseMarkup(t: string): (r: MarkupResult)
    ensures r.Markup? ==> |r.rest| < |t|
  {
    if "<?" <= t then
      match ParseBetween(t, 2, "?>")
      case NotClosed => MarkupFailed(ErrorParsingDeclaration)
      case Between(value, rest) => Markup(Declaration(value), rest)
    else if "<!--" <= t then
      match ParseBetween(t, 4, "-->")
      case NotClosed => MarkupFailed(ErrorParsingComment)
      case Between(value, rest) => Markup(Comment(value), rest)
    else if "<![CDATA[" <= t then
      match ParseBetween(t, 9, "]]>")
      case NotClosed => MarkupFailed(ErrorParsingCData)
      case Between(value, rest) => Markup(Text(value, true), rest)
    else if "<!" <= t then
      match ParseBetween(t, 2, ">")
      case NotClosed => MarkupFailed(ErrorParsingUnknown)
      case Between(value, rest) => Markup(Unknown(value), rest)
    else NoMarkup
  }

  /** What reading one level of siblings ends with: an error, the end of the
    * text, or an end tag, which the level above has to match.
    */
  datatype Siblings =
    | Failed(error: XmlError)
    | AtEnd(nodes: seq<Node>)
    | ClosedBy(nodes: seq<Node>, tag: string, rest: string)

  predicate OnlyDeclarations(nodes: seq<Node>) {
    nodes != [] ==> nodes[0].Declaration? && nodes[|nodes| - 1].Declaration?
  }

  /** One turn of `ParseDeep`'s loop: nothing left, an end tag, or a node. */
  datatype NodeResult =
    | NodeFailed(error: XmlError)
    | NoNode
    | EndTag(name: string, rest: string)
    | OneNode(node: Node, rest: string)

  function ParseNode(s: string, depth: nat): (r: NodeResult)
    ensures r.EndTag? || r.OneNode? ==> |r.rest| < |s|
    decreases |s|, 0
  {
    var t := SkipWhiteSpace(s);
    if t == [] then NoNode
    else
      match ParseMarkup(t)
      case MarkupFailed(error) => NodeFailed(error)
      case Markup(node, rest) => OneNode(node, rest)
      case NoMarkup => if t[0] == '<' then ParseElement(t[1..], depth) else ParsePlain(s)
  }

  /** An element, after its '<': its children are read one level deeper, up to an end tag that must name it. */
  function ParseElement(s: string, depth: nat): (r: NodeResult)
    ensures r.EndTag? || r.OneNode? ==> |r.rest| <= |s|
    decreases |s|, 2
  {
    match ParseTag(s)
    case TagFailed(error) => NodeFailed(error)
    case Tag(name, attributes, closing, rest) =>
      if closing == Closing then EndTag(name, rest)
      else if closing == Closed then OneNode(Element(name, attributes, []), rest)
      else if rest == [] then NodeFailed(ErrorMismatchedElement)
      else
        match ParseSiblings(rest, depth + 1, [])
        case Failed(error) => NodeFailed(error)
        case AtEnd(_) => NodeFailed(ErrorParsing)
        case ClosedBy(kids, tag, rest') =>
          if tag != name then NodeFailed(ErrorMismatchedElement)
          else OneNode(Element(name, attributes, kids), rest')
  }

  /** A text, which must be followed by a '<' that is not the last character. */
  function ParsePlain(s: string): (r: NodeResult)
    requires SkipWhiteSpace(s) != [] && SkipWhiteSpace(s)[0] != '<'
    ensures r.OneNode? ==> |r.rest| < |s|
    ensures !r.EndTag?
  {
    match ParseText(s, "<")
    case NotFound => NodeFailed(ErrorParsingText)
    case FoundAt(k) =>
      if k + 1 == |s| then NodeFailed(ErrorParsing)
      else
        FirstIsNoTag(s, k);
        OneNode(Text(Decoded(s[..k], TEXT_ELEMENT), false), s[k..])
  }

  /** `XMLNode::ParseDeep` at the given depth (the document's own level is 1), with the siblings read so far. */
  function ParseSiblings(s: string, depth: nat, nodes: seq<Node>): (r: Siblings)
    ensures r.ClosedBy? ==> |r.rest| < |s|
    decreases |s|, 1
  {
    if depth >= MAX_ELEMENT_DEPTH then Failed(ErrorDepthExceeded)
    else
      match ParseNode(s, depth)
      case NodeFailed(error) => Failed(error)
      case NoNode => AtEnd(nodes)
      case EndTag(name, rest) => ClosedBy(nodes, name, rest)
      case OneNode(node, rest) =>
        if node.Declaration? && !(depth == 1 && OnlyDeclarations(nodes)) then Failed(ErrorParsingDeclaration)
        else ParseSiblings(rest, depth, nodes + [node])
  }

  /** A text that does not start with '<' is not empty. */
  lemma FirstIsNoTag(s: string, k: nat)
    requires SkipWhiteSpace(s) != [] && SkipWhiteSpace(s)[0] != '<'
    requires ParseText(s, "<") == FoundAt(k)
    ensures 0 < k
  {
    hide ParseMarkup, ParseTag;
    SkipAtMark(s);
  }

  lemma SkipAtMark(s: string)
    ensures "<" <= s ==> SkipWhiteSpace(s) == s && s != [] && s[0] == '<'
  {
  }

  datatype Document = ParseError(error: XmlError) | Parsed(nodes: seq<Node>)

  const BOM := [0xEF as char, 0xBB as char, 0xBF as char]

  /** `XMLDocument::Parse`; an end tag on the document's own level ends it without an error. */
  function Parse(input: string): Document {
    var s := SkipWhiteSpace(CString(input));
    var t := if BOM <= s then s[3..] else s;
    if t == [] then ParseError(ErrorEmptyDocument)
    else
      match ParseSiblings(t, 1, [])
      case Failed(error) => ParseError(error)
      case AtEnd(nodes) => Parsed(nodes)
      case ClosedBy(nodes, _, _) => Parsed(nodes)
  }
}
