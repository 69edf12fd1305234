/** How documents may be written, character by character, and what is meant: no parser is involved. */
module XmlSources {
  import opened XmlText
  import opened XmlGrammar

  // ---------- the pieces of a text ----------

  /** An attribute with the white space before and around its equals sign, and its quote. */
  datatype Attr = Attr(before: string, name: string, gap: string, gap': string, quote: char, raw: string)

  datatype Kind = CommentKind | CDataKind | DeclarationKind | UnknownKind

  datatype End = End(gap: string, inner: string, attrs: seq<Attr>, last: string)

  /** Markup has white space before it, and a tag also behind its '<' and before its end. An end tag can have
    * attributes, which nobody looks at, and one that ends in "/>" is an empty element.
    */
  datatype Source =
    | Plain(raw: string)
    | Marked(gap: string, kind: Kind, raw: string)
    | Void(gap: string, inner: string, slash: bool, name: string, attrs: seq<Attr>, last: string)
    | Tagged(gap: string, inner: string, name: string, attrs: seq<Attr>, last: string, kids: seq<Source>, end: End)

  function Header(kind: Kind): string {
    match kind case CommentKind => "<!--" case CDataKind => "<![CDATA[" case DeclarationKind => "<?" case UnknownKind => "<!"
  }

  function Footer(kind: Kind): (s: string)
    ensures s != ""
  {
    match kind case CommentKind => "-->" case CDataKind => "]]>" case DeclarationKind => "?>" case UnknownKind => ">"
  }

  // ---------- how they are written, before the rest of the text ----------

  function AttrText(a: Attr, rest: string): string {
    a.before + (a.name + (a.gap + ("=" + (a.gap' + ([a.quote] + (a.raw + ([a.quote] + rest)))))))
  }

  function AttrsText(attrs: seq<Attr>, rest: string): string {
    if attrs == [] then rest else AttrText(attrs[0], AttrsText(attrs[1..], rest))
  }

  function TagText(inner: string, slash: bool, name: string, attrs: seq<Attr>, rest: string): string {
    inner + ((if slash then "/" else "") + (name + AttrsText(attrs, rest)))
  }

  function EndText(end: End, name: string, rest: string): string {
    end.gap + ("<" + TagText(end.inner, true, name, end.attrs, end.last + (">" + rest)))
  }

  function SourceText(src: Source, rest: string): string
    decreases src
  {
    match src
    case Plain(raw) => raw + rest
    case Marked(gap, kind, raw) => gap + (Header(kind) + (raw + (Footer(kind) + rest)))
    case Void(gap, inner, slash, name, attrs, last) => gap + ("<" + TagText(inner, slash, name, attrs, last + ("/>" + rest)))
    case Tagged(gap, inner, name, attrs, last, kids, end) =>
      gap + ("<" + TagText(inner, false, name, attrs, last + (">" + SourcesText(kids, EndText(end, name, rest)))))
  }

  function SourcesText(srcs: seq<Source>, rest: string): string
    decreases srcs
  {
    if srcs == [] then rest else SourceText(srcs[0], SourcesText(srcs[1..], rest))
  }

  // ---------- what is meant ----------

  function MeantAttr(a: Attr): Attribute {
    Attribute(a.name, Decoded(a.raw, ATTRIBUTE_VALUE))
  }

  function MeantAttrs(attrs: seq<Attr>): (r: seq<Attribute>)
    ensures |r| == |attrs| && forall i :: 0 <= i < |attrs| ==> r[i] == MeantAttr(attrs[i])
  {
    if attrs == [] then [] else [MeantAttr(attrs[0])] + MeantAttrs(attrs[1..])
  }

  function Meant(src: Source): Node
    decreases src
  {
    match src
    case Plain(raw) => Text(Decoded(raw, TEXT_ELEMENT), false)
    case Marked(_, kind, raw) => MeantMarkup(kind, Decoded(raw, COMMENT))
    case Void(_, _, _, name, attrs, _) => Element(name, MeantAttrs(attrs), [])
    case Tagged(_, _, name, attrs, _, kids, _) => Element(name, MeantAttrs(attrs), MeantAll(kids))
  }

  function MeantMarkup(kind: Kind, value: string): Node {
    match kind
    case CommentKind => Comment(value)
    case CDataKind => Text(value, true)
    case DeclarationKind => Declaration(value)
    case UnknownKind => Unknown(value)
  }

  function MeantAll(srcs: seq<Source>): (nodes: seq<Node>)
    ensures |nodes| == |srcs|
    decreases srcs
  {
    if srcs == [] then [] else [Meant(srcs[0])] + MeantAll(srcs[1..])
  }

  // ---------- what may be written ----------

  /** Either quote, and it ends the value. */
  predicate LegalAttr(a: Attr) {
    && Blank(a.before) && LegalName(a.name) && Blank(a.gap) && Blank(a.gap')
    && (a.quote == '\"' || a.quote == '\'') && a.quote !in a.raw
  }

  /** No name twice; the first is set off from the name of the tag. */
  predicate LegalAttrs(attrs: seq<Attr>) {
    && (forall i :: 0 <= i < |attrs| ==> LegalAttr(attrs[i]))
    && (forall i, j :: 0 <= i < j < |attrs| ==> attrs[i].name != attrs[j].name)
    && (attrs != [] ==> attrs[0].before != "")
  }

  predicate LegalTag(inner: string, name: string, attrs: seq<Attr>, last: string) {
    Blank(inner) && LegalName(name) && LegalAttrs(attrs) && Blank(last)
  }

  /** The tag stands behind the text, and nowhere before. */
  predicate EndsFirst(raw: string, tag: string) {
    forall i :: 0 <= i < |raw| ==> !(tag <= (raw + tag)[i..])
  }

  predicate LegalMark(kind: Kind, raw: string) {
    && EndsFirst(raw, Footer(kind))
    && (kind == UnknownKind ==> !("--" <= raw) && !("[CDATA[" <= raw))
  }

  /** An end tag has the name of its start tag. */
  predicate LegalSource(src: Source)
    decreases src
  {
    match src
    case Plain(raw) => !Blank(raw) && '<' !in raw
    case Marked(gap, kind, raw) => Blank(gap) && LegalMark(kind, raw)
    case Void(gap, inner, _, name, attrs, last) => Blank(gap) && LegalTag(inner, name, attrs, last)
    case Tagged(gap, inner, name, attrs, last, kids, end) =>
      && Blank(gap) && LegalTag(inner, name, attrs, last)
      && LegalSources(kids, end.gap) && NoDeclarations(kids)
      && Blank(end.gap) && LegalTag(end.inner, name, end.attrs, end.last)
  }

  /** A text goes up to the next '<'. */
  predicate LegalSources(srcs: seq<Source>, gap: string)
    decreases srcs
  {
    srcs == [] || (LegalSource(srcs[0]) && (srcs[0].Plain? ==> NextGap(srcs[1..], gap) == "") && LegalSources(srcs[1..], gap))
  }

  /** The white space before what comes next; a text is set off by nothing. */
  function NextGap(srcs: seq<Source>, gap: string): string {
    if srcs == [] then gap else if srcs[0].Plain? then " " else srcs[0].gap
  }

  predicate IsDeclaration(src: Source) {
    src.Marked? && src.kind == DeclarationKind
  }

  predicate NoDeclarations(srcs: seq<Source>) {
    forall i :: 0 <= i < |srcs| ==> !IsDeclaration(srcs[i])
  }

  predicate DeclarationsFirst(srcs: seq<Source>) {
    forall i, j :: 0 <= i < j < |srcs| && IsDeclaration(srcs[j]) ==> IsDeclaration(srcs[i])
  }

  /** How many levels are open at once below the one that a source is on. */
  function Depth(src: Source): nat
    decreases src
  {
    if src.Tagged? then 1 + DepthOf(src.kids) else 0
  }

  function DepthOf(srcs: seq<Source>): nat
    decreases srcs
  {
    if srcs == [] then 0 else if Depth(srcs[0]) > DepthOf(srcs[1..]) then Depth(srcs[0]) else DepthOf(srcs[1..])
  }

  /** A whole document, with white space at its end. */
  predicate LegalDocument(srcs: seq<Source>, last: string) {
    && LegalSources(srcs, last) && DeclarationsFirst(srcs) && Blank(last)
    && (srcs != [] ==> !srcs[|srcs| - 1].Plain?)
  }

  /** What may stand before a document: white space, and a byte order mark. */
  predicate Begins(input: string, gap: string, mark: string, text: string) {
    && CString(input) == gap + (mark + text) && Blank(gap) && text != "" && (mark == "" || mark == BOM)
    && (mark == "" ==> !IsWhiteSpace(text[0]) && !(BOM <= text))
  }

  /** The input is a legal document, with at most 98 elements around a node. */
  predicate IsDocument(input: string, gap: string, mark: string, srcs: seq<Source>, last: string) {
    && Begins(input, gap, mark, SourcesText(srcs, last))
    && LegalDocument(srcs, last) && DepthOf(srcs) <= 98
  }

  /** Or an end tag on the document's own level ends it, whatever comes then. */
  predicate IsCutShort(input: string, gap: string, mark: string, srcs: seq<Source>, end: End, tag: string, rest: string) {
    && Begins(input, gap, mark, SourcesText(srcs, EndText(end, tag, rest)))
    && LegalSources(srcs, end.gap) && DeclarationsFirst(srcs) && DepthOf(srcs) <= 98
    && Blank(end.gap) && LegalTag(end.inner, tag, end.attrs, end.last)
  }

  /** The input is a text of these nodes. */
  ghost predicate Denotes(input: string, nodes: seq<Node>) {
    || (exists gap, mark, srcs, last :: IsDocument(input, gap, mark, srcs, last) && MeantAll(srcs) == nodes)
    || (exists gap, mark, srcs, end, tag, rest :: IsCutShort(input, gap, mark, srcs, end, tag, rest) && MeantAll(srcs) == nodes)
  }
}
