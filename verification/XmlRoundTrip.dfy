/** Parsing what the printer writes gives the same nodes back. */
module XmlRoundTrip {
  import opened XmlText
  import opened XmlGrammar
  import XmlDecode

  // ---------- the documents the law is about ----------

  predicate LegalAttributes(attributes: seq<Attribute>) {
    && (forall i :: 0 <= i < |attributes| ==> LegalName(attributes[i].name) && PlainText(attributes[i].value))
    && (forall i, j :: 0 <= i < j < |attributes| ==> attributes[i].name != attributes[j].name)
  }

  predicate IsPlain(node: Node) {
    node.Text? && !node.cdata
  }

  /** Markup that does not contain what ends it, and is not taken for other markup. */
  predicate LegalMarkup(node: Node) {
    match node
    case Text(value, cdata) => cdata && PlainText(value) && ParseText(value, "]]>") == NotFound
    case Comment(value) => PlainText(value) && ParseText(value, "-->") == NotFound
    case Unknown(value) => PlainText(value) && '>' !in value && !("--" <= value) && !("[CDATA[" <= value)
    case Declaration(value) => PlainText(value) && ParseText(value, "?>") == NotFound
    case Element(_, _, _) => false
  }

  /** Names are legal and distinct where they must be, text is not blank,
    * nothing contains its own terminator, and no declaration is nested.
    */
  predicate Legal(node: Node)
    decreases node
  {
    match node
    case Element(name, attributes, kids) => LegalName(name) && LegalAttributes(attributes) && LegalNodes(kids)
    case Text(value, false) => PlainText(value) && !Blank(value)
    case Declaration(_) => false
    case _ => LegalMarkup(node)
  }

  /** Two adjacent texts would come back as one. */
  predicate LegalNodes(nodes: seq<Node>)
    decreases nodes
  {
    && (forall i :: 0 <= i < |nodes| ==> Legal(nodes[i]))
    && (forall i :: 0 <= i < |nodes| - 1 ==> !(IsPlain(nodes[i]) && IsPlain(nodes[i + 1])))
  }

  /** How many levels of ParseDeep a node needs below the level it is on. */
  function Levels(node: Node): nat
    decreases node
  {
    if node.Element? && node.kids != [] then 1 + LevelsOf(node.kids) else 0
  }

  function LevelsOf(nodes: seq<Node>): nat
    decreases nodes
  {
    if nodes == [] then 0
    else if Levels(nodes[0]) > LevelsOf(nodes[1..]) then Levels(nodes[0]) else LevelsOf(nodes[1..])
  }

  // ---------- names, white space, terminators ----------

  lemma {:induction false} NameLengthOf(name: string, rest: string)
    requires forall i :: 0 <= i < |name| ==> IsNameChar(name[i])
    requires rest == [] || !IsNameChar(rest[0])
    ensures NameLength(name + rest) == |name|
  {
    if name == [] {
      assert name + rest == rest;
    } else {
      NameLengthOf(name[1..], rest);
      assert (name + rest)[1..] == name[1..] + rest;
    }
  }

  lemma ParseNameOf(name: string, rest: string)
    requires LegalName(name) && (rest == [] || !IsNameChar(rest[0]))
    ensures ParseName(name + rest) == |name|
  {
    NameLengthOf(name[1..], rest);
    assert (name + rest)[1..] == name[1..] + rest;
  }

  lemma NoWhiteSpace(s: string)
    requires s != [] && !IsWhiteSpace(s[0])
    ensures SkipWhiteSpace(s) == s
  {
  }

  /** The terminator is found where it was written, if the text before it does not contain it. */
  lemma {:induction false} ParseTextOf(text: string, endTag: string, rest: string)
    requires endTag != [] && ParseText(text, endTag) == NotFound
    requires forall i :: 0 <= i < |endTag| - 1 ==> endTag[i] != endTag[|endTag| - 1]
    ensures ParseText(text + endTag + rest, endTag) == FoundAt(|text|)
  {
    var s := text + endTag + rest;
    if text == [] {
      assert s == endTag + rest;
    } else {
      ParseTextOf(text[1..], endTag, rest);
      assert s[1..] == text[1..] + endTag + rest;
      NotYet(text, endTag, rest);
    }
  }

  lemma NotYet(text: string, endTag: string, rest: string)
    requires endTag != [] && text != [] && !(endTag <= text)
    requires forall i :: 0 <= i < |endTag| - 1 ==> endTag[i] != endTag[|endTag| - 1]
    ensures !(endTag <= text + endTag + rest)
  {
    var s, n := text + endTag + rest, |endTag| - 1;
    assert n < |text| ==> s[..n + 1] == text[..n + 1];
    assert n >= |text| ==> s[n] == endTag[n - |text|];
  }

  lemma {:induction false} NoTerminator(text: string, c: char)
    requires c !in text
    ensures ParseText(text, [c]) == NotFound
  {
    if text != [] {
      assert text[0] in text;
      NoTerminator(text[1..], c);
    }
  }

  // ---------- values ----------

  lemma EscapedValue(s: string, restricted: bool)
    requires PlainText(s)
    ensures Decoded(Escape(s, restricted), TEXT_ELEMENT) == s
  {
    XmlDecode.GetStrUndoesPrintString(s, restricted);
  }

  /** Without entity processing a plain text is its own value. */
  lemma {:induction false} PlainValue(s: string, p: nat)
    requires PlainText(s) && p <= |s|
    ensures DecodeInPlace(s, p, s[..p], COMMENT) == s
    decreases |s| - p
  {
    if p == |s| {
      assert s[..p] == s;
    } else {
      PlainValue(s, p + 1);
      assert s[p..][0] == s[p] && s[p] in s;
      assert p + 1 < |s| ==> s[p..][1] == s[p + 1] && s[p + 1] in s;
      assert StepAt(s[p..], COMMENT) == Consume(1, [s[p]]);
      assert s[..p] + [s[p]] == s[..p + 1];
    }
  }

  lemma PlainDecoded(s: string)
    requires PlainText(s)
    ensures Decoded(s, COMMENT) == s
  {
    PlainValue(s, 0);
    assert s[..0] == "";
  }

  lemma Slices(a: string, b: string, c: string, d: string)
    ensures var s := a + (b + c + d);
            && s[|a|..] == b + c + d
            && s[|a|..|a| + |b|] == b
            && s[|a| + |b| + |c|..] == d
  {
  }

  // ---------- attributes ----------

  lemma ParseQuotedOf(value: string, rest: string)
    requires PlainText(value)
    ensures ParseQuoted("\"" + (Escape(value, false) + "\"" + rest)) == Quoted(value, rest)
  {
    hide Escape, Decoded, ParseText, PlainText;
    var e := Escape(value, false);
    EscapeIsTerminated(value, false);
    NoTerminator(e, '\"');
    ParseTextOf(e, "\"", rest);
    EscapedValue(value, false);
    Slices("\"", e, "\"", rest);
  }

  lemma SkipEqualsOf(value: string)
    ensures SkipEquals("=" + ("\"" + value)) == "\"" + value
  {
    NoWhiteSpace("=" + ("\"" + value));
    NoWhiteSpace("\"" + value);
    assert ("=" + ("\"" + value))[1..] == "\"" + value;
  }

  lemma ParseAttributeOf(a: Attribute, rest: string)
    requires LegalName(a.name) && PlainText(a.value)
    ensures ParseAttribute(PrintAttribute(a) + rest) == OneAttribute(a, rest)
  {
    hide Escape, Decoded, ParseName, ParseQuoted, SkipEquals, PlainText;
    var tail := Escape(a.value, false) + "\"" + rest;
    var after := "=" + ("\"" + tail);
    assert PrintAttribute(a) + rest == a.name + after;
    assert !IsNameChar('=') && after[0] == '=';
    ParseNameOf(a.name, after);
    assert (a.name + after)[|a.name|..] == after && (a.name + after)[..|a.name|] == a.name;
    SkipEqualsOf(tail);
    ParseQuotedOf(a.value, rest);
  }

  lemma PrintAttributesStep(attributes: seq<Attribute>, tail: string)
    requires attributes != []
    ensures PrintAttributes(attributes) + tail ==
            " " + (PrintAttribute(attributes[0]) + (PrintAttributes(attributes[1..]) + tail))
  {
  }

  lemma MoveOne<T>(before: seq<T>, after: seq<T>)
    requires after != []
    ensures before + after == before + [after[0]] + after[1..]
  {
  }

  lemma AfterBlank(s: string)
    requires s != [] && !IsWhiteSpace(s[0])
    ensures SkipWhiteSpace(" " + s) == s
  {
    assert (" " + s)[1..] == s;
  }

  lemma ParseAttributesStep(s: string, before: seq<Attribute>, a: Attribute, rest: string)
    requires var t := SkipWhiteSpace(s);
             t != [] && IsNameStartChar(t[0]) && ParseAttribute(t) == OneAttribute(a, rest)
    requires !HasAttribute(before, a.name)
    ensures ParseAttributes(s, before) == ParseAttributes(rest, before + [a])
  {
  }

  lemma NewName(before: seq<Attribute>, attributes: seq<Attribute>)
    requires attributes != [] && LegalAttributes(before + attributes)
    ensures LegalName(attributes[0].name) && PlainText(attributes[0].value) && !HasAttribute(before, attributes[0].name)
  {
    assert attributes[0] == (before + attributes)[|before|];
    forall i | 0 <= i < |before| ensures before[i].name != attributes[0].name {
      assert before[i] == (before + attributes)[i];
    }
  }

  lemma {:induction false} ParseAttributesOf(before: seq<Attribute>, attributes: seq<Attribute>, tail: string)
    requires LegalAttributes(before + attributes)
    requires tail != [] && (tail[0] == '>' || "/>" <= tail)
    ensures ParseAttributes(PrintAttributes(attributes) + tail, before) ==
            if tail[0] == '>' then Attributes(before + attributes, false, tail[1..])
            else Attributes(before + attributes, true, tail[2..])
    decreases |attributes|
  {
    if attributes == [] {
      NoMoreAttributes(before, tail);
      assert before + attributes == before && PrintAttributes(attributes) + tail == tail;
    } else {
      var a, rest := attributes[0], PrintAttributes(attributes[1..]) + tail;
      NewName(before, attributes);
      PrintAttributesStep(attributes, tail);
      StartsWithName(a, rest);
      hide *;
      AfterBlank(PrintAttribute(a) + rest);
      ParseAttributeOf(a, rest);
      ParseAttributesStep(" " + (PrintAttribute(a) + rest), before, a, rest);
      MoveOne(before, attributes);
      ParseAttributesOf(before + [a], attributes[1..], tail);
    }
  }

  lemma StartsWithName(a: Attribute, rest: string)
    requires LegalName(a.name)
    ensures var s := PrintAttribute(a) + rest;
            s != [] && IsNameStartChar(s[0]) && !IsWhiteSpace(s[0])
  {
    assert (PrintAttribute(a) + rest)[0] == a.name[0];
  }

  lemma NoMoreAttributes(before: seq<Attribute>, tail: string)
    requires tail != [] && (tail[0] == '>' || "/>" <= tail)
    ensures ParseAttributes(tail, before) ==
            if tail[0] == '>' then Attributes(before, false, tail[1..]) else Attributes(before, true, tail[2..])
  {
    hide SkipWhiteSpace, ParseAttribute, HasAttribute;
    NoWhiteSpace(tail);
    assert !IsNameStartChar(tail[0]);
    hide IsNameStartChar;
  }

  // ---------- tags ----------

  predicate EndsTag(tail: string) {
    tail != [] && (tail[0] == '>' || "/>" <= tail)
  }

  lemma ParseTagOf(name: string, attributes: seq<Attribute>, tail: string)
    requires LegalName(name) && LegalAttributes(attributes) && EndsTag(tail)
    ensures ParseTag(name + (PrintAttributes(attributes) + tail)) ==
            if tail[0] == '>' then Tag(name, attributes, Open, tail[1..]) else Tag(name, attributes, Closed, tail[2..])
  {
    hide ParseAttributes, ParseName, LegalAttributes, PrintAttributes, NameLength, EndsTag;
    var after := PrintAttributes(attributes) + tail;
    AfterName(attributes, tail);
    ParseNameOf(name, after);
    AfterTheName(name, after);
    AllAttributes(attributes, tail);
  }

  lemma AllAttributes(attributes: seq<Attribute>, tail: string)
    requires LegalAttributes(attributes) && EndsTag(tail)
    ensures ParseAttributes(PrintAttributes(attributes) + tail, []) ==
            if tail[0] == '>' then Attributes(attributes, false, tail[1..]) else Attributes(attributes, true, tail[2..])
  {
    assert [] + attributes == attributes;
    ParseAttributesOf([], attributes, tail);
  }

  lemma AfterTheName(name: string, after: string)
    requires LegalName(name)
    ensures var s := name + after;
            s[|name|..] == after && s[..|name|] == name && SkipWhiteSpace(s) == s && s[0] != '/'
  {
    assert (name + after)[0] == name[0];
    NoWhiteSpace(name + after);
  }

  lemma AfterName(attributes: seq<Attribute>, tail: string)
    requires EndsTag(tail)
    ensures var after := PrintAttributes(attributes) + tail;
            after != [] && !IsNameChar(after[0])
  {
  }

  lemma ParseEndTagOf(name: string, rest: string)
    requires LegalName(name)
    ensures ParseTag("/" + (name + (">" + rest))) == Tag(name, [], Closing, rest)
  {
    hide ParseAttributes, ParseName, NameLength, IsNameChar, SkipWhiteSpace;
    var after := ">" + rest;
    AfterSlash(name + after);
    AfterTheName(name, after);
    GreaterIsNoName(rest);
    ParseNameOf(name, after);
    NoMoreAttributes([], after);
  }

  lemma AfterSlash(s: string)
    ensures SkipWhiteSpace("/" + s) == "/" + s && At("/" + s, 0) == '/' && ("/" + s)[1..] == s
  {
    NoWhiteSpace("/" + s);
  }

  lemma GreaterIsNoName(rest: string)
    ensures (">" + rest)[0] == '>' && !IsNameChar('>') && (">" + rest)[1..] == rest
  {
  }

  // ---------- nodes ----------

  /** What may follow a node: anything, but after a plain text something that starts with '<'. */
  predicate Follows(node: Node, rest: string) {
    IsPlain(node) ==> |rest| >= 2 && rest[0] == '<'
  }

  lemma ParseBetweenOf(header: string, value: string, endTag: string, rest: string)
    requires PlainText(value) && endTag != [] && ParseText(value, endTag) == NotFound
    requires forall i :: 0 <= i < |endTag| - 1 ==> endTag[i] != endTag[|endTag| - 1]
    ensures ParseBetween(header + (value + endTag + rest), |header|, endTag) == Between(value, rest)
  {
    hide ParseText, Decoded, PlainText;
    ParseTextOf(value, endTag, rest);
    PlainDecoded(value);
    Slices(header, value, endTag, rest);
  }

  /** Comments, CDATA, declarations and unknown markup are read back as they were written. */
  lemma ParseMarkupOf(node: Node, rest: string)
    requires LegalMarkup(node)
    ensures ParseMarkup(PrintNode(node) + rest) == Markup(node, rest)
  {
    match node {
      case Comment(value) => MarkupComment(value, rest);
      case Text(value, _) => MarkupCData(value, rest);
      case Declaration(value) => MarkupDeclaration(value, rest);
      case Unknown(value) => MarkupUnknown(value, rest);
    }
  }

  lemma MarkupComment(value: string, rest: string)
    requires LegalMarkup(Comment(value))
    ensures ParseMarkup("<!--" + value + "-->" + rest) == Markup(Comment(value), rest)
  {
    hide ParseBetween, PlainText, ParseText;
    var s := "<!--" + value + "-->" + rest;
    ParseBetweenOf("<!--", value, "-->", rest);
    assert s == "<!--" + (value + "-->" + rest) && s[1] == '!';
  }

  lemma MarkupCData(value: string, rest: string)
    requires LegalMarkup(Text(value, true))
    ensures ParseMarkup("<![CDATA[" + value + "]]>" + rest) == Markup(Text(value, true), rest)
  {
    hide ParseBetween, PlainText, ParseText;
    var s := "<![CDATA[" + value + "]]>" + rest;
    ParseBetweenOf("<![CDATA[", value, "]]>", rest);
    assert s == "<![CDATA[" + (value + "]]>" + rest) && s[1] == '!' && s[2] == '[';
  }

  lemma MarkupDeclaration(value: string, rest: string)
    requires LegalMarkup(Declaration(value))
    ensures ParseMarkup("<?" + value + "?>" + rest) == Markup(Declaration(value), rest)
  {
    hide ParseBetween, PlainText, ParseText;
    ParseBetweenOf("<?", value, "?>", rest);
    assert "<?" + value + "?>" + rest == "<?" + (value + "?>" + rest);
  }

  lemma MarkupUnknown(value: string, rest: string)
    requires LegalMarkup(Unknown(value))
    ensures ParseMarkup("<!" + value + ">" + rest) == Markup(Unknown(value), rest)
  {
    hide ParseBetween, PlainText, ParseText;
    NoTerminator(value, '>');
    ParseBetweenOf("<!", value, ">", rest);
    UnknownHasNoHeader(value, rest);
  }

  lemma UnknownHasNoHeader(value: string, rest: string)
    requires '>' !in value && !("--" <= value) && !("[CDATA[" <= value)
    ensures var s := "<!" + value + ">" + rest;
            s == "<!" + (value + ">" + rest) && s[1] == '!' && !("<!--" <= s) && !("<![CDATA[" <= s)
  {
    var s, t := "<!" + value + ">" + rest, value + ">" + rest;
    assert s == "<!" + t && s[2..] == t;
    NotAHeader(value, rest, "--");
    NotAHeader(value, rest, "[CDATA[");
    assert "<!--" <= s ==> "--" <= t;
    assert "<![CDATA[" <= s ==> "[CDATA[" <= t;
  }

  lemma NotAHeader(value: string, rest: string, header: string)
    requires '>' !in value && '>' !in header && !(header <= value)
    ensures !(header <= value + ">" + rest)
  {
    var s := value + ">" + rest;
    assert |header| <= |value| ==> s[..|header|] == value[..|header|];
    assert |value| < |header| ==> s[|value|] == '>' && header[|value|] in header;
  }

  lemma ParsePlainOf(value: string, rest: string, depth: nat)
    requires Legal(Text(value, false)) && |rest| >= 2 && rest[0] == '<'
    ensures ParseNode(Escape(value, true) + rest, depth) == OneNode(Text(value, false), rest)
  {
    hide Escape, Decoded, SkipWhiteSpace, ParseText, PlainText;
    EscapedIsNotBlank(value, rest);
    PlainEndsAt(value, rest);
    EscapedValue(value, true);
    NotMarkup(Escape(value, true) + rest);
  }

  lemma NotMarkup(s: string)
    requires SkipWhiteSpace(s) != [] && SkipWhiteSpace(s)[0] != '<'
    ensures ParseMarkup(SkipWhiteSpace(s)) == NoMarkup
  {
  }

  lemma PlainEndsAt(value: string, rest: string)
    requires |rest| >= 2 && rest[0] == '<'
    ensures var e := Escape(value, true);
            ParseText(e + rest, "<") == FoundAt(|e|) && (e + rest)[..|e|] == e && (e + rest)[|e|..] == rest
  {
    hide Escape, ParseText;
    var e := Escape(value, true);
    EscapeIsTerminated(value, true);
    NoTerminator(e, '<');
    assert e + rest == e + "<" + rest[1..];
    ParseTextOf(e, "<", rest[1..]);
  }

  /** The first character of an escaped text that is not white space is not a '<'. */
  lemma EscapedIsNotBlank(value: string, rest: string)
    requires !Blank(value)
    ensures var t := SkipWhiteSpace(Escape(value, true) + rest);
            t != [] && t[0] != '<'
  {
    EscapeIsTerminated(value, true);
    EscapeKeepsBlank(value);
    SkipStaysInside(Escape(value, true), rest);
  }

  lemma {:induction false} SkipStaysInside(s: string, rest: string)
    requires !Blank(s)
    ensures var t := SkipWhiteSpace(s + rest);
            t != [] && t[0] in s
  {
    assert (s + rest)[0] == s[0];
    if IsWhiteSpace(s[0]) {
      assert (s + rest)[1..] == s[1..] + rest;
      SkipStaysInside(s[1..], rest);
    }
  }

  lemma {:induction false} EscapeKeepsBlank(s: string)
    ensures Blank(Escape(s, true)) ==> Blank(s)
  {
    if s != [] {
      var n := |s| - 1;
      EscapeKeepsBlank(s[..n]);
      var e, c := Escape(s[..n], true), EscapeChar(s[n], true);
      assert forall i :: 0 <= i < |e| ==> (e + c)[i] == e[i];
      assert (e + c)[|e|] == c[0];
    }
  }

  // ---------- elements and their contents ----------

  lemma StartsWithMark(node: Node, rest: string)
    requires Legal(node) && !IsPlain(node)
    ensures var s := PrintNode(node) + rest;
            |s| >= 2 && s[0] == '<'
  {
  }

  /** The text of an element is its opening tag followed by what its opening tag is followed by. */
  lemma PrintElementStep(name: string, attributes: seq<Attribute>, kids: seq<Node>, rest: string)
    ensures PrintNode(Element(name, attributes, kids)) + rest ==
            "<" + (name + (PrintAttributes(attributes) +
                           if kids == [] then "/>" + rest
                           else ">" + (PrintNodes(kids) + ("</" + (name + (">" + rest))))))
  {
    hide PrintAttributes, PrintNodes;
  }

  lemma ElementIsNoMarkup(name: string, after: string)
    requires LegalName(name)
    ensures var s := "<" + (name + after);
            SkipWhiteSpace(s) == s && ParseMarkup(s) == NoMarkup && s[1..] == name + after
  {
    var s := "<" + (name + after);
    NoWhiteSpace(s);
    assert s[1] == name[0];
  }

  lemma EndTagIsNoMarkup(after: string)
    ensures var s := "</" + after;
            SkipWhiteSpace(s) == s && ParseMarkup(s) == NoMarkup && s[1..] == "/" + after
  {
    var s := "</" + after;
    NoWhiteSpace(s);
    assert s[1] == '/';
  }

  /** The end tag of the level above ends the siblings. */
  lemma ParseClosingOf(name: string, rest: string, depth: nat, nodes: seq<Node>)
    requires LegalName(name) && depth < MAX_ELEMENT_DEPTH
    ensures ParseSiblings("</" + (name + (">" + rest)), depth, nodes) == ClosedBy(nodes, name, rest)
  {
    hide ParseTag, ParseMarkup, SkipWhiteSpace;
    EndTagIsNoMarkup(name + (">" + rest));
    ParseEndTagOf(name, rest);
    assert ParseNode("</" + (name + (">" + rest)), depth) == EndTag(name, rest);
  }

  lemma {:induction false} ParseNodeOf(node: Node, rest: string, depth: nat)
    requires Legal(node) && Follows(node, rest) && depth + Levels(node) < MAX_ELEMENT_DEPTH
    ensures ParseNode(PrintNode(node) + rest, depth) == OneNode(node, rest)
    decreases node, 0
  {
    if IsPlain(node) {
      ParsePlainOf(node.value, rest, depth);
    } else if !node.Element? {
      MarkupNode(node, rest, depth);
    } else {
      var Element(name, attributes, kids) := node;
      PrintElementStep(name, attributes, kids, rest);
      if kids == [] {
        EmptyElement(name, attributes, rest, depth);
      } else {
        var closing := "</" + (name + (">" + rest));
        var inner := PrintNodes(kids) + closing;
        ParseNodesOf(kids, closing, depth + 1, []);
        ParseClosingOf(name, rest, depth + 1, [] + kids);
        assert [] + kids == kids;
        ElementWithKids(name, attributes, kids, inner, rest, depth);
      }
    }
  }

  lemma MarkupNode(node: Node, rest: string, depth: nat)
    requires LegalMarkup(node)
    ensures ParseNode(PrintNode(node) + rest, depth) == OneNode(node, rest)
  {
    hide ParseMarkup;
    ParseMarkupOf(node, rest);
    assert (PrintNode(node) + rest)[0] == '<';
    NoWhiteSpace(PrintNode(node) + rest);
  }

  lemma EmptyElement(name: string, attributes: seq<Attribute>, rest: string, depth: nat)
    requires LegalName(name) && LegalAttributes(attributes)
    ensures ParseNode("<" + (name + (PrintAttributes(attributes) + ("/>" + rest))), depth) ==
            OneNode(Element(name, attributes, []), rest)
  {
    hide ParseTag, ParseMarkup, SkipWhiteSpace, LegalName, LegalAttributes, PrintAttributes;
    var tail := "/>" + rest;
    ElementIsNoMarkup(name, PrintAttributes(attributes) + tail);
    assert tail[0] == '/' && tail[2..] == rest && "/>" <= tail;
    ParseTagOf(name, attributes, tail);
  }

  lemma ElementWithKids(name: string, attributes: seq<Attribute>, kids: seq<Node>, inner: string, rest: string, depth: nat)
    requires LegalName(name) && LegalAttributes(attributes) && inner != []
    requires ParseSiblings(inner, depth + 1, []) == ClosedBy(kids, name, rest)
    ensures ParseNode("<" + (name + (PrintAttributes(attributes) + (">" + inner))), depth) ==
            OneNode(Element(name, attributes, kids), rest)
  {
    hide ParseTag, ParseMarkup, SkipWhiteSpace, LegalName, LegalAttributes, PrintAttributes, ParseSiblings;
    var tail := ">" + inner;
    ElementIsNoMarkup(name, PrintAttributes(attributes) + tail);
    assert tail[0] == '>' && tail[1..] == inner;
    ParseTagOf(name, attributes, tail);
  }

  /** Siblings that are followed by `tail` are read one by one, and then the tail is. */
  lemma {:induction false} ParseNodesOf(nodes: seq<Node>, tail: string, depth: nat, before: seq<Node>)
    requires LegalNodes(nodes) && depth + LevelsOf(nodes) < MAX_ELEMENT_DEPTH
    requires nodes != [] ==> Follows(nodes[|nodes| - 1], tail)
    ensures ParseSiblings(PrintNodes(nodes) + tail, depth, before) == ParseSiblings(tail, depth, before + nodes)
    decreases nodes, 1
  {
    hide ParseSiblings, ParseNode, PrintNodes, PrintNode, LegalNodes, Legal, Follows;
    FirstNode(nodes, tail, before);
    if nodes != [] {
      var rest := PrintNodes(nodes[1..]) + tail;
      FollowsInside(nodes, tail);
      ParseNodeOf(nodes[0], rest, depth);
      ParseNodesOf(nodes[1..], tail, depth, before + [nodes[0]]);
      MoveOne(before, nodes);
      OneMoreNode(nodes[0], rest, depth, before);
    }
  }

  lemma FirstNode(nodes: seq<Node>, tail: string, before: seq<Node>)
    ensures nodes == [] ==> PrintNodes(nodes) + tail == tail && before + nodes == before
    ensures nodes != [] ==> PrintNodes(nodes) + tail == PrintNode(nodes[0]) + (PrintNodes(nodes[1..]) + tail)
  {
    hide PrintNode;
  }

  lemma OneMoreNode(node: Node, rest: string, depth: nat, before: seq<Node>)
    requires Legal(node) && depth < MAX_ELEMENT_DEPTH
    requires ParseNode(PrintNode(node) + rest, depth) == OneNode(node, rest)
    ensures ParseSiblings(PrintNode(node) + rest, depth, before) == ParseSiblings(rest, depth, before + [node])
  {
    hide ParseNode;
  }

  lemma FollowsInside(nodes: seq<Node>, tail: string)
    requires LegalNodes(nodes) && nodes != [] && Follows(nodes[|nodes| - 1], tail)
    ensures Follows(nodes[0], PrintNodes(nodes[1..]) + tail) && LegalNodes(nodes[1..]) && Legal(nodes[0])
    ensures |nodes| > 1 ==> Follows(nodes[1..][|nodes| - 2], tail)
  {
    hide PrintNode, Legal, PrintNodes, LegalNodes;
    LegalTail(nodes);
    if |nodes| > 1 {
      assert nodes[1..][|nodes| - 2] == nodes[|nodes| - 1];
      if IsPlain(nodes[0]) {
        PrintNodesStart(nodes[1..], tail);
      }
    } else {
      assert PrintNodes([]) == "" by { NoNodes(); }
      assert nodes[1..] == [] && "" + tail == tail;
    }
  }

  lemma NoNodes()
    ensures PrintNodes([]) == ""
  {
  }

  lemma PrintNodesStart(nodes: seq<Node>, tail: string)
    requires nodes != [] && Legal(nodes[0]) && !IsPlain(nodes[0])
    ensures var s := PrintNodes(nodes) + tail;
            |s| >= 2 && s[0] == '<'
  {
    StartsWithMark(nodes[0], PrintNodes(nodes[1..]));
  }

  lemma LegalTail(nodes: seq<Node>)
    requires LegalNodes(nodes) && nodes != []
    ensures LegalNodes(nodes[1..]) && Legal(nodes[0])
    ensures |nodes| > 1 ==> Legal(nodes[1..][0]) && !(IsPlain(nodes[0]) && IsPlain(nodes[1..][0]))
  {
    hide Legal;
    var more := nodes[1..];
    forall i | 0 <= i < |more| ensures Legal(more[i]) {
      assert more[i] == nodes[i + 1];
    }
    forall i | 0 <= i < |more| - 1 ensures !(IsPlain(more[i]) && IsPlain(more[i + 1])) {
      assert more[i] == nodes[i + 1] && more[i + 1] == nodes[i + 2];
    }
  }

  // ---------- too deep ----------

  /** A legal text that needs a level too many is refused. */
  lemma {:induction false} TooDeepNodes(nodes: seq<Node>, tail: string, depth: nat, before: seq<Node>)
    requires LegalNodes(nodes) && nodes != [] && depth + LevelsOf(nodes) >= MAX_ELEMENT_DEPTH
    requires Follows(nodes[|nodes| - 1], tail)
    ensures ParseSiblings(PrintNodes(nodes) + tail, depth, before) == Failed(ErrorDepthExceeded)
    decreases nodes, 1
  {
    hide ParseNode, PrintNodes, PrintNode, LegalNodes, Legal, Follows;
    if depth < MAX_ELEMENT_DEPTH {
      var rest := PrintNodes(nodes[1..]) + tail;
      FirstNode(nodes, tail, before);
      FollowsInside(nodes, tail);
      if depth + Levels(nodes[0]) >= MAX_ELEMENT_DEPTH {
        TooDeepNode(nodes[0], rest, depth);
      } else {
        ParseNodeOf(nodes[0], rest, depth);
        OneMoreNode(nodes[0], rest, depth, before);
        TooDeepNodes(nodes[1..], tail, depth, before + [nodes[0]]);
      }
    }
  }

  lemma {:induction false} TooDeepNode(node: Node, rest: string, depth: nat)
    requires Legal(node) && depth < MAX_ELEMENT_DEPTH <= depth + Levels(node)
    ensures ParseNode(PrintNode(node) + rest, depth) == NodeFailed(ErrorDepthExceeded)
    decreases node, 0
  {
    hide ParseNode, PrintNode, ParseSiblings;
    var Element(name, attributes, kids) := node;
    var closing := "</" + (name + (">" + rest));
    PrintElementStep(name, attributes, kids, rest);
    TooDeepNodes(kids, closing, depth + 1, []);
    TooDeepElement(name, attributes, PrintNodes(kids) + closing, depth);
  }

  lemma TooDeepElement(name: string, attributes: seq<Attribute>, inner: string, depth: nat)
    requires LegalName(name) && LegalAttributes(attributes) && inner != []
    requires ParseSiblings(inner, depth + 1, []) == Failed(ErrorDepthExceeded)
    ensures ParseNode("<" + (name + (PrintAttributes(attributes) + (">" + inner))), depth) == NodeFailed(ErrorDepthExceeded)
  {
    hide ParseTag, ParseMarkup, SkipWhiteSpace, LegalName, LegalAttributes, PrintAttributes, ParseSiblings;
    var tail := ">" + inner;
    ElementIsNoMarkup(name, PrintAttributes(attributes) + tail);
    assert tail[0] == '>' && tail[1..] == inner;
    ParseTagOf(name, attributes, tail);
  }

  // ---------- documents ----------

  /** Declarations first, then other nodes. A text has to be followed by another node, and one that
    * begins the document must not begin with what is skipped there.
    */
  predicate LegalDocument(declarations: seq<Node>, nodes: seq<Node>) {
    && AreDeclarations(declarations) && LegalNodes(nodes)
    && (nodes != [] ==> !IsPlain(nodes[|nodes| - 1]))
    && (declarations == [] && nodes != [] && IsPlain(nodes[0]) ==> KeepsStart(nodes[0].value))
  }

  predicate AreDeclarations(nodes: seq<Node>) {
    forall i :: 0 <= i < |nodes| ==> nodes[i].Declaration? && LegalMarkup(nodes[i])
  }

  predicate KeepsStart(value: string) {
    value != [] && !IsWhiteSpace(value[0]) && !(BOM <= value)
  }

  lemma {:induction false} ParseDeclarationsOf(declarations: seq<Node>, tail: string, before: seq<Node>)
    requires AreDeclarations(before) && AreDeclarations(declarations)
    ensures ParseSiblings(PrintNodes(declarations) + tail, 1, before) == ParseSiblings(tail, 1, before + declarations)
    decreases |declarations|
  {
    hide *;
    FirstNode(declarations, tail, before);
    if declarations != [] {
      DeclarationsSplit(declarations, before);
      OneMoreDeclaration(declarations[0], PrintNodes(declarations[1..]) + tail, before);
      ParseDeclarationsOf(declarations[1..], tail, before + [declarations[0]]);
      MoveOne(before, declarations);
    }
  }

  lemma DeclarationsSplit(declarations: seq<Node>, before: seq<Node>)
    requires AreDeclarations(before) && AreDeclarations(declarations) && declarations != []
    ensures declarations[0].Declaration? && LegalMarkup(declarations[0])
    ensures AreDeclarations(declarations[1..]) && AreDeclarations(before + [declarations[0]])
  {
    hide LegalMarkup;
  }

  lemma OneMoreDeclaration(d: Node, rest: string, before: seq<Node>)
    requires d.Declaration? && LegalMarkup(d) && AreDeclarations(before)
    ensures ParseSiblings(PrintNode(d) + rest, 1, before) == ParseSiblings(rest, 1, before + [d])
  {
    hide ParseNode, PrintNode;
    MarkupNode(d, rest, 1);
  }

  lemma NoNulInEscape(s: string, restricted: bool)
    requires PlainText(s)
    ensures NUL !in Escape(s, restricted)
  {
    EscapeHasNoCR(s, restricted);
  }

  lemma {:induction false} NoNulInAttributes(attributes: seq<Attribute>)
    requires LegalAttributes(attributes)
    ensures NUL !in PrintAttributes(attributes)
  {
    if attributes != [] {
      NoNulInEscape(attributes[0].value, false);
      assert LegalName(attributes[0].name);
      NoNulInAttributes(attributes[1..]);
    }
  }

  lemma {:induction false} NoNulInNode(node: Node)
    requires Legal(node) || LegalMarkup(node)
    ensures NUL !in PrintNode(node)
    decreases node, 0
  {
    hide LegalNodes, LegalAttributes, PrintAttributes, PrintNodes, Escape;
    if IsPlain(node) {
      NoNulInEscape(node.value, true);
    } else if node.Element? {
      NoNulInAttributes(node.attributes);
      LegalKids(node);
      NoNulInNodes(node.kids);
    }
  }

  lemma LegalKids(node: Node)
    requires Legal(node) && node.Element?
    ensures forall i :: 0 <= i < |node.kids| ==> Legal(node.kids[i])
  {
    assert LegalNodes(node.kids);
  }

  lemma {:induction false} NoNulInNodes(nodes: seq<Node>)
    requires forall i :: 0 <= i < |nodes| ==> Legal(nodes[i]) || LegalMarkup(nodes[i])
    ensures NUL !in PrintNodes(nodes)
    decreases nodes, 1
  {
    if nodes != [] {
      NoNulInNode(nodes[0]);
      NoNulInNodes(nodes[1..]);
    }
  }

  lemma DocumentStart(declarations: seq<Node>, nodes: seq<Node>)
    requires LegalDocument(declarations, nodes) && declarations + nodes != []
    ensures var s := PrintNodes(declarations + nodes);
            CString(s) == s && s != [] && SkipWhiteSpace(s) == s && !(BOM <= s)
  {
    hide *;
    var doc := declarations + nodes;
    var s := PrintNodes(doc);
    LegalParts(declarations, nodes);
    NoNulInNodes(doc);
    FirstNode(doc, "", []);
    assert s + "" == s;
    assert PrintNodes(doc[1..]) + "" == PrintNodes(doc[1..]);
    FirstIs(declarations, nodes);
    if IsPlain(doc[0]) {
      assert doc[1..] == nodes[1..];
      PrintNodesStart(nodes[1..], "");
      TextStart(doc[0], PrintNodes(doc[1..]));
    } else {
      MarkStart(doc[0], PrintNodes(doc[1..]));
    }
    NoWhiteSpace(s);
  }

  lemma FirstIs(declarations: seq<Node>, nodes: seq<Node>)
    requires LegalDocument(declarations, nodes) && declarations + nodes != []
    ensures var first := (declarations + nodes)[0];
            && (Legal(first) || LegalMarkup(first))
            && (IsPlain(first) ==> declarations == [] && first.Text? && KeepsStart(first.value)
                                   && |nodes| > 1 && Legal(nodes[1]) && !IsPlain(nodes[1]))
  {
    hide Legal, LegalMarkup, KeepsStart;
    assert declarations == [] ==> declarations + nodes == nodes;
    assert declarations != [] ==> (declarations + nodes)[0] == declarations[0];
    if declarations == [] {
      LegalTail(nodes);
    }
  }

  lemma MarkStart(node: Node, rest: string)
    requires (Legal(node) || LegalMarkup(node)) && !IsPlain(node)
    ensures var s := PrintNode(node) + rest; s != [] && !IsWhiteSpace(s[0]) && !(BOM <= s)
  {
    hide Legal, LegalMarkup, PrintAttributes;
    assert PrintNode(node)[0] == '<';
  }

  lemma TextStart(node: Node, rest: string)
    requires IsPlain(node) && KeepsStart(node.value) && rest != [] && rest[0] == '<'
    ensures var s := PrintNode(node) + rest; s != [] && !IsWhiteSpace(s[0]) && !(BOM <= s)
  {
    hide Escape;
    var value := node.value;
    BomInEscaped(value, 0, rest);
    assert value[0..] == value && BOM[0..] == BOM;
    EscapeSplit(value, 0, true);
  }

  /** Escaping neither hides nor makes a byte order mark. */
  lemma {:induction false} BomInEscaped(value: string, i: nat, rest: string)
    requires i <= |value| && i <= 3 && rest != [] && rest[0] == '<'
    ensures BOM[i..] <= Escape(value[i..], true) + rest ==> BOM[i..] <= value[i..]
    decreases 3 - i
  {
    hide Escape;
    if i < 3 {
      if i == |value| {
        assert Escape(value[i..], true) == "" by { NothingEscaped(value, i); }
        assert ("" + rest)[0] == '<';
      } else {
        EscapeSplit(value, i, true);
        BomInEscaped(value, i + 1, rest);
        OneCharacter(value[i], Escape(value[i + 1..], true) + rest, i);
        assert EscapeChar(value[i], true) + Escape(value[i + 1..], true) + rest
            == EscapeChar(value[i], true) + (Escape(value[i + 1..], true) + rest);
        assert value[i..] == [value[i]] + value[i + 1..];
        assert BOM[i..] == [BOM[i]] + BOM[i + 1..];
      }
    }
  }

  lemma NothingEscaped(value: string, i: nat)
    requires i == |value|
    ensures Escape(value[i..], true) == ""
  {
  }

  lemma OneCharacter(c: char, rest: string, i: nat)
    requires i < 3
    ensures BOM[i..] <= EscapeChar(c, true) + rest ==> c == BOM[i] && BOM[i + 1..] <= rest
  {
    var s := EscapeChar(c, true) + rest;
    assert s[0] == EscapeChar(c, true)[0];
    assert |EscapeChar(c, true)| == 1 ==> s[1..] == rest;
    if BOM[i..] <= s {
      assert BOM[i..][0] == BOM[i] == s[0];
      assert BOM[i..][1..] == BOM[i + 1..] <= s[1..];
    }
  }

  lemma {:induction false} PrintNodesAppend(a: seq<Node>, b: seq<Node>)
    ensures PrintNodes(a + b) == PrintNodes(a) + PrintNodes(b)
  {
    hide *;
    FirstNode(a, PrintNodes(b), []);
    if a == [] {
      assert a + b == b;
    } else {
      PrintNodesAppend(a[1..], b);
      assert (a + b)[1..] == a[1..] + b;
      FirstNode(a + b, "", []);
      assert PrintNodes(a + b) + "" == PrintNodes(a + b);
      assert PrintNodes(a[1..] + b) + "" == PrintNodes(a[1..] + b);
    }
  }

  /** Parsing the printed document gives the same document back, if and only if it is not nested too deeply. */
  lemma ParsePrint(declarations: seq<Node>, nodes: seq<Node>)
    requires LegalDocument(declarations, nodes) && declarations + nodes != []
    ensures var doc := declarations + nodes;
            Parse(PrintNodes(doc)) == if 1 + LevelsOf(nodes) < MAX_ELEMENT_DEPTH then Parsed(doc) else ParseError(ErrorDepthExceeded)
  {
    hide PrintNodes, ParseSiblings, CString, SkipWhiteSpace, LegalNodes;
    var doc := declarations + nodes;
    DocumentStart(declarations, nodes);
    PrintNodesAppend(declarations, nodes);
    assert [] + declarations == declarations;
    ParseDeclarationsOf(declarations, PrintNodes(nodes), []);
    ParseContent(declarations, nodes);
  }

  lemma LegalParts(declarations: seq<Node>, nodes: seq<Node>)
    requires LegalDocument(declarations, nodes)
    ensures var doc := declarations + nodes;
            forall i :: 0 <= i < |doc| ==> Legal(doc[i]) || LegalMarkup(doc[i])
  {
    hide Legal, LegalMarkup, IsPlain;
    var doc := declarations + nodes;
    forall i | 0 <= i < |doc| ensures Legal(doc[i]) || LegalMarkup(doc[i]) {
      assert doc[i] == if i < |declarations| then declarations[i] else nodes[i - |declarations|];
    }
  }

  lemma ParseContent(before: seq<Node>, nodes: seq<Node>)
    requires LegalNodes(nodes) && (nodes != [] ==> !IsPlain(nodes[|nodes| - 1]))
    ensures ParseSiblings(PrintNodes(nodes), 1, before) ==
            if 1 + LevelsOf(nodes) < MAX_ELEMENT_DEPTH then AtEnd(before + nodes) else Failed(ErrorDepthExceeded)
  {
    hide PrintNodes, LegalNodes, ParseSiblings;
    assert PrintNodes(nodes) + "" == PrintNodes(nodes);
    NothingToRead(before + nodes);
    if 1 + LevelsOf(nodes) < MAX_ELEMENT_DEPTH {
      ParseNodesOf(nodes, "", 1, before);
    } else {
      TooDeepNodes(nodes, "", 1, before);
    }
  }

  lemma NothingToRead(nodes: seq<Node>)
    ensures ParseSiblings("", 1, nodes) == AtEnd(nodes)
  {
  }

  // ---------- end tags with another name ----------

  lemma OtherName(name: string, other: string, attributes: seq<Attribute>, inner: string, rest: string, depth: nat, kids: seq<Node>)
    requires LegalName(name) && LegalAttributes(attributes) && inner != [] && other != name
    requires ParseSiblings(inner, depth + 1, []) == ClosedBy(kids, other, rest)
    ensures ParseNode("<" + (name + (PrintAttributes(attributes) + (">" + inner))), depth) == NodeFailed(ErrorMismatchedElement)
  {
    hide ParseTag, ParseMarkup, SkipWhiteSpace, LegalName, LegalAttributes, PrintAttributes, ParseSiblings;
    var tail := ">" + inner;
    ElementIsNoMarkup(name, PrintAttributes(attributes) + tail);
    assert tail[0] == '>' && tail[1..] == inner;
    ParseTagOf(name, attributes, tail);
  }

  /** What is printed between two tags of different names is refused. */
  lemma WrongEndTagOf(name: string, other: string, kids: seq<Node>, rest: string)
    requires LegalName(name) && LegalName(other) && name != other && LegalNodes(kids) && 2 + LevelsOf(kids) < MAX_ELEMENT_DEPTH
    ensures ParseSiblings("<" + (name + (">" + (PrintNodes(kids) + ("</" + (other + (">" + rest)))))), 1, [])
         == Failed(ErrorMismatchedElement)
  {
    hide ParseNode, ParseSiblings, PrintNodes, LegalNodes, LevelsOf;
    var closing := "</" + (other + (">" + rest));
    var inner := PrintNodes(kids) + closing;
    ParseNodesOf(kids, closing, 2, []);
    ParseClosingOf(other, rest, 2, [] + kids);
    OtherName(name, other, [], inner, rest, 1, [] + kids);
    assert PrintAttributes([]) + (">" + inner) == ">" + inner;
    FailsAt("<" + (name + (">" + inner)));
  }

  lemma FailsAt(s: string)
    requires ParseNode(s, 1) == NodeFailed(ErrorMismatchedElement)
    ensures ParseSiblings(s, 1, []) == Failed(ErrorMismatchedElement)
  {
    hide ParseNode;
  }

  // ---------- quotes ----------

  /** A quote is written as it is in a text, and as a reference in the value of an attribute. */
  lemma QuotesAre(name: string)
    ensures PrintNode(Text("\"'", false)) == "\"'" && PrintAttribute(Attribute(name, "\"'")) == name + "=\"&quot;&apos;\""
  {
    QuotesEscaped(true);
    QuotesEscaped(false);
    hide Escape;
    assert name + "=\"" + "&quot;&apos;" + "\"" == name + "=\"&quot;&apos;\"";
  }

  lemma QuotesEscaped(restricted: bool)
    ensures Escape("\"'", restricted) == if restricted then "\"'" else "&quot;&apos;"
  {
    assert "\"'"[..1] == "\"" && "\""[..0] == "";
    assert Escape("\"", restricted) == EscapeChar('\"', restricted);
  }
}
