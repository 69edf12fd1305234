/** tinyxml2's parser as it works: pointers moving over the character buffer, a
  * depth counter, an error that stays once it is set, and a closing tag that
  * is read by the level it closes and handed to the level above.
  */
module XmlDocuments {
  import opened XmlText
  import opened XmlGrammar

  /** A char* into the buffer. */
  datatype Pointer = Null | To(p: nat)

  datatype Option<T> = None | Some(value: T)

  class XMLDocument {
    const text: string
    var error: Option<XmlError>
    var parsingDepth: nat

    constructor (input: string)
      ensures text == CString(input) && error == None && parsingDepth == 0
    {
      text := CString(input);
      error := None;
      parsingDepth := 0;
    }

    method SkipWhiteSpace(start: nat) returns (p: nat)
      requires start <= |text|
      ensures start <= p <= |text| && text[p..] == XmlGrammar.SkipWhiteSpace(text[start..])
    {
      hide *;
      p := start;
      while p < |text| && IsWhiteSpace(text[p])
        invariant start <= p <= |text|
        invariant XmlGrammar.SkipWhiteSpace(text[p..]) == XmlGrammar.SkipWhiteSpace(text[start..])
      {
        SkipStep(text, p);
        p := p + 1;
      }
      SkipStep(text, p);
    }

    static lemma SkipStep(s: string, p: nat)
      requires p <= |s|
      ensures XmlGrammar.SkipWhiteSpace(s[p..])
           == if p < |s| && IsWhiteSpace(s[p]) then XmlGrammar.SkipWhiteSpace(s[p + 1..]) else s[p..]
    {
      hide IsWhiteSpace;
      Suffixes(s, p);
    }

    method ParseName(start: nat) returns (p: Pointer)
      requires start <= |text|
      ensures var n := XmlGrammar.ParseName(text[start..]);
              p == if n == 0 then Null else To(start + n)
    {
      if start == |text| || !IsNameStartChar(text[start]) {
        return Null;
      }
      var q := start + 1;
      assert text[start..][1..] == text[q..];
      while q < |text| && IsNameChar(text[q])
        invariant start < q <= |text|
        invariant q + NameLength(text[q..]) == start + 1 + NameLength(text[start + 1..])
      {
        assert text[q..][1..] == text[q + 1..];
        q := q + 1;
      }
      p := To(q);
    }

    /** The end of the value and the character after its end tag. */
    method ParseText(start: nat, endTag: string) returns (end: nat, p: Pointer)
      requires start <= |text| && endTag != []
      ensures match XmlGrammar.ParseText(text[start..], endTag)
              case NotFound => p == Null
              case FoundAt(k) => end == start + k && p == To(end + |endTag|)
    {
      end := start;
      while end < |text|
        invariant start <= end <= |text|
        invariant XmlGrammar.ParseText(text[start..], endTag) == Later(end - start, XmlGrammar.ParseText(text[end..], endTag))
      {
        if text[end] == endTag[0] && endTag <= text[end..] {
          return end, To(end + |endTag|);
        }
        assert text[end..][1..] == text[end + 1..];
        end := end + 1;
      }
      p := Null;
    }

    static function Later(n: nat, r: Found): Found {
      match r
      case NotFound => NotFound
      case FoundAt(k) => FoundAt(n + k)
    }

    /** From the end of an attribute's name to its opening quote. */
    method SkipEquals(start: nat) returns (p: nat)
      requires start <= |text|
      ensures start <= p <= |text| && text[p..] == XmlGrammar.SkipEquals(text[start..])
    {
      hide *;
      p := SkipWhiteSpace(start);
      EqualsAt(text, start, p);
      if p == |text| || text[p] != '=' {
        return |text|;
      }
      p := SkipWhiteSpace(p + 1);
    }

    static lemma EqualsAt(s: string, start: nat, p: nat)
      requires start <= |s| && p <= |s| && s[p..] == XmlGrammar.SkipWhiteSpace(s[start..])
      ensures XmlGrammar.SkipEquals(s[start..])
           == if p == |s| || s[p] != '=' then s[|s|..] else XmlGrammar.SkipWhiteSpace(s[p + 1..])
    {
      hide XmlGrammar.SkipWhiteSpace;
      Suffixes(s, p);
    }

    method ParseQuoted(start: nat) returns (p: Pointer, value: string)
      requires start <= |text|
      ensures match XmlGrammar.ParseQuoted(text[start..])
              case NotQuoted => p == Null
              case Quoted(v, rest) => p.To? && start < p.p <= |text| && text[p.p..] == rest && value == v
    {
      hide XmlGrammar.ParseText, Decoded;
      value := "";
      if start == |text| || (text[start] != '\"' && text[start] != '\'') {
        return Null, value;
      }
      ghost var u := text[start..];
      assert u[1..] == text[start + 1..];
      var end, after := ParseText(start + 1, [text[start]]);
      if after == Null {
        return Null, value;
      }
      assert u[1..end - start] == text[start + 1..end] && u[end - start + 1..] == text[end + 1..];
      value := Decoded(text[start + 1..end], ATTRIBUTE_VALUE);
      p := after;
    }

    /** `XMLAttribute::ParseDeep`. */
    method ParseAttribute(start: nat) returns (p: Pointer, attribute: Attribute)
      requires start <= |text|
      ensures match XmlGrammar.ParseAttribute(text[start..])
              case NoAttribute => p == Null
              case OneAttribute(a, rest) => p.To? && start < p.p <= |text| && text[p.p..] == rest && attribute == a
    {
      hide XmlGrammar.ParseName, XmlGrammar.ParseQuoted, XmlGrammar.SkipEquals;
      attribute := Attribute("", "");
      var name := ParseName(start);
      if name == Null || name.p == |text| {
        return Null, attribute;
      }
      assert text[start..][name.p - start..] == text[name.p..];
      assert text[start..][..name.p - start] == text[start..name.p];
      var quote := SkipEquals(name.p);
      var value;
      p, value := ParseQuoted(quote);
      attribute := Attribute(text[start..name.p], value);
    }

    /** `ParseAttributes`, up to the '>' or "/>" of the tag. */
    method ParseAttributes(start: nat) returns (p: Pointer, attributes: seq<Attribute>, sealed: bool)
      requires start <= |text| && error == None
      modifies this`error
      ensures match XmlGrammar.ParseAttributes(text[start..], [])
              case AttributesFailed(e) => p == Null && error == Some(e)
              case Attributes(found, closed, rest) =>
                p.To? && p.p <= |text| && text[p.p..] == rest && attributes == found && sealed == closed && error == None
    {
      hide *;
      attributes, sealed := [], false;
      var at := start;
      while true
        invariant start <= at <= |text| && error == None
        invariant XmlGrammar.ParseAttributes(text[start..], []) == XmlGrammar.ParseAttributes(text[at..], attributes)
        decreases |text| - at
      {
        var q := SkipWhiteSpace(at);
        AttributesAt(text, at, q, attributes);
        if q == |text| {
          error := Some(ErrorParsingElement);
          return Null, attributes, sealed;
        }
        if IsNameStartChar(text[q]) {
          var after, attribute := ParseAttribute(q);
          if after == Null || HasAttribute(attributes, attribute.name) {
            error := Some(ErrorParsingAttribute);
            return Null, attributes, sealed;
          }
          attributes := attributes + [attribute];
          at := after.p;
        } else if text[q] == '>' {
          return To(q + 1), attributes, false;
        } else if text[q] == '/' && q + 1 < |text| && text[q + 1] == '>' {
          return To(q + 2), attributes, true;
        } else {
          error := Some(ErrorParsingElement);
          return Null, attributes, sealed;
        }
      }
    }

    /** The cases of the grammar. */
    static lemma AttributesStep(s: string, found: seq<Attribute>)
      ensures var t, r := XmlGrammar.SkipWhiteSpace(s), XmlGrammar.ParseAttributes(s, found);
              if t == [] then r == AttributesFailed(ErrorParsingElement)
              else if IsNameStartChar(t[0]) then
                var a := XmlGrammar.ParseAttribute(t);
                if a == NoAttribute || HasAttribute(found, a.attribute.name) then r == AttributesFailed(ErrorParsingAttribute)
                else r == XmlGrammar.ParseAttributes(a.rest, found + [a.attribute])
              else if t[0] == '>' then r == Attributes(found, false, t[1..])
              else if "/>" <= t then r == Attributes(found, true, t[2..])
              else r == AttributesFailed(ErrorParsingElement)
    {
      hide XmlGrammar.ParseAttribute, XmlGrammar.SkipWhiteSpace, HasAttribute, IsNameStartChar;
    }

    static lemma AttributesAt(s: string, at: nat, q: nat, found: seq<Attribute>)
      requires at <= |s| && q <= |s| && s[q..] == XmlGrammar.SkipWhiteSpace(s[at..])
      ensures var r := XmlGrammar.ParseAttributes(s[at..], found);
              if q == |s| then r == AttributesFailed(ErrorParsingElement)
              else if IsNameStartChar(s[q]) then
                var a := XmlGrammar.ParseAttribute(s[q..]);
                if a == NoAttribute || HasAttribute(found, a.attribute.name) then r == AttributesFailed(ErrorParsingAttribute)
                else r == XmlGrammar.ParseAttributes(a.rest, found + [a.attribute])
              else if s[q] == '>' then r == Attributes(found, false, s[q + 1..])
              else if s[q] == '/' && q + 1 < |s| && s[q + 1] == '>' then r == Attributes(found, true, s[q + 2..])
              else r == AttributesFailed(ErrorParsingElement)
    {
      hide *;
      AttributesStep(s[at..], found);
      if q < |s| {
        assert s[q..][0] == s[q] && s[q..][1..] == s[q + 1..];
        SealedAt(s, q);
      }
    }

    static lemma SealedAt(s: string, q: nat)
      requires q < |s|
      ensures "/>" <= s[q..] <==> s[q] == '/' && q + 1 < |s| && s[q + 1] == '>'
      ensures "/>" <= s[q..] ==> s[q..][2..] == s[q + 2..]
    {
    }

    /** What the error is once `ParseDeep` has seen a null pointer. */
    static function Reported(error: Option<XmlError>): XmlError {
      if error == None then ErrorParsing else error.value
    }

    static lemma Suffixes(s: string, q: nat)
      requires q <= |s|
      ensures At(s[q..], 0) == At(s, q) && (q < |s| ==> s[q..][1..] == s[q + 1..])
    {
    }

    static lemma Slice(s: string, q: nat, end: nat)
      requires q <= end <= |s|
      ensures s[q..][end - q..] == s[end..] && s[q..][..end - q] == s[q..end]
    {
    }

    /** The first half of `XMLElement::ParseDeep`, after the '<'. */
    method ParseTag(start: nat) returns (p: Pointer, name: string, attributes: seq<Attribute>, closing: ClosingType)
      requires start <= |text| && error == None
      modifies this`error
      ensures match XmlGrammar.ParseTag(text[start..])
              case TagFailed(e) => p == Null && Reported(error) == e
              case Tag(n, found, kind, rest) =>
                && p.To? && start < p.p <= |text| && text[p.p..] == rest && error == None
                && name == n && attributes == found && closing == kind
    {
      hide XmlGrammar.ParseAttributes, XmlGrammar.SkipWhiteSpace, XmlGrammar.ParseName, XmlGrammar.ParseAttribute;
      name, attributes, closing := "", [], Open;
      var q := SkipWhiteSpace(start);
      ghost var t := text[q..];
      Suffixes(text, q);
      if q < |text| && text[q] == '/' {
        closing := Closing;
        q := q + 1;
      }
      assert text[q..] == if At(t, 0) == '/' then t[1..] else t;
      var after := ParseName(q);
      if after == Null {
        return Null, name, attributes, closing;
      }
      name := text[q..after.p];
      Slice(text, q, after.p);
      var sealed;
      p, attributes, sealed := ParseAttributes(after.p);
      if sealed {
        closing := Closed;
      }
    }

    /** Markup that ends with its own end tag. */
    method ParseBetween(start: nat, header: nat, endTag: string, failure: XmlError) returns (p: Pointer, value: string)
      requires start + header <= |text| && endTag != [] && error == None
      modifies this`error
      ensures match XmlGrammar.ParseBetween(text[start..], header, endTag)
              case NotClosed => p == Null && error == Some(failure)
              case Between(v, rest) => p.To? && start < p.p <= |text| && text[p.p..] == rest && value == v && error == None
    {
      hide XmlGrammar.ParseText, Decoded;
      ghost var t := text[start..];
      assert t[header..] == text[start + header..];
      value := "";
      var end;
      end, p := ParseText(start + header, endTag);
      if p == Null {
        error := Some(failure);
      } else {
        assert t[header..end - start] == text[start + header..end];
        assert t[end - start + |endTag|..] == text[end + |endTag|..];
        value := Decoded(text[start + header..end], COMMENT);
      }
    }

    /** `Identify`'s longer headers, and the nodes they announce. */
    method ParseMarkup(start: nat) returns (p: Pointer, node: Option<Node>)
      requires start < |text| && error == None
      modifies this`error
      ensures match XmlGrammar.ParseMarkup(text[start..])
              case MarkupFailed(e) => p == Null && error == Some(e)
              case Markup(n, rest) => p.To? && start < p.p <= |text| && text[p.p..] == rest && node == Some(n) && error == None
              case NoMarkup => p == To(start) && node == None && error == None
    {
      hide XmlGrammar.ParseBetween;
      node := None;
      p := To(start);
      var value;
      if "<?" <= text[start..] {
        p, value := ParseBetween(start, 2, "?>", ErrorParsingDeclaration);
        node := Some(Declaration(value));
      } else if "<!--" <= text[start..] {
        p, value := ParseBetween(start, 4, "-->", ErrorParsingComment);
        node := Some(Comment(value));
      } else if "<![CDATA[" <= text[start..] {
        p, value := ParseBetween(start, 9, "]]>", ErrorParsingCData);
        node := Some(Text(value, true));
      } else if "<!" <= text[start..] {
        p, value := ParseBetween(start, 2, ">", ErrorParsingUnknown);
        node := Some(Unknown(value));
      }
    }

    /** A text: everything up to the next '<', which must not be the last character. */
    method ParsePlain(start: nat) returns (p: Pointer, node: Option<Node>)
      requires start <= |text| && error == None
      requires var t := XmlGrammar.SkipWhiteSpace(text[start..]);
               t != [] && t[0] != '<'
      modifies this`error
      ensures match XmlGrammar.ParsePlain(text[start..])
              case NodeFailed(e) => p == Null && Reported(error) == e
              case OneNode(n, rest) => p.To? && start < p.p <= |text| && text[p.p..] == rest && node == Some(n) && error == None
              case _ => false
    {
      hide XmlGrammar.ParseText, XmlGrammar.SkipWhiteSpace, Decoded;
      node := None;
      var end;
      end, p := ParseText(start, "<");
      if p == Null {
        error := Some(ErrorParsingText);
      } else if p.p == |text| {
        p := Null;
      } else {
        FirstIsNoTag(text[start..], end - start);
        assert text[start..][..end - start] == text[start..end] && text[start..][end - start..] == text[end..];
        node := Some(Text(Decoded(text[start..end], TEXT_ELEMENT), false));
        p := To(end);
      }
    }

    /** An element after its '<': its tag, its children one level deeper, and the end tag they ran into. */
    method ParseElement(start: nat) returns (p: Pointer, endTag: Option<string>, node: Option<Node>)
      requires start <= |text| && error == None && parsingDepth < MAX_ELEMENT_DEPTH
      modifies this`error, this`parsingDepth
      ensures parsingDepth == old(parsingDepth)
      ensures match XmlGrammar.ParseElement(text[start..], parsingDepth)
              case NodeFailed(e) => p == Null && Reported(error) == e
              case NoNode => false
              case EndTag(name, rest) =>
                p.To? && start < p.p <= |text| && text[p.p..] == rest && endTag == Some(name) && error == None
              case OneNode(n, rest) =>
                && p.To? && start < p.p <= |text| && text[p.p..] == rest
                && endTag == None && node == Some(n) && error == None
      decreases |text| - start, 2
    {
      hide XmlGrammar.ParseTag, XmlGrammar.ParseNode;
      endTag, node := None, None;
      var name, attributes, closing;
      p, name, attributes, closing := ParseTag(start);
      if p == Null {
        return;
      }
      if closing == Closing {
        endTag := Some(name);
      } else if closing == Closed {
        node := Some(Element(name, attributes, []));
      } else if p.p == |text| {
        error := Some(ErrorMismatchedElement);
        p := Null;
      } else {
        var tag, kids;
        p, tag, kids := ParseDeep(p.p);
        if p != Null {
          if tag != name {
            error := Some(ErrorMismatchedElement);
            p := Null;
          } else {
            node := Some(Element(name, attributes, kids));
          }
        }
      }
    }

    /** One turn of `ParseDeep`'s loop. */
    method ParseNode(start: nat) returns (p: Pointer, endTag: Option<string>, node: Option<Node>)
      requires start <= |text| && error == None && parsingDepth < MAX_ELEMENT_DEPTH
      modifies this`error, this`parsingDepth
      ensures parsingDepth == old(parsingDepth)
      ensures match XmlGrammar.ParseNode(text[start..], parsingDepth)
              case NodeFailed(e) => p == Null && Reported(error) == e
              case NoNode => p.To? && endTag == None && node == None && error == None
              case EndTag(name, rest) =>
                p.To? && start < p.p <= |text| && text[p.p..] == rest && endTag == Some(name) && error == None
              case OneNode(n, rest) =>
                && p.To? && start < p.p <= |text| && text[p.p..] == rest
                && endTag == None && node == Some(n) && error == None
      decreases |text| - start, 0
    {
      hide XmlGrammar.ParseMarkup, XmlGrammar.SkipWhiteSpace, XmlGrammar.ParseElement, XmlGrammar.ParsePlain;
      endTag, node := None, None;
      var q := SkipWhiteSpace(start);
      if q == |text| {
        return To(q), None, None;
      }
      p, node := ParseMarkup(q);
      if p == Null || node.Some? {
        return;
      }
      if text[q] == '<' {
        assert text[q..][1..] == text[q + 1..];
        p, endTag, node := ParseElement(q + 1);
      } else {
        p, node := ParsePlain(start);
      }
    }

    /** `XMLNode::ParseDeep`: the siblings from here on. A null pointer means an
      * error or the end of the text; any other is just behind an end tag.
      */
    method ParseDeep(start: nat) returns (p: Pointer, tag: string, nodes: seq<Node>)
      requires start <= |text| && error == None && parsingDepth < MAX_ELEMENT_DEPTH
      modifies this`error, this`parsingDepth
      ensures parsingDepth == old(parsingDepth)
      ensures match ParseSiblings(text[start..], parsingDepth + 1, [])
              case Failed(e) => p == Null && error == Some(e)
              case AtEnd(found) => p == Null && error == None && nodes == found
              case ClosedBy(found, name, rest) =>
                p.To? && start < p.p <= |text| && text[p.p..] == rest && tag == name && nodes == found && error == None
      decreases |text| - start, 1
    {
      hide XmlGrammar.ParseNode;
      tag, nodes := "", [];
      parsingDepth := parsingDepth + 1;
      if parsingDepth == MAX_ELEMENT_DEPTH {
        error := Some(ErrorDepthExceeded);
        parsingDepth := parsingDepth - 1;
        return Null, tag, nodes;
      }
      var at := start;
      while true
        invariant start <= at <= |text| && error == None && parsingDepth == old(parsingDepth) + 1 < MAX_ELEMENT_DEPTH
        invariant ParseSiblings(text[start..], parsingDepth, []) == ParseSiblings(text[at..], parsingDepth, nodes)
        decreases |text| - at
      {
        var endTag, node;
        p, endTag, node := ParseNode(at);
        if p == Null {
          error := Some(Reported(error));
          break;
        }
        if endTag.Some? {
          tag := endTag.value;
          break;
        }
        if node == None {
          p := Null;
          break;
        }
        if node.value.Declaration? && !(parsingDepth == 1 && OnlyDeclarations(nodes)) {
          error := Some(ErrorParsingDeclaration);
          p := Null;
          break;
        }
        nodes := nodes + [node.value];
        at := p.p;
      }
      parsingDepth := parsingDepth - 1;
    }

    /** `XMLDocument::Parse`. */
    method Parse() returns (nodes: seq<Node>)
      requires error == None && parsingDepth == 0 && NUL !in text
      modifies this`error, this`parsingDepth
      ensures match XmlGrammar.Parse(text)
              case ParseError(e) => error == Some(e)
              case Parsed(found) => error == None && nodes == found
    {
      hide ParseSiblings, XmlGrammar.SkipWhiteSpace, CString;
      nodes := [];
      var at := SkipWhiteSpace(0);
      if BOM <= text[at..] {
        assert text[at..][3..] == text[at + 3..];
        at := at + 3;
      }
      assert text[0..] == text;
      if at == |text| {
        error := Some(ErrorEmptyDocument);
      } else {
        var _, _, found := ParseDeep(at);
        nodes := found;
      }
    }
  }
}
