/** What is written legally is accepted and read as it is meant, and an end tag with another name is refused. */
module XmlCompleteness {
  import opened XmlText
  import opened XmlGrammar
  import opened XmlSources
  import opened XmlSoundness

  // ---------- white space, names and terminators ----------

  lemma {:induction false} SkipOf(w: string, rest: string)
    requires Blank(w) && (rest != [] ==> !IsWhiteSpace(rest[0]))
    ensures SkipWhiteSpace(w + rest) == rest
  {
    if w == "" {
      assert w + rest == rest;
    } else {
      assert (w + rest)[0] == w[0] && (w + rest)[1..] == w[1..] + rest;
      SkipOf(w[1..], rest);
    }
  }

  lemma {:induction false} NameLengthOf(name: string, rest: string)
    requires (forall i :: 0 <= i < |name| ==> IsNameChar(name[i])) && (rest != [] ==> !IsNameChar(rest[0]))
    ensures NameLength(name + rest) == |name|
  {
    if name == [] {
      assert name + rest == rest;
    } else {
      NameLengthOf(name[1..], rest);
      assert (name + rest)[1..] == name[1..] + rest;
    }
  }

  lemma NameOf(name: string, rest: string)
    requires LegalName(name) && (rest != [] ==> !IsNameChar(rest[0]))
    ensures var s := name + rest; ParseName(s) == |name| && s[..|name|] == name && s[|name|..] == rest
  {
    NameLengthOf(name[1..], rest);
    assert (name + rest)[1..] == name[1..] + rest;
  }

  lemma {:induction false} FindOf(raw: string, tag: string, rest: string)
    requires tag != [] && EndsFirst(raw, tag)
    ensures var s := raw + (tag + rest);
            ParseText(s, tag) == FoundAt(|raw|) && s[..|raw|] == raw && s[|raw| + |tag|..] == rest
  {
    var s := raw + (tag + rest);
    if raw == [] {
      assert s == tag + rest;
    } else {
      NotHere(raw, tag, rest);
      EndsFirstBehind(raw, tag);
      assert s[1..] == raw[1..] + (tag + rest);
      FindOf(raw[1..], tag, rest);
    }
  }

  lemma NotHere(raw: string, tag: string, rest: string)
    requires raw != [] && tag != [] && EndsFirst(raw, tag)
    ensures !(tag <= raw + (tag + rest))
  {
    var s := raw + (tag + rest);
    assert (raw + tag)[0..] == raw + tag;
    assert s[..|tag|] == (raw + tag)[..|tag|];
  }

  lemma EndsFirstBehind(raw: string, tag: string)
    requires raw != [] && EndsFirst(raw, tag)
    ensures EndsFirst(raw[1..], tag)
  {
    forall i | 0 <= i < |raw[1..]| ensures !(tag <= (raw[1..] + tag)[i..]) {
      assert (raw[1..] + tag)[i..] == (raw + tag)[i + 1..];
    }
  }

  lemma CharacterEndsFirst(raw: string, c: char)
    requires c !in raw
    ensures EndsFirst(raw, [c])
  {
    forall i | 0 <= i < |raw| ensures !([c] <= (raw + [c])[i..]) {
      assert (raw + [c])[i..][0] == raw[i];
    }
  }

  // ---------- attributes ----------

  lemma QuotedOf(quote: char, raw: string, rest: string)
    requires (quote == '\"' || quote == '\'') && quote !in raw
    ensures ParseQuoted([quote] + (raw + ([quote] + rest))) == Quoted(Decoded(raw, ATTRIBUTE_VALUE), rest)
  {
    hide Decoded, ParseText;
    CharacterEndsFirst(raw, quote);
    FindOf(raw, [quote], rest);
    var v := raw + ([quote] + rest);
    var u := [quote] + v;
    assert u[1..] == v && u[1..|raw| + 1] == v[..|raw|] && u[|raw| + 2..] == v[|raw| + 1..];
  }

  lemma EqualsOf(gap: string, gap': string, u: string)
    requires Blank(gap) && Blank(gap') && u != [] && !IsWhiteSpace(u[0])
    ensures SkipEquals(gap + ("=" + (gap' + u))) == u
  {
    hide SkipWhiteSpace;
    SkipOf(gap, "=" + (gap' + u));
    SkipOf(gap', u);
    assert ("=" + (gap' + u))[1..] == gap' + u;
  }

  lemma AttributeOf(a: Attr, rest: string)
    requires LegalAttr(a)
    ensures var s := AttrText(a, rest); s == a.before + s[|a.before|..]
    ensures var t := AttrText(a, rest)[|a.before|..];
            && t != [] && IsNameStartChar(t[0]) && !IsWhiteSpace(t[0])
            && ParseAttribute(t) == OneAttribute(MeantAttr(a), rest)
  {
    hide Decoded, ParseName, ParseQuoted, SkipEquals, Blank;
    var u := [a.quote] + (a.raw + ([a.quote] + rest));
    var after := a.gap + ("=" + (a.gap' + u));
    var t := a.name + after;
    assert AttrText(a, rest) == a.before + t && AttrText(a, rest)[|a.before|..] == t;
    assert t[0] == a.name[0];
    GapIsNoName(a.gap, "=" + (a.gap' + u));
    NameOf(a.name, after);
    EqualsOf(a.gap, a.gap', u);
    QuotedOf(a.quote, a.raw, rest);
  }

  lemma GapIsNoName(gap: string, rest: string)
    requires Blank(gap) && (gap == "" ==> rest != [] && !IsNameChar(rest[0]))
    ensures gap + rest != [] && !IsNameChar((gap + rest)[0])
  {
    assert gap != "" ==> (gap + rest)[0] == gap[0];
  }

  lemma AttributesStep(s: string, found: seq<Attribute>, w: string, t: string, a: Attribute, rest: string)
    requires s == w + t && Blank(w) && t != [] && !IsWhiteSpace(t[0]) && IsNameStartChar(t[0])
    requires ParseAttribute(t) == OneAttribute(a, rest) && !HasAttribute(found, a.name)
    ensures ParseAttributes(s, found) == ParseAttributes(rest, found + [a])
  {
    hide SkipWhiteSpace, ParseAttribute, HasAttribute, IsNameStartChar, Blank;
    SkipOf(w, t);
  }

  lemma AttributesEnd(last: string, sealed: bool, rest: string, found: seq<Attribute>)
    requires Blank(last)
    ensures ParseAttributes(last + ((if sealed then "/>" else ">") + rest), found) == Attributes(found, sealed, rest)
  {
    hide SkipWhiteSpace, ParseAttribute, HasAttribute, Blank;
    var t := (if sealed then "/>" else ">") + rest;
    assert t[0] == (if sealed then '/' else '>') && (if sealed then t[2..] else t[1..]) == rest;
    SkipOf(last, t);
  }

  lemma {:induction false} AttributesOf(attrs: seq<Attr>, last: string, sealed: bool, rest: string, found: seq<Attribute>)
    requires Blank(last) && (forall i :: 0 <= i < |attrs| ==> LegalAttr(attrs[i]))
    requires Distinct(found + MeantAttrs(attrs))
    ensures ParseAttributes(AttrsText(attrs, last + ((if sealed then "/>" else ">") + rest)), found)
         == Attributes(found + MeantAttrs(attrs), sealed, rest)
    decreases |attrs|
  {
    hide *;
    var end := last + ((if sealed then "/>" else ">") + rest);
    if attrs == [] {
      AttributesEnd(last, sealed, rest, found);
      NoneLeft(found, end);
    } else {
      var a, more := attrs[0], AttrsText(attrs[1..], end);
      assert LegalAttr(a);
      DistinctNext(found, attrs);
      AttributeOf(a, more);
      BeforeIsBlank(a);
      AttributesStep(AttrText(a, more), found, a.before, AttrText(a, more)[|a.before|..], MeantAttr(a), more);
      AttrsStep(attrs, end);
      AttributesOf(attrs[1..], last, sealed, rest, found + [MeantAttr(a)]);
    }
  }

  lemma BeforeIsBlank(a: Attr)
    requires LegalAttr(a)
    ensures Blank(a.before)
  {
  }

  lemma AttrsStep(attrs: seq<Attr>, end: string)
    requires attrs != []
    ensures AttrsText(attrs, end) == AttrText(attrs[0], AttrsText(attrs[1..], end))
  {
  }

  lemma DistinctNext(found: seq<Attribute>, attrs: seq<Attr>)
    requires attrs != [] && Distinct(found + MeantAttrs(attrs))
    ensures var a := MeantAttr(attrs[0]);
            && !HasAttribute(found, a.name) && found + MeantAttrs(attrs) == found + [a] + MeantAttrs(attrs[1..])
            && Distinct(found + [a] + MeantAttrs(attrs[1..]))
  {
    MeantFirst(attrs);
    Regrouped(found, MeantAttr(attrs[0]), MeantAttrs(attrs[1..]));
    FreshName(found, MeantAttr(attrs[0]), MeantAttrs(attrs[1..]));
    hide *;
  }

  lemma MeantFirst(attrs: seq<Attr>)
    requires attrs != []
    ensures MeantAttrs(attrs) == [MeantAttr(attrs[0])] + MeantAttrs(attrs[1..])
  {
    hide MeantAttr;
  }

  lemma Regrouped<T>(a: seq<T>, x: T, b: seq<T>)
    ensures a + ([x] + b) == a + [x] + b
  {
  }

  lemma FreshName(found: seq<Attribute>, a: Attribute, more: seq<Attribute>)
    ensures Distinct(found + [a] + more) ==> !HasAttribute(found, a.name)
  {
    var all := found + [a] + more;
    assert all[|found|] == a && forall i :: 0 <= i < |found| ==> all[i] == found[i];
  }

  // ---------- tags ----------

  lemma LegalIsDistinct(attrs: seq<Attr>)
    requires LegalAttrs(attrs)
    ensures Distinct([] + MeantAttrs(attrs)) && [] + MeantAttrs(attrs) == MeantAttrs(attrs)
    ensures forall i :: 0 <= i < |attrs| ==> LegalAttr(attrs[i])
  {
    hide LegalAttr;
    assert [] + MeantAttrs(attrs) == MeantAttrs(attrs);
  }

  /** What follows the name of a tag does not go on with it. */
  lemma AfterName(attrs: seq<Attr>, last: string, sealed: bool, rest: string)
    requires LegalAttrs(attrs) && Blank(last)
    ensures var after := AttrsText(attrs, last + ((if sealed then "/>" else ">") + rest));
            after != [] && !IsNameChar(after[0])
  {
    hide LegalAttr, AttrText, Blank, IsNameChar, IsWhiteSpace;
    var end := (if sealed then "/>" else ">") + rest;
    EndIsNoName(sealed, rest);
    GapIsNoName(last, end);
    if attrs != [] {
      assert LegalAttr(attrs[0]);
      StartsBlank(attrs[0], AttrsText(attrs[1..], last + end));
    }
  }

  lemma EndIsNoName(sealed: bool, rest: string)
    ensures var end := (if sealed then "/>" else ">") + rest; end != [] && !IsNameChar(end[0])
  {
    assert ((if sealed then "/>" else ">") + rest)[0] == if sealed then '/' else '>';
  }

  lemma StartsBlank(a: Attr, rest: string)
    requires LegalAttr(a) && a.before != ""
    ensures AttrText(a, rest) != [] && !IsNameChar(AttrText(a, rest)[0])
  {
    assert AttrText(a, rest)[0] == a.before[0];
  }

  lemma TagOf(inner: string, slash: bool, name: string, attrs: seq<Attr>, last: string, sealed: bool, rest: string)
    requires LegalTag(inner, name, attrs, last)
    ensures ParseTag(TagText(inner, slash, name, attrs, last + ((if sealed then "/>" else ">") + rest)))
         == Tag(name, MeantAttrs(attrs), if sealed then Closed else if slash then Closing else Open, rest)
  {
    hide *;
    var after := AttrsText(attrs, last + ((if sealed then "/>" else ">") + rest));
    TagParts(inner, name, attrs, last);
    AfterName(attrs, last, sealed, rest);
    NameOf(name, after);
    LegalIsDistinct(attrs);
    AttributesOf(attrs, last, sealed, rest, []);
    TagCase(inner, slash, name, after);
    TagIs(inner, slash, name, attrs, last + ((if sealed then "/>" else ">") + rest));
  }

  lemma TagParts(inner: string, name: string, attrs: seq<Attr>, last: string)
    requires LegalTag(inner, name, attrs, last)
    ensures Blank(inner) && LegalName(name) && LegalAttrs(attrs) && Blank(last)
  {
  }

  lemma TagIs(inner: string, slash: bool, name: string, attrs: seq<Attr>, rest: string)
    ensures TagText(inner, slash, name, attrs, rest) == inner + ((if slash then "/" else "") + (name + AttrsText(attrs, rest)))
  {
  }

  lemma TagCase(inner: string, slash: bool, name: string, after: string)
    requires Blank(inner) && LegalName(name) && ParseName(name + after) == |name|
    ensures var r := ParseAttributes(after, []);
            r.Attributes? ==>
              ParseTag(inner + ((if slash then "/" else "") + (name + after)))
              == Tag(name, r.attributes, if r.sealed then Closed else if slash then Closing else Open, r.rest)
  {
    hide SkipWhiteSpace, ParseAttributes, ParseName, Blank;
    var u := name + after;
    assert u[0] == name[0] && u[..|name|] == name && u[|name|..] == after;
    var t := (if slash then "/" else "") + u;
    assert t[0] == (if slash then '/' else name[0]) && (if slash then t[1..] else t) == u;
    SkipOf(inner, t);
  }

  // ---------- other markup ----------

  lemma BetweenOf(header: string, raw: string, tag: string, rest: string)
    requires tag != [] && EndsFirst(raw, tag)
    ensures var t := header + (raw + (tag + rest));
            header <= t && ParseBetween(t, |header|, tag) == Between(Decoded(raw, COMMENT), rest)
  {
    hide Decoded, ParseText;
    FindOf(raw, tag, rest);
    var s := raw + (tag + rest);
    var t := header + s;
    assert t[|header|..] == s;
    assert t[|header|..|header| + |raw|] == s[..|raw|] && t[|header| + |raw| + |tag|..] == s[|raw| + |tag|..];
  }

  lemma MarkupOf(kind: Kind, raw: string, rest: string)
    requires LegalMark(kind, raw)
    ensures var t := Header(kind) + (raw + (Footer(kind) + rest));
            && ParseMarkup(t) == Markup(MeantMarkup(kind, Decoded(raw, COMMENT)), rest) && t != [] && t[0] == '<'
  {
    hide ParseBetween, Decoded, EndsFirst;
    var t := Header(kind) + (raw + (Footer(kind) + rest));
    BetweenOf(Header(kind), raw, Footer(kind), rest);
    match kind {
      case DeclarationKind =>
      case CommentKind => assert t[1] == '!';
      case CDataKind => assert t[1] == '!' && t[2] == '[';
      case UnknownKind =>
        ShorterHeader(raw, rest);
        assert t[1] == '!';
    }
  }

  /** An unknown is not taken for a comment or a CDATA section, or for a declaration by its first character. */
  lemma ShorterHeader(raw: string, rest: string)
    requires EndsFirst(raw, ">") && !("--" <= raw) && !("[CDATA[" <= raw)
    ensures var t := "<!" + (raw + (">" + rest)); !("<!--" <= t) && !("<![CDATA[" <= t)
  {
    NotTheStart("--", raw, rest);
    NotTheStart("[CDATA[", raw, rest);
    var t := "<!" + (raw + (">" + rest));
    assert t[2..] == raw + (">" + rest);
    BehindMark(t, "--");
    BehindMark(t, "[CDATA[");
    assert "<!" + "--" == "<!--" && "<!" + "[CDATA[" == "<![CDATA[";
  }

  lemma BehindMark(t: string, mark: string)
    requires |t| >= 2
    ensures "<!" + mark <= t ==> mark <= t[2..]
  {
  }

  lemma NotTheStart(mark: string, raw: string, rest: string)
    requires !(mark <= raw) && '>' !in mark
    ensures !(mark <= raw + (">" + rest))
  {
    var s := raw + (">" + rest);
    assert |mark| <= |raw| ==> s[..|mark|] == raw[..|mark|];
    assert |raw| < |mark| ==> s[|raw|] == '>' && mark[|raw|] in mark;
  }

  // ---------- nodes ----------

  lemma MarkedOf(gap: string, kind: Kind, raw: string, rest: string, depth: nat)
    requires Blank(gap) && LegalMark(kind, raw)
    ensures ParseNode(gap + (Header(kind) + (raw + (Footer(kind) + rest))), depth)
         == OneNode(MeantMarkup(kind, Decoded(raw, COMMENT)), rest)
  {
    MarkupOf(kind, raw, rest);
    hide ParseMarkup, SkipWhiteSpace, Decoded, Header, Footer;
    SkipOf(gap, Header(kind) + (raw + (Footer(kind) + rest)));
  }

  lemma PlainOf(raw: string, rest: string, depth: nat)
    requires !Blank(raw) && '<' !in raw && |rest| >= 2 && rest[0] == '<'
    ensures ParseNode(raw + rest, depth) == OneNode(Text(Decoded(raw, TEXT_ELEMENT), false), rest)
  {
    StaysInside(raw, rest);
    CharacterEndsFirst(raw, '<');
    FindOf(raw, "<", rest[1..]);
    hide *;
    assert rest == "<" + rest[1..];
    assert (raw + rest)[|raw|..] == rest;
    PlainCase(raw + rest, |raw|, depth);
  }

  lemma PlainCase(s: string, k: nat, depth: nat)
    requires SkipWhiteSpace(s) != [] && SkipWhiteSpace(s)[0] != '<' && ParseText(s, "<") == FoundAt(k) && k + 1 < |s|
    ensures ParseNode(s, depth) == OneNode(Text(Decoded(s[..k], TEXT_ELEMENT), false), s[k..])
  {
    hide Decoded, ParseText, SkipWhiteSpace;
  }

  lemma {:induction false} StaysInside(raw: string, rest: string)
    requires !Blank(raw)
    ensures var t := SkipWhiteSpace(raw + rest); t != [] && t[0] in raw
  {
    assert (raw + rest)[0] == raw[0];
    if IsWhiteSpace(raw[0]) {
      assert (raw + rest)[1..] == raw[1..] + rest;
      StaysInside(raw[1..], rest);
    }
  }

  /** Behind white space, a '<' and no mark: what the element's text parses as. */
  lemma TagNode(gap: string, s: string, depth: nat)
    requires Blank(gap) && s != [] && s[0] != '!' && s[0] != '?'
    ensures ParseNode(gap + ("<" + s), depth) == ParseElement(s, depth)
  {
    hide SkipWhiteSpace, ParseElement;
    var t := "<" + s;
    assert t[0] == '<' && t[1] == s[0] && t[1..] == s;
    SkipOf(gap, t);
  }

  lemma TagStart(inner: string, slash: bool, name: string, attrs: seq<Attr>, last: string, rest: string)
    requires LegalTag(inner, name, attrs, last)
    ensures var s := TagText(inner, slash, name, attrs, rest); s != [] && s[0] != '!' && s[0] != '?'
  {
    hide AttrsText, LegalAttrs;
    var s := TagText(inner, slash, name, attrs, rest);
    assert s[0] == if inner != "" then inner[0] else if slash then '/' else name[0];
  }

  lemma VoidOf(src: Source, rest: string, depth: nat)
    requires src.Void? && Blank(src.gap) && LegalTag(src.inner, src.name, src.attrs, src.last)
    ensures ParseNode(src.gap + ("<" + TagText(src.inner, src.slash, src.name, src.attrs, src.last + ("/>" + rest))), depth)
         == OneNode(Element(src.name, MeantAttrs(src.attrs), []), rest)
  {
    hide ParseTag, ParseNode, TagText, LegalTag, Blank, MeantAttrs;
    TagOf(src.inner, src.slash, src.name, src.attrs, src.last, true, rest);
    TagStart(src.inner, src.slash, src.name, src.attrs, src.last, src.last + ("/>" + rest));
    TagNode(src.gap, TagText(src.inner, src.slash, src.name, src.attrs, src.last + ("/>" + rest)), depth);
  }

  /** An end tag ends the level it is found on. */
  lemma EndOf(end: End, name: string, rest: string, depth: nat, nodes: seq<Node>)
    requires Blank(end.gap) && LegalTag(end.inner, name, end.attrs, end.last) && depth < MAX_ELEMENT_DEPTH
    ensures ParseSiblings(EndText(end, name, rest), depth, nodes) == ClosedBy(nodes, name, rest)
  {
    hide ParseTag, ParseNode, TagText, LegalTag, Blank, MeantAttrs;
    TagOf(end.inner, true, name, end.attrs, end.last, false, rest);
    TagStart(end.inner, true, name, end.attrs, end.last, end.last + (">" + rest));
    TagNode(end.gap, TagText(end.inner, true, name, end.attrs, end.last + (">" + rest)), depth);
  }

  /** What is left of an element behind its start tag decides what it is. */
  lemma OpenOf(gap: string, inner: string, name: string, attrs: seq<Attr>, last: string, below: string, depth: nat)
    requires Blank(gap) && LegalTag(inner, name, attrs, last) && below != []
    ensures var r := ParseNode(gap + ("<" + TagText(inner, false, name, attrs, last + (">" + below))), depth);
            var kids := ParseSiblings(below, depth + 1, []);
            && (kids.Failed? ==> r == NodeFailed(kids.error))
            && (kids.ClosedBy? && kids.tag == name ==> r == OneNode(Element(name, MeantAttrs(attrs), kids.nodes), kids.rest))
            && (kids.ClosedBy? && kids.tag != name ==> r == NodeFailed(ErrorMismatchedElement))
  {
    hide ParseTag, ParseNode, TagText, LegalTag, Blank, MeantAttrs, ParseSiblings;
    TagOf(inner, false, name, attrs, last, false, below);
    TagStart(inner, false, name, attrs, last, last + (">" + below));
    TagNode(gap, TagText(inner, false, name, attrs, last + (">" + below)), depth);
  }

  lemma EndIsText(end: End, name: string, rest: string)
    ensures EndText(end, name, rest) != [] && (end.gap == "" ==> |EndText(end, name, rest)| >= 2 && EndText(end, name, rest)[0] == '<')
  {
  }

  lemma {:induction false} NodeOf(src: Source, rest: string, depth: nat)
    requires LegalSource(src) && 1 <= depth && depth + Depth(src) < MAX_ELEMENT_DEPTH
    requires src.Plain? ==> |rest| >= 2 && rest[0] == '<'
    ensures ParseNode(SourceText(src, rest), depth) == OneNode(Meant(src), rest)
    decreases src, 0
  {
    hide *;
    SourceIs(src, rest);
    match src {
      case Plain(raw) => PlainOf(raw, rest, depth);
      case Marked(gap, kind, raw) => MarkedOf(gap, kind, raw, rest, depth);
      case Void(_, _, _, _, _, _) => VoidOf(src, rest, depth);
      case Tagged(gap, inner, name, attrs, last, kids, end) =>
        var tail := EndText(end, name, rest);
        EndIsText(end, name, rest);
        KidsAreDeclared(kids, depth + 1);
        LastHasTag(kids, end, tail);
        SourcesOf(kids, end.gap, tail, depth + 1, []);
        EndOf(end, name, rest, depth + 1, [] + MeantAll(kids));
        assert [] + MeantAll(kids) == MeantAll(kids);
        SourcesAreText(kids, tail);
        OpenOf(gap, inner, name, attrs, last, SourcesText(kids, tail), depth);
    }
  }

  /** What a source is, in one place. */
  lemma SourceIs(src: Source, rest: string)
    requires LegalSource(src)
    ensures src.Plain? ==>
      && !Blank(src.raw) && '<' !in src.raw && SourceText(src, rest) == src.raw + rest
      && Meant(src) == Text(Decoded(src.raw, TEXT_ELEMENT), false)
    ensures src.Marked? ==>
      && Blank(src.gap) && LegalMark(src.kind, src.raw)
      && SourceText(src, rest) == src.gap + (Header(src.kind) + (src.raw + (Footer(src.kind) + rest)))
      && Meant(src) == MeantMarkup(src.kind, Decoded(src.raw, COMMENT))
    ensures src.Void? ==>
      && Blank(src.gap) && LegalTag(src.inner, src.name, src.attrs, src.last)
      && SourceText(src, rest)
         == src.gap + ("<" + TagText(src.inner, src.slash, src.name, src.attrs, src.last + ("/>" + rest)))
      && Meant(src) == Element(src.name, MeantAttrs(src.attrs), [])
    ensures src.Tagged? ==>
      && Blank(src.gap) && LegalTag(src.inner, src.name, src.attrs, src.last)
      && LegalSources(src.kids, src.end.gap) && NoDeclarations(src.kids)
      && Blank(src.end.gap) && LegalTag(src.end.inner, src.name, src.end.attrs, src.end.last)
      && Depth(src) == 1 + DepthOf(src.kids)
      && SourceText(src, rest)
         == src.gap + ("<" + TagText(src.inner, false, src.name, src.attrs,
                                     src.last + (">" + SourcesText(src.kids, EndText(src.end, src.name, rest)))))
      && Meant(src) == Element(src.name, MeantAttrs(src.attrs), MeantAll(src.kids))
  {
    hide Decoded, LegalMark, LegalTag, TagText, EndText, SourcesText, LegalSources, NoDeclarations, MeantAll, MeantAttrs, Blank;
  }

  lemma KidsAreDeclared(srcs: seq<Source>, depth: nat)
    requires NoDeclarations(srcs)
    ensures Declared(srcs, depth, [])
  {
  }

  /** A text at the end is followed by the '<' of the end tag. */
  lemma {:induction false} LastHasTag(srcs: seq<Source>, end: End, tail: string)
    requires LegalSources(srcs, end.gap) && (end.gap == "" ==> |tail| >= 2 && tail[0] == '<')
    ensures srcs != [] && srcs[|srcs| - 1].Plain? ==> |tail| >= 2 && tail[0] == '<'
  {
    hide LegalSource;
    if |srcs| > 1 {
      assert srcs[1..][|srcs| - 2] == srcs[|srcs| - 1];
      LastHasTag(srcs[1..], end, tail);
    }
  }

  lemma SourcesAreText(srcs: seq<Source>, tail: string)
    requires tail != []
    ensures SourcesText(srcs, tail) != []
  {
    if srcs != [] {
      SourcesAreText(srcs[1..], tail);
    }
  }

  /** Siblings are read one by one, and then what follows them is. */
  lemma {:induction false} SourcesOf(srcs: seq<Source>, gap: string, tail: string, depth: nat, before: seq<Node>)
    requires LegalSources(srcs, gap) && Declared(srcs, depth, before) && 1 <= depth && depth + DepthOf(srcs) < MAX_ELEMENT_DEPTH
    requires srcs != [] && srcs[|srcs| - 1].Plain? ==> |tail| >= 2 && tail[0] == '<'
    ensures ParseSiblings(SourcesText(srcs, tail), depth, before) == ParseSiblings(tail, depth, before + MeantAll(srcs))
    decreases srcs, 1
  {
    hide *;
    if srcs == [] {
      NoSources(before, gap, tail, depth);
    } else {
      var src, more := srcs[0], srcs[1..];
      var rest := SourcesText(more, tail);
      FirstSource(srcs, gap, tail, depth, before);
      NodeOf(src, rest, depth);
      OneMoreNode(SourceText(src, rest), depth, before, Meant(src), rest);
      SourcesOf(more, gap, tail, depth, before + [Meant(src)]);
    }
  }

  lemma OneMoreNode(s: string, depth: nat, before: seq<Node>, node: Node, rest: string)
    requires depth < MAX_ELEMENT_DEPTH && ParseNode(s, depth) == OneNode(node, rest)
    requires node.Declaration? ==> depth == 1 && OnlyDeclarations(before)
    ensures ParseSiblings(s, depth, before) == ParseSiblings(rest, depth, before + [node])
  {
    hide ParseNode, OnlyDeclarations;
  }

  lemma FirstSource(srcs: seq<Source>, gap: string, tail: string, depth: nat, before: seq<Node>)
    requires srcs != [] && LegalSources(srcs, gap) && Declared(srcs, depth, before) && depth + DepthOf(srcs) < MAX_ELEMENT_DEPTH
    requires srcs[|srcs| - 1].Plain? ==> |tail| >= 2 && tail[0] == '<'
    ensures var (src, more) := (srcs[0], srcs[1..]);
            var rest := SourcesText(more, tail);
            && LegalSource(src) && LegalSources(more, gap) && SourcesText(srcs, tail) == SourceText(src, rest)
            && (src.Plain? ==> |rest| >= 2 && rest[0] == '<')
            && (Meant(src).Declaration? ==> depth == 1 && OnlyDeclarations(before))
            && Declared(more, depth, before + [Meant(src)])
            && before + MeantAll(srcs) == before + [Meant(src)] + MeantAll(more)
            && depth + Depth(src) < MAX_ELEMENT_DEPTH && depth + DepthOf(more) < MAX_ELEMENT_DEPTH
            && (more != [] && more[|more| - 1].Plain? ==> |tail| >= 2 && tail[0] == '<')
  {
    hide *;
    var src, more := srcs[0], srcs[1..];
    SourcesParts(srcs, gap, tail);
    DeclaredParts(srcs, depth, before);
    if src.Plain? {
      if more != [] {
        NextStarts(more, gap, tail);
      }
    }
    assert more != [] ==> more[|more| - 1] == srcs[|srcs| - 1];
  }

  lemma SourcesParts(srcs: seq<Source>, gap: string, tail: string)
    requires srcs != [] && LegalSources(srcs, gap)
    ensures LegalSource(srcs[0]) && LegalSources(srcs[1..], gap) && (srcs[0].Plain? ==> NextGap(srcs[1..], gap) == "")
    ensures SourcesText(srcs, tail) == SourceText(srcs[0], SourcesText(srcs[1..], tail)) && SourcesText([], tail) == tail
    ensures Depth(srcs[0]) <= DepthOf(srcs) && DepthOf(srcs[1..]) <= DepthOf(srcs)
  {
    hide LegalSource, SourceText, Depth, NextGap;
  }

  lemma DeclaredParts(srcs: seq<Source>, depth: nat, before: seq<Node>)
    requires srcs != [] && Declared(srcs, depth, before)
    ensures Meant(srcs[0]).Declaration? ==> depth == 1 && OnlyDeclarations(before)
    ensures Declared(srcs[1..], depth, before + [Meant(srcs[0])])
    ensures before + MeantAll(srcs) == before + [Meant(srcs[0])] + MeantAll(srcs[1..])
  {
    var src, more := srcs[0], srcs[1..];
    DeclaresIt(src);
    assert MeantAll(srcs) == [Meant(src)] + MeantAll(more);
    Later(before, Meant(src), MeantAll(more), 0);
    hide Meant, MeantAll, IsDeclaration, OnlyDeclarations;
    forall i | 0 <= i < |more| && IsDeclaration(more[i])
      ensures depth == 1 && OnlyDeclarations(before + [Meant(src)] + MeantAll(more)[..i])
    {
      assert srcs[i + 1] == more[i];
      Later(before, Meant(src), MeantAll(more), i);
    }
  }

  lemma Later(before: seq<Node>, node: Node, more: seq<Node>, i: nat)
    requires i <= |more|
    ensures before + ([node] + more)[..i + 1] == before + [node] + more[..i]
    ensures before + ([node] + more)[..0] == before && before + ([node] + more) == before + [node] + more
  {
  }

  lemma DeclaresIt(src: Source)
    ensures IsDeclaration(src) <==> Meant(src).Declaration?
  {
    hide Decoded;
  }

  /** What follows a text starts with '<'. */
  lemma NextStarts(more: seq<Source>, gap: string, tail: string)
    requires more != [] && NextGap(more, gap) == "" && LegalSources(more, gap)
    ensures var s := SourcesText(more, tail); |s| >= 2 && s[0] == '<'
  {
    hide TagText, EndText, LegalTag, LegalMark;
    var rest := SourcesText(more[1..], tail);
    MarkStarts(more[0], rest);
  }

  lemma MarkStarts(src: Source, rest: string)
    requires !src.Plain? && src.gap == ""
    ensures var s := SourceText(src, rest); |s| >= 2 && s[0] == '<'
  {
    hide EndText, SourcesText;
  }

  // ---------- documents ----------

  lemma {:induction false} FirstAreDeclared(srcs: seq<Source>)
    requires DeclarationsFirst(srcs)
    ensures Declared(srcs, 1, [])
  {
    forall i | 0 <= i < |srcs| && IsDeclaration(srcs[i]) ensures OnlyDeclarations([] + MeantAll(srcs)[..i]) {
      assert [] + MeantAll(srcs)[..i] == MeantAll(srcs)[..i];
      if i > 0 {
        MeantAt(srcs, 0);
        MeantAt(srcs, i - 1);
        DeclaresIt(srcs[0]);
        DeclaresIt(srcs[i - 1]);
      }
    }
  }

  lemma BeginsIs(input: string, gap: string, mark: string, text: string)
    requires Begins(input, gap, mark, text)
    ensures var s := SkipWhiteSpace(CString(input)); text != "" && (if BOM <= s then s[3..] else s) == text
  {
    hide CString, SkipWhiteSpace;
    var s := mark + text;
    assert mark == BOM ==> s[..3] == BOM && s[3..] == text && s[0] == BOM[0];
    assert mark == "" ==> s == text;
    SkipOf(gap, s);
  }

  lemma ParseBegins(input: string, gap: string, mark: string, text: string)
    requires Begins(input, gap, mark, text)
    ensures var r := ParseSiblings(text, 1, []); Parse(input) == if r.Failed? then ParseError(r.error) else Parsed(r.nodes)
  {
    BeginsIs(input, gap, mark, text);
    hide CString, SkipWhiteSpace, ParseSiblings, Begins;
  }

  lemma EndOfText(last: string, nodes: seq<Node>)
    requires Blank(last)
    ensures ParseSiblings(last, 1, nodes) == AtEnd(nodes)
  {
    hide SkipWhiteSpace;
    SkipOf(last, "");
    assert last + "" == last;
  }

  lemma DocumentIsRead(input: string, gap: string, mark: string, srcs: seq<Source>, last: string)
    requires IsDocument(input, gap, mark, srcs, last)
    ensures Parse(input) == Parsed(MeantAll(srcs))
  {
    hide Begins, LegalSources, ParseSiblings, SourcesText, MeantAll, DepthOf, Blank, Parse;
    FirstAreDeclared(srcs);
    SourcesOf(srcs, last, last, 1, []);
    EndOfText(last, [] + MeantAll(srcs));
    assert [] + MeantAll(srcs) == MeantAll(srcs);
    ParseBegins(input, gap, mark, SourcesText(srcs, last));
  }

  lemma CutShortIsRead(input: string, gap: string, mark: string, srcs: seq<Source>, end: End, tag: string, rest: string)
    requires IsCutShort(input, gap, mark, srcs, end, tag, rest)
    ensures Parse(input) == Parsed(MeantAll(srcs))
  {
    hide Begins, LegalSources, ParseSiblings, SourcesText, MeantAll, DepthOf, Blank, LegalTag, EndText, Parse;
    FirstAreDeclared(srcs);
    EndIsText(end, tag, rest);
    LastHasTag(srcs, end, EndText(end, tag, rest));
    SourcesOf(srcs, end.gap, EndText(end, tag, rest), 1, []);
    EndOf(end, tag, rest, 1, [] + MeantAll(srcs));
    assert [] + MeantAll(srcs) == MeantAll(srcs);
    ParseBegins(input, gap, mark, SourcesText(srcs, EndText(end, tag, rest)));
  }

  /** The parser accepts exactly the texts of documents, and reads what is meant. */
  lemma ParsedIffDenoted(input: string, nodes: seq<Node>)
    ensures Parse(input) == Parsed(nodes) <==> Denotes(input, nodes)
  {
    hide IsDocument, IsCutShort, Parse, MeantAll;
    if Parse(input) == Parsed(nodes) {
      ParseSound(input);
    }
    forall gap, mark, srcs, last | IsDocument(input, gap, mark, srcs, last) ensures Parse(input) == Parsed(MeantAll(srcs)) {
      DocumentIsRead(input, gap, mark, srcs, last);
    }
    forall gap, mark, srcs, end, tag, rest | IsCutShort(input, gap, mark, srcs, end, tag, rest)
      ensures Parse(input) == Parsed(MeantAll(srcs))
    {
      CutShortIsRead(input, gap, mark, srcs, end, tag, rest);
    }
  }

  // ---------- end tags with another name ----------

  /** An element that is open, behind its elder siblings. */
  datatype Level = Level(before: seq<Source>, gap: string, inner: string, name: string, attrs: seq<Attr>, last: string)

  function LevelText(l: Level, rest: string): string {
    SourcesText(l.before, l.gap + ("<" + TagText(l.inner, false, l.name, l.attrs, l.last + (">" + rest))))
  }

  predicate LegalLevel(l: Level, depth: nat) {
    && LegalSources(l.before, l.gap) && Blank(l.gap) && LegalTag(l.inner, l.name, l.attrs, l.last)
    && (if depth == 1 then DeclarationsFirst(l.before) else NoDeclarations(l.before))
    && depth + 1 + DepthOf(l.before) < MAX_ELEMENT_DEPTH
  }

  function LevelsText(levels: seq<Level>, rest: string): string {
    if levels == [] then rest else LevelText(levels[0], LevelsText(levels[1..], rest))
  }

  predicate LegalLevels(levels: seq<Level>, depth: nat) {
    levels == [] || (LegalLevel(levels[0], depth) && LegalLevels(levels[1..], depth + 1))
  }

  /** Behind open elements, what comes below the innermost one decides: an error there is an error. */
  lemma LevelFails(l: Level, below: string, depth: nat, error: XmlError)
    requires LegalLevel(l, depth) && depth >= 1 && below != []
    requires || ParseSiblings(below, depth + 1, []) == Failed(error)
             || (var r := ParseSiblings(below, depth + 1, []); r.ClosedBy? && r.tag != l.name && error == ErrorMismatchedElement)
    ensures ParseSiblings(LevelText(l, below), depth, []) == Failed(error)
  {
    hide *;
    LevelIs(l, below, depth);
    var tail := l.gap + ("<" + TagText(l.inner, false, l.name, l.attrs, l.last + (">" + below)));
    SourcesOf(l.before, l.gap, tail, depth, []);
    OpenOf(l.gap, l.inner, l.name, l.attrs, l.last, below, depth);
    NodeFails(tail, depth, [] + MeantAll(l.before), error);
  }

  lemma LevelIs(l: Level, below: string, depth: nat)
    requires LegalLevel(l, depth) && depth >= 1
    ensures var tail := l.gap + ("<" + TagText(l.inner, false, l.name, l.attrs, l.last + (">" + below)));
            && LevelText(l, below) == SourcesText(l.before, tail)
            && LegalSources(l.before, l.gap) && Blank(l.gap) && LegalTag(l.inner, l.name, l.attrs, l.last)
            && Declared(l.before, depth, []) && depth + 1 + DepthOf(l.before) < MAX_ELEMENT_DEPTH
            && (l.before != [] && l.before[|l.before| - 1].Plain? ==> |tail| >= 2 && tail[0] == '<')
  {
    hide LegalSources, TagText, SourcesText, LegalTag, Blank, DepthOf;
    var tail := l.gap + ("<" + TagText(l.inner, false, l.name, l.attrs, l.last + (">" + below)));
    if depth == 1 {
      FirstAreDeclared(l.before);
    } else {
      KidsAreDeclared(l.before, depth);
    }
    TagStart(l.inner, false, l.name, l.attrs, l.last, l.last + (">" + below));
    LastHasTag(l.before, End(l.gap, "", [], ""), tail);
  }

  lemma NodeFails(s: string, depth: nat, nodes: seq<Node>, error: XmlError)
    requires depth < MAX_ELEMENT_DEPTH && ParseNode(s, depth) == NodeFailed(error)
    ensures ParseSiblings(s, depth, nodes) == Failed(error)
  {
    hide ParseNode;
  }

  /** However deep, and whatever stands before it and follows, an end tag that does not have the name of the
    * innermost open element is reported.
    */
  lemma {:induction false} WrongEndTag(levels: seq<Level>, depth: nat, kids: seq<Source>, end: End, tag: string, rest: string)
    requires levels != [] && 1 <= depth && LegalLevels(levels, depth)
    requires LegalSources(kids, end.gap) && NoDeclarations(kids) && depth + |levels| + DepthOf(kids) < MAX_ELEMENT_DEPTH
    requires Blank(end.gap) && LegalTag(end.inner, tag, end.attrs, end.last) && tag != levels[|levels| - 1].name
    ensures ParseSiblings(LevelsText(levels, SourcesText(kids, EndText(end, tag, rest))), depth, []) == Failed(ErrorMismatchedElement)
    decreases |levels|
  {
    hide *;
    var core := SourcesText(kids, EndText(end, tag, rest));
    EndIsText(end, tag, rest);
    SourcesAreText(kids, EndText(end, tag, rest));
    FirstLevel(levels, depth, core);
    if |levels| == 1 {
      KidsAreDeclared(kids, depth + 1);
      LastHasTag(kids, end, EndText(end, tag, rest));
      SourcesOf(kids, end.gap, EndText(end, tag, rest), depth + 1, []);
      EndOf(end, tag, rest, depth + 1, [] + MeantAll(kids));
      LevelFails(levels[0], core, depth, ErrorMismatchedElement);
      assert levels[1..] == [];
    } else {
      assert levels[1..][|levels| - 2] == levels[|levels| - 1];
      WrongEndTag(levels[1..], depth + 1, kids, end, tag, rest);
      LevelsAreText(levels[1..], core);
      LevelFails(levels[0], LevelsText(levels[1..], core), depth, ErrorMismatchedElement);
    }
  }

  lemma FirstLevel(levels: seq<Level>, depth: nat, core: string)
    requires levels != [] && LegalLevels(levels, depth)
    ensures LegalLevel(levels[0], depth) && LegalLevels(levels[1..], depth + 1)
    ensures LevelsText(levels, core) == LevelText(levels[0], LevelsText(levels[1..], core)) && LevelsText([], core) == core
  {
    hide LevelText, LegalLevel;
  }

  lemma LevelsAreText(levels: seq<Level>, core: string)
    requires levels != []
    ensures LevelsText(levels, core) != []
  {
    hide TagText;
    var l, rest := levels[0], LevelsText(levels[1..], core);
    SourcesAreText(l.before, l.gap + ("<" + TagText(l.inner, false, l.name, l.attrs, l.last + (">" + rest))));
  }

  /** And so is the document. */
  lemma WrongEndTagIsRefused(input: string, gap: string, mark: string, levels: seq<Level>, kids: seq<Source>, end: End,
                             tag: string, rest: string)
    requires Begins(input, gap, mark, LevelsText(levels, SourcesText(kids, EndText(end, tag, rest))))
    requires levels != [] && LegalLevels(levels, 1)
    requires LegalSources(kids, end.gap) && NoDeclarations(kids) && 1 + |levels| + DepthOf(kids) < MAX_ELEMENT_DEPTH
    requires Blank(end.gap) && LegalTag(end.inner, tag, end.attrs, end.last) && tag != levels[|levels| - 1].name
    ensures Parse(input) == ParseError(ErrorMismatchedElement)
  {
    hide *;
    WrongEndTag(levels, 1, kids, end, tag, rest);
    ParseBegins(input, gap, mark, LevelsText(levels, SourcesText(kids, EndText(end, tag, rest))));
  }

  // ---------- other errors ----------

  lemma {:induction false} NowhereFound(s: string, tag: string)
    requires tag != [] && forall i :: 0 <= i <= |s| ==> !(tag <= s[i..])
    ensures ParseText(s, tag) == NotFound
  {
    assert s[0..] == s;
    if s != [] {
      forall i | 0 <= i <= |s[1..]| ensures !(tag <= s[1..][i..]) {
        Suffix(s, i + 1);
      }
      NowhereFound(s[1..], tag);
    }
  }

  /** Markup that does not end is refused, each kind with its own error. */
  lemma UnclosedMarkup(gap: string, kind: Kind, s: string, depth: nat, before: seq<Node>)
    requires Blank(gap) && depth < MAX_ELEMENT_DEPTH && forall i :: 0 <= i <= |s| ==> !(Footer(kind) <= s[i..])
    requires kind == UnknownKind ==> !("--" <= s) && !("[CDATA[" <= s)
    ensures ParseSiblings(gap + (Header(kind) + s), depth, before) == Failed(match kind
              case CommentKind => ErrorParsingComment
              case CDataKind => ErrorParsingCData
              case DeclarationKind => ErrorParsingDeclaration
              case UnknownKind => ErrorParsingUnknown)
  {
    var t := Header(kind) + s;
    NowhereFound(s, Footer(kind));
    UnclosedIs(kind, s);
    hide SkipWhiteSpace, ParseMarkup, Header, Footer, Blank;
    SkipOf(gap, t);
  }

  lemma UnclosedIs(kind: Kind, s: string)
    requires ParseText(s, Footer(kind)) == NotFound
    requires kind == UnknownKind ==> !("--" <= s) && !("[CDATA[" <= s)
    ensures var t := Header(kind) + s;
            && t != [] && !IsWhiteSpace(t[0])
            && ParseMarkup(t) == MarkupFailed(match kind
                                              case CommentKind => ErrorParsingComment
                                              case CDataKind => ErrorParsingCData
                                              case DeclarationKind => ErrorParsingDeclaration
                                              case UnknownKind => ErrorParsingUnknown)
  {
    hide ParseText, Decoded;
    var t := Header(kind) + s;
    assert t[0] == '<' && t[|Header(kind)|..] == s;
    BehindMark(t, "--");
    BehindMark(t, "[CDATA[");
    assert "<!" + "--" == "<!--" && "<!" + "[CDATA[" == "<![CDATA[";
    match kind {
      case DeclarationKind =>
      case CommentKind => assert t[1] == '!';
      case CDataKind => assert t[1] == '!' && t[2] == '[';
      case UnknownKind => assert t[1] == '!';
    }
  }

  /** A text that no tag follows is refused. */
  lemma TextAtTheEnd(raw: string, depth: nat, before: seq<Node>)
    requires !Blank(raw) && '<' !in raw && depth < MAX_ELEMENT_DEPTH
    ensures ParseSiblings(raw, depth, before) == Failed(ErrorParsingText)
  {
    StaysInside(raw, "");
    forall i | 0 <= i <= |raw| ensures !("<" <= raw[i..]) {
      assert i < |raw| ==> raw[i..][0] == raw[i];
    }
    NowhereFound(raw, "<");
    hide *;
    assert raw + "" == raw;
    NoTagCase(raw, depth);
    TextFails(raw, depth, before);
  }

  lemma NoTagCase(s: string, depth: nat)
    requires SkipWhiteSpace(s) != [] && SkipWhiteSpace(s)[0] != '<' && ParseText(s, "<") == NotFound
    ensures ParseNode(s, depth) == NodeFailed(ErrorParsingText)
  {
    hide ParseText, SkipWhiteSpace;
  }

  lemma TextFails(s: string, depth: nat, nodes: seq<Node>)
    requires depth < MAX_ELEMENT_DEPTH && ParseNode(s, depth) == NodeFailed(ErrorParsingText)
    ensures ParseSiblings(s, depth, nodes) == Failed(ErrorParsingText)
  {
    hide ParseNode;
  }

  /** So is an element that is not closed. */
  lemma Unclosed(l: Level, last: string, depth: nat)
    requires LegalLevel(l, depth) && depth >= 1 && Blank(last)
    ensures ParseSiblings(LevelText(l, last), depth, []) == Failed(if last == "" then ErrorMismatchedElement else ErrorParsing)
  {
    hide *;
    LevelIs(l, last, depth);
    var tail := l.gap + ("<" + TagText(l.inner, false, l.name, l.attrs, l.last + (">" + last)));
    SourcesOf(l.before, l.gap, tail, depth, []);
    NothingBelow(l, last, depth);
    NodeFails(tail, depth, [] + MeantAll(l.before), if last == "" then ErrorMismatchedElement else ErrorParsing);
  }

  lemma NothingBelow(l: Level, last: string, depth: nat)
    requires Blank(l.gap) && LegalTag(l.inner, l.name, l.attrs, l.last) && Blank(last) && depth + 1 < MAX_ELEMENT_DEPTH
    ensures ParseNode(l.gap + ("<" + TagText(l.inner, false, l.name, l.attrs, l.last + (">" + last))), depth)
         == NodeFailed(if last == "" then ErrorMismatchedElement else ErrorParsing)
  {
    hide ParseTag, ParseNode, TagText, LegalTag, MeantAttrs, SkipWhiteSpace, ParseMarkup;
    TagOf(l.inner, false, l.name, l.attrs, l.last, false, last);
    TagStart(l.inner, false, l.name, l.attrs, l.last, l.last + (">" + last));
    TagNode(l.gap, TagText(l.inner, false, l.name, l.attrs, l.last + (">" + last)), depth);
    BlankIsNothing(last, depth + 1);
    hide Blank;
  }

  lemma BlankIsNothing(last: string, depth: nat)
    requires Blank(last)
    ensures ParseNode(last, depth) == NoNode
  {
    hide SkipWhiteSpace;
    SkipOf(last, "");
    assert last + "" == last;
  }
}
