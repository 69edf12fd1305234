/** What the parser accepts is written legally, and it reads what is meant. */
module XmlSoundness {
  import opened XmlText
  import opened XmlGrammar
  import opened XmlSources

  // ---------- white space, names and terminators ----------

  lemma {:induction false} BlankBefore(s: string)
    ensures var n := |s| - |SkipWhiteSpace(s)|; forall i :: 0 <= i < n ==> IsWhiteSpace(s[i])
  {
    hide *;
    SkipOne(s);
    if s != [] && IsWhiteSpace(s[0]) {
      BlankBefore(s[1..]);
      forall i | 0 <= i < |s| - |SkipWhiteSpace(s)| ensures IsWhiteSpace(s[i]) {
        assert i > 0 ==> s[i] == s[1..][i - 1];
      }
    }
  }

  lemma SkipOne(s: string)
    ensures |SkipWhiteSpace(s)| == if s != [] && IsWhiteSpace(s[0]) then |SkipWhiteSpace(s[1..])| else |s|
  {
    hide IsWhiteSpace;
  }

  lemma Skipped(s: string) returns (w: string)
    ensures Blank(w) && s == w + SkipWhiteSpace(s)
  {
    BlankBefore(s);
    w := s[..|s| - |SkipWhiteSpace(s)|];
  }

  lemma {:induction false} NameIs(s: string)
    ensures forall i :: 0 <= i < NameLength(s) ==> IsNameChar(s[i])
    ensures NameLength(s) < |s| ==> !IsNameChar(s[NameLength(s)])
  {
    if s != [] && IsNameChar(s[0]) {
      NameIs(s[1..]);
    }
  }

  lemma NameIsLegal(s: string)
    requires ParseName(s) > 0
    ensures var n := ParseName(s); LegalName(s[..n]) && s == s[..n] + s[n..] && (s[n..] != [] ==> !IsNameChar(s[n..][0]))
  {
    NameIs(s[1..]);
    var n := ParseName(s);
    assert forall i :: 1 <= i < n ==> s[i] == s[1..][i - 1];
    assert n < |s| ==> s[n] == s[1..][n - 1];
  }

  lemma {:induction false} FoundFirst(s: string, tag: string)
    requires tag != [] && ParseText(s, tag).FoundAt?
    ensures var k := ParseText(s, tag).k; tag <= s[k..] && forall i :: 0 <= i < k ==> !(tag <= s[i..])
  {
    var k := ParseText(s, tag).k;
    assert s[0..] == s;
    if !(tag <= s) {
      FoundFirst(s[1..], tag);
      Suffix(s, k);
      forall i | 0 <= i < k ensures !(tag <= s[i..]) {
        if i > 0 {
          Suffix(s, i);
        }
      }
    }
  }

  lemma Suffix(s: string, i: nat)
    requires 0 < i <= |s|
    ensures s[1..][i - 1..] == s[i..]
  {
  }

  lemma InThree(s: string, k: nat, tag: string)
    requires k <= |s| && tag <= s[k..]
    ensures s == s[..k] + (tag + s[k + |tag|..])
  {
    assert s[k..] == tag + s[k..][|tag|..];
  }

  lemma FoundCharacter(s: string, c: char)
    requires ParseText(s, [c]).FoundAt?
    ensures var k := ParseText(s, [c]).k; s == s[..k] + ([c] + s[k + 1..]) && c !in s[..k]
  {
    FoundFirst(s, [c]);
    var k := ParseText(s, [c]).k;
    InThree(s, k, [c]);
    forall i | 0 <= i < k ensures s[i] != c {
      StartsWith(s, i, c);
    }
  }

  lemma StartsWith(s: string, i: nat, c: char)
    requires i < |s|
    ensures [c] <= s[i..] <==> s[i] == c
  {
  }

  // ---------- attributes ----------

  lemma EqualsSound(s: string) returns (gap: string, gap': string)
    requires SkipEquals(s) != []
    ensures Blank(gap) && Blank(gap') && s == gap + ("=" + (gap' + SkipEquals(s)))
  {
    EqualsParts(s);
    hide *;
    gap := Skipped(s);
    gap' := Skipped(SkipWhiteSpace(s)[1..]);
  }

  lemma EqualsParts(s: string)
    requires SkipEquals(s) != []
    ensures var t := SkipWhiteSpace(s); t != [] && t == "=" + t[1..] && SkipEquals(s) == SkipWhiteSpace(t[1..])
  {
    hide SkipWhiteSpace;
    var t := SkipWhiteSpace(s);
    assert t == "=" + t[1..];
  }

  lemma QuotedSound(u: string) returns (raw: string)
    requires ParseQuoted(u).Quoted?
    ensures u != [] && (u[0] == '\"' || u[0] == '\'') && u[0] !in raw
    ensures u == [u[0]] + (raw + ([u[0]] + ParseQuoted(u).rest))
    ensures ParseQuoted(u).value == Decoded(raw, ATTRIBUTE_VALUE)
  {
    hide Decoded, ParseText;
    var v := u[1..];
    assert u == [u[0]] + v;
    FoundCharacter(v, u[0]);
    var k := ParseText(v, [u[0]]).k;
    raw := v[..k];
    assert u[1..k + 1] == raw && u[k + 2..] == v[k + 1..];
  }

  lemma AttributeSound(s: string) returns (a: Attr)
    requires ParseAttribute(s).OneAttribute?
    ensures LegalAttr(a) && a.before == "" && s == AttrText(a, ParseAttribute(s).rest)
    ensures MeantAttr(a) == ParseAttribute(s).attribute
  {
    AttributeParts(s);
    hide *;
    var n := ParseName(s);
    NameIsLegal(s);
    var u := SkipEquals(s[n..]);
    var gap, gap' := EqualsSound(s[n..]);
    var raw := QuotedSound(u);
    a := Attr("", s[..n], gap, gap', u[0], raw);
    Assembled(s, a, u, ParseQuoted(u).rest);
  }

  lemma AttributeParts(s: string)
    requires ParseAttribute(s).OneAttribute?
    ensures var (n, r) := (ParseName(s), ParseAttribute(s));
            && 0 < n <= |s| && var q := ParseQuoted(SkipEquals(s[n..]));
            q.Quoted? && SkipEquals(s[n..]) != [] && r.rest == q.rest && r.attribute == Attribute(s[..n], q.value)
  {
    hide ParseName, SkipEquals, Decoded, ParseText;
  }

  lemma Assembled(s: string, a: Attr, u: string, rest: string)
    requires s == a.name + (a.gap + ("=" + (a.gap' + u))) && u == [a.quote] + (a.raw + ([a.quote] + rest)) && a.before == ""
    requires LegalName(a.name) && Blank(a.gap) && Blank(a.gap') && (a.quote == '\"' || a.quote == '\'') && a.quote !in a.raw
    ensures s == AttrText(a, rest) && LegalAttr(a) && MeantAttr(a) == Attribute(a.name, Decoded(a.raw, ATTRIBUTE_VALUE))
  {
    assert "" + s == s;
  }

  predicate Distinct(attributes: seq<Attribute>) {
    forall i, j :: 0 <= i < j < |attributes| ==> attributes[i].name != attributes[j].name
  }

  /** All but that the first attribute is set off. */
  predicate LegalButFirst(attrs: seq<Attr>) {
    && (forall i :: 0 <= i < |attrs| ==> LegalAttr(attrs[i]))
    && (forall i, j :: 0 <= i < j < |attrs| ==> attrs[i].name != attrs[j].name)
  }

  lemma {:induction false} AttributesSound(s: string, found: seq<Attribute>) returns (attrs: seq<Attr>, last: string)
    requires ParseAttributes(s, found).Attributes? && Distinct(found)
    ensures var r := ParseAttributes(s, found);
            && s == AttrsText(attrs, last + ((if r.sealed then "/>" else ">") + r.rest)) && Blank(last)
            && r.attributes == found + MeantAttrs(attrs) && Distinct(r.attributes)
            && (forall i :: 0 <= i < |attrs| ==> LegalAttr(attrs[i]))
    decreases |s|
  {
    hide *;
    AttributesCases(s, found);
    var w := Skipped(s);
    var t, r := SkipWhiteSpace(s), ParseAttributes(s, found);
    if IsNameStartChar(t[0]) {
      var one := ParseAttribute(t);
      var a := AttributeSound(t);
      NewName(found, one.attribute);
      var more, end := AttributesSound(one.rest, found + [one.attribute]);
      SetOff(w, a, one.rest);
      attrs, last := [a.(before := w)] + more, end;
      OneMore(a.(before := w), more, one.rest, end + ((if r.sealed then "/>" else ">") + r.rest), found);
    } else {
      attrs, last := [], w;
      NoneLeft(found, w + ((if r.sealed then "/>" else ">") + r.rest));
    }
  }

  lemma AttributesCases(s: string, found: seq<Attribute>)
    requires ParseAttributes(s, found).Attributes?
    ensures var t, r := SkipWhiteSpace(s), ParseAttributes(s, found);
            && t != [] && |t| <= |s|
            && if IsNameStartChar(t[0]) then
                 var one := ParseAttribute(t);
                 && one.OneAttribute? && |one.rest| < |s| && !HasAttribute(found, one.attribute.name)
                 && r == ParseAttributes(one.rest, found + [one.attribute])
               else t == (if r.sealed then "/>" else ">") + r.rest && r.attributes == found
  {
    hide SkipWhiteSpace, ParseAttribute, HasAttribute, IsNameStartChar;
    var t := SkipWhiteSpace(s);
    assert t[0] == '>' ==> t == ">" + t[1..];
    assert "/>" <= t ==> t == "/>" + t[2..];
  }

  lemma NewName(found: seq<Attribute>, a: Attribute)
    requires Distinct(found) && !HasAttribute(found, a.name)
    ensures Distinct(found + [a])
  {
  }

  lemma OneMore(a: Attr, more: seq<Attr>, rest: string, end: string, found: seq<Attribute>)
    requires rest == AttrsText(more, end) && LegalAttr(a) && forall i :: 0 <= i < |more| ==> LegalAttr(more[i])
    ensures AttrText(a, rest) == AttrsText([a] + more, end)
    ensures found + [MeantAttr(a)] + MeantAttrs(more) == found + MeantAttrs([a] + more)
    ensures forall i :: 0 <= i < |[a] + more| ==> LegalAttr(([a] + more)[i])
  {
    hide AttrText, LegalAttr;
    assert ([a] + more)[1..] == more;
  }

  lemma NoneLeft(found: seq<Attribute>, end: string)
    ensures found + MeantAttrs([]) == found && AttrsText([], end) == end
  {
  }

  lemma SetOff(w: string, a: Attr, rest: string)
    requires LegalAttr(a) && a.before == "" && Blank(w)
    ensures var b := a.(before := w); w + AttrText(a, rest) == AttrText(b, rest) && LegalAttr(b) && MeantAttr(b) == MeantAttr(a)
  {
    var tail := a.name + (a.gap + ("=" + (a.gap' + ([a.quote] + (a.raw + ([a.quote] + rest))))));
    assert "" + tail == tail;
  }

  /** What stands between '<' and the end of a tag. */
  lemma TagSound(s: string) returns (inner: string, slash: bool, attrs: seq<Attr>, last: string)
    requires ParseTag(s).Tag?
    ensures var r := ParseTag(s);
            && s == TagText(inner, slash, r.name, attrs, last + ((if r.closing == Closed then "/>" else ">") + r.rest))
            && LegalTag(inner, r.name, attrs, last) && MeantAttrs(attrs) == r.attributes
            && (r.closing == Closing ==> slash) && (r.closing == Open ==> !slash)
  {
    hide SkipWhiteSpace, ParseAttributes, ParseName, LegalAttr, Blank;
    inner := Skipped(s);
    var t := SkipWhiteSpace(s);
    slash := At(t, 0) == '/';
    var u := if slash then t[1..] else t;
    assert t == (if slash then "/" else "") + u;
    var n := ParseName(u);
    NameIsLegal(u);
    attrs, last := AttributesSound(u[n..], []);
    assert [] + MeantAttrs(attrs) == MeantAttrs(attrs);
    FirstIsSetOff(attrs, last + ((if ParseTag(s).closing == Closed then "/>" else ">") + ParseTag(s).rest));
    hide LegalName, AttrsText;
  }

  lemma FirstIsSetOff(attrs: seq<Attr>, rest: string)
    requires Distinct(MeantAttrs(attrs)) && forall i :: 0 <= i < |attrs| ==> LegalAttr(attrs[i])
    requires AttrsText(attrs, rest) != [] ==> !IsNameChar(AttrsText(attrs, rest)[0])
    ensures LegalAttrs(attrs)
  {
    hide LegalAttr;
    forall i, j | 0 <= i < j < |attrs| ensures attrs[i].name != attrs[j].name {
      assert MeantAttrs(attrs)[i].name == attrs[i].name && MeantAttrs(attrs)[j].name == attrs[j].name;
    }
    if attrs != [] && attrs[0].before == "" {
      StartsWithName(attrs[0], AttrsText(attrs[1..], rest));
    }
  }

  lemma StartsWithName(a: Attr, rest: string)
    requires LegalAttr(a) && a.before == ""
    ensures AttrText(a, rest) != [] && IsNameChar(AttrText(a, rest)[0])
  {
    assert AttrText(a, rest)[0] == a.name[0];
  }

  // ---------- other markup ----------

  lemma BetweenSound(t: string, header: string, tag: string) returns (raw: string)
    requires header <= t && tag != [] && ParseBetween(t, |header|, tag).Between?
    ensures var r := ParseBetween(t, |header|, tag);
            t == header + (raw + (tag + r.rest)) && EndsFirst(raw, tag) && r.value == Decoded(raw, COMMENT)
  {
    hide Decoded, ParseText;
    var s := t[|header|..];
    var k := ParseText(s, tag).k;
    FoundFirst(s, tag);
    InThree(s, k, tag);
    raw := s[..k];
    assert t == header + s;
    assert t[|header|..|header| + k] == raw && t[|header| + k + |tag|..] == s[k + |tag|..];
    NowhereBefore(s, k, tag);
  }

  lemma NowhereBefore(s: string, k: nat, tag: string)
    requires k <= |s| && tag <= s[k..] && forall i :: 0 <= i < k ==> !(tag <= s[i..])
    ensures EndsFirst(s[..k], tag)
  {
    var raw := s[..k];
    assert s[k..][..|tag|] == tag;
    assert raw + tag == s[..k + |tag|];
    forall i | 0 <= i < |raw| ensures !(tag <= (raw + tag)[i..]) {
      assert (raw + tag)[i..] <= s[i..];
    }
  }

  lemma MarkupSound(t: string) returns (kind: Kind, raw: string)
    requires ParseMarkup(t).Markup?
    ensures var r := ParseMarkup(t);
            t == Header(kind) + (raw + (Footer(kind) + r.rest)) && LegalMark(kind, raw) && r.node == MeantMarkup(kind, Decoded(raw, COMMENT))
  {
    hide ParseBetween, Decoded, EndsFirst;
    if "<?" <= t {
      kind := DeclarationKind;
      raw := BetweenSound(t, "<?", "?>");
    } else if "<!--" <= t {
      kind := CommentKind;
      raw := BetweenSound(t, "<!--", "-->");
    } else if "<![CDATA[" <= t {
      kind := CDataKind;
      raw := BetweenSound(t, "<![CDATA[", "]]>");
    } else {
      kind := UnknownKind;
      raw := BetweenSound(t, "<!", ">");
      NoLongerHeader(t, raw, ">" + ParseMarkup(t).rest);
    }
  }

  lemma NoLongerHeader(t: string, raw: string, rest: string)
    requires t == "<!" + (raw + rest) && !("<!--" <= t) && !("<![CDATA[" <= t)
    ensures !("--" <= raw) && !("[CDATA[" <= raw)
  {
    assert "--" <= raw ==> "<!--" <= t;
    assert "[CDATA[" <= raw ==> "<![CDATA[" <= t;
  }

  // ---------- nodes ----------

  /** The cases of the grammar. */
  lemma NodeCases(s: string, depth: nat)
    requires ParseNode(s, depth).OneNode? || ParseNode(s, depth).EndTag?
    ensures var t, r := SkipWhiteSpace(s), ParseNode(s, depth);
            && t != [] && |t| <= |s|
            && (ParseMarkup(t).Markup? ==> r == OneNode(ParseMarkup(t).node, ParseMarkup(t).rest))
            && (!ParseMarkup(t).Markup? ==> ParseMarkup(t) == NoMarkup)
            && (ParseMarkup(t) == NoMarkup && t[0] == '<' ==> t == "<" + t[1..] && r == ParseElement(t[1..], depth))
            && (ParseMarkup(t) == NoMarkup && t[0] != '<' ==> r == ParsePlain(s))
  {
    hide SkipWhiteSpace, ParseMarkup, ParseElement, ParsePlain;
    var t := SkipWhiteSpace(s);
    assert t[0] == '<' ==> t == "<" + t[1..];
  }

  lemma ElementCases(s: string, depth: nat)
    requires ParseElement(s, depth).OneNode? || ParseElement(s, depth).EndTag?
    ensures var tag, r := ParseTag(s), ParseElement(s, depth);
            && tag.Tag?
            && (tag.closing == Closing ==> r == EndTag(tag.name, tag.rest))
            && (tag.closing == Closed ==> r == OneNode(Element(tag.name, tag.attributes, []), tag.rest))
            && (tag.closing == Open ==>
                  var kids := ParseSiblings(tag.rest, depth + 1, []);
                  && kids.ClosedBy? && kids.tag == tag.name
                  && r == OneNode(Element(tag.name, tag.attributes, kids.nodes), kids.rest))
  {
    hide ParseTag, ParseSiblings;
  }

  lemma SiblingsCases(s: string, depth: nat, nodes: seq<Node>)
    requires !ParseSiblings(s, depth, nodes).Failed?
    ensures var node, r := ParseNode(s, depth), ParseSiblings(s, depth, nodes);
            && depth < MAX_ELEMENT_DEPTH && !node.NodeFailed?
            && (node == NoNode ==> r == AtEnd(nodes))
            && (node.EndTag? ==> r == ClosedBy(nodes, node.name, node.rest))
            && (node.OneNode? ==>
                  && |node.rest| < |s| && r == ParseSiblings(node.rest, depth, nodes + [node.node])
                  && (node.node.Declaration? ==> depth == 1 && OnlyDeclarations(nodes)))
  {
    hide ParseNode, OnlyDeclarations;
  }

  lemma PlainSound(s: string) returns (raw: string)
    requires SkipWhiteSpace(s) != [] && SkipWhiteSpace(s)[0] != '<' && ParsePlain(s).OneNode?
    ensures var r := ParsePlain(s);
            && s == raw + r.rest && !Blank(raw) && '<' !in raw && r.node == Text(Decoded(raw, TEXT_ELEMENT), false)
            && |r.rest| >= 2 && r.rest[0] == '<'
  {
    hide Decoded, ParseText, SkipWhiteSpace;
    FoundCharacter(s, '<');
    var k := ParseText(s, "<").k;
    raw := s[..k];
    assert s[k..] == ['<'] + s[k + 1..];
    if Blank(raw) {
      BlankSkips(raw, s[k..]);
    }
  }

  lemma {:induction false} BlankSkips(raw: string, rest: string)
    requires Blank(raw) && rest != [] && rest[0] == '<'
    ensures SkipWhiteSpace(raw + rest) == rest
  {
    if raw == "" {
      assert raw + rest == rest;
    } else {
      assert (raw + rest)[0] == raw[0] && (raw + rest)[1..] == raw[1..] + rest;
      BlankSkips(raw[1..], rest);
    }
  }

  lemma {:induction false} NodeSound(s: string, depth: nat) returns (src: Source)
    requires ParseNode(s, depth).OneNode? && 1 <= depth < MAX_ELEMENT_DEPTH
    ensures var r := ParseNode(s, depth);
            && LegalSource(src) && s == SourceText(src, r.rest) && Meant(src) == r.node
            && depth + Depth(src) < MAX_ELEMENT_DEPTH
            && (src.Plain? ==> |r.rest| >= 2 && r.rest[0] == '<')
            && (IsDeclaration(src) <==> r.node.Declaration?)
    decreases |s|, 0
  {
    hide *;
    NodeCases(s, depth);
    var gap := Skipped(s);
    var t, r := SkipWhiteSpace(s), ParseNode(s, depth);
    if ParseMarkup(t).Markup? {
      var kind, raw := MarkupSound(t);
      src := Marked(gap, kind, raw);
      MarkedIs(gap, kind, raw, r.rest, depth);
    } else if t[0] == '<' {
      src := ElementSound(gap, t[1..], depth);
    } else {
      var raw := PlainSound(s);
      src := Plain(raw);
      PlainIs(raw, r.rest, depth);
    }
  }

  lemma MarkedIs(gap: string, kind: Kind, raw: string, rest: string, depth: nat)
    requires Blank(gap) && LegalMark(kind, raw) && depth < MAX_ELEMENT_DEPTH
    ensures var src := Marked(gap, kind, raw);
            && LegalSource(src) && SourceText(src, rest) == gap + (Header(kind) + (raw + (Footer(kind) + rest)))
            && Meant(src) == MeantMarkup(kind, Decoded(raw, COMMENT)) && depth + Depth(src) < MAX_ELEMENT_DEPTH
            && (IsDeclaration(src) <==> Meant(src).Declaration?)
  {
    hide LegalMark, Blank, Decoded;
  }

  lemma PlainIs(raw: string, rest: string, depth: nat)
    requires !Blank(raw) && '<' !in raw && depth < MAX_ELEMENT_DEPTH
    ensures var src := Plain(raw);
            && LegalSource(src) && SourceText(src, rest) == raw + rest && Meant(src) == Text(Decoded(raw, TEXT_ELEMENT), false)
            && depth + Depth(src) < MAX_ELEMENT_DEPTH && !IsDeclaration(src)
  {
    hide Blank, Decoded;
  }

  lemma {:induction false} ElementSound(gap: string, s: string, depth: nat) returns (src: Source)
    requires Blank(gap) && ParseElement(s, depth).OneNode? && 1 <= depth < MAX_ELEMENT_DEPTH
    ensures var r := ParseElement(s, depth);
            && LegalSource(src) && gap + ("<" + s) == SourceText(src, r.rest) && Meant(src) == r.node
            && depth + Depth(src) < MAX_ELEMENT_DEPTH && !src.Plain? && !IsDeclaration(src) && !r.node.Declaration?
    decreases |s|, 2
  {
    hide *;
    ElementCases(s, depth);
    var tag, r := ParseTag(s), ParseElement(s, depth);
    var inner, slash, attrs, last := TagSound(s);
    if tag.closing == Closed {
      src := Void(gap, inner, slash, tag.name, attrs, last);
      VoidIs(src, r.rest, depth);
    } else {
      var below := ParseSiblings(tag.rest, depth + 1, []);
      var srcs, end := SiblingsSound(tag.rest, depth + 1, []);
      src := Tagged(gap, inner, tag.name, attrs, last, srcs, end);
      NotDeclared(srcs, depth + 1);
      assert [] + MeantAll(srcs) == MeantAll(srcs);
      TaggedIs(src, r.rest, depth);
    }
  }

  lemma VoidIs(src: Source, rest: string, depth: nat)
    requires src.Void? && Blank(src.gap) && LegalTag(src.inner, src.name, src.attrs, src.last) && depth < MAX_ELEMENT_DEPTH
    ensures LegalSource(src) && Meant(src) == Element(src.name, MeantAttrs(src.attrs), []) && depth + Depth(src) < MAX_ELEMENT_DEPTH
    ensures SourceText(src, rest) == src.gap + ("<" + TagText(src.inner, src.slash, src.name, src.attrs, src.last + ("/>" + rest)))
    ensures !IsDeclaration(src)
  {
    hide Blank, LegalTag, TagText, MeantAttrs;
  }

  lemma TaggedIs(src: Source, rest: string, depth: nat)
    requires src.Tagged? && Blank(src.gap) && LegalTag(src.inner, src.name, src.attrs, src.last)
    requires LegalSources(src.kids, src.end.gap) && NoDeclarations(src.kids)
    requires Blank(src.end.gap) && LegalTag(src.end.inner, src.name, src.end.attrs, src.end.last)
    requires depth + 1 + DepthOf(src.kids) < MAX_ELEMENT_DEPTH
    ensures LegalSource(src) && Meant(src) == Element(src.name, MeantAttrs(src.attrs), MeantAll(src.kids))
    ensures depth + Depth(src) < MAX_ELEMENT_DEPTH && !IsDeclaration(src)
    ensures SourceText(src, rest)
         == src.gap + ("<" + TagText(src.inner, false, src.name, src.attrs,
                                     src.last + (">" + SourcesText(src.kids, EndText(src.end, src.name, rest)))))
  {
    hide Blank, LegalTag, TagText, MeantAttrs, LegalSources, NoDeclarations, EndText, SourcesText, MeantAll;
  }

  lemma EndSound(s: string, depth: nat) returns (end: End)
    requires ParseNode(s, depth).EndTag?
    ensures var r := ParseNode(s, depth);
            && s == EndText(end, r.name, r.rest) && Blank(end.gap) && LegalTag(end.inner, r.name, end.attrs, end.last)
  {
    hide *;
    NodeCases(s, depth);
    var gap := Skipped(s);
    var t := SkipWhiteSpace(s);
    PlainIsNoTag(s);
    ElementCases(t[1..], depth);
    var inner, slash, attrs, last := TagSound(t[1..]);
    end := End(gap, inner, attrs, last);
    EndIs(end, ParseTag(t[1..]).name, ParseTag(t[1..]).rest);
  }

  lemma PlainIsNoTag(s: string)
    ensures SkipWhiteSpace(s) != [] && SkipWhiteSpace(s)[0] != '<' ==> !ParsePlain(s).EndTag?
  {
  }

  lemma EndIs(end: End, name: string, rest: string)
    ensures EndText(end, name, rest) == end.gap + ("<" + TagText(end.inner, true, name, end.attrs, end.last + (">" + rest)))
  {
  }

  /** Where declarations are among the siblings read before and these. */
  ghost predicate Declared(srcs: seq<Source>, depth: nat, nodes: seq<Node>) {
    forall i :: 0 <= i < |srcs| && IsDeclaration(srcs[i]) ==> depth == 1 && OnlyDeclarations(nodes + MeantAll(srcs)[..i])
  }

  lemma NotDeclared(srcs: seq<Source>, depth: nat)
    requires Declared(srcs, depth, []) && depth > 1
    ensures NoDeclarations(srcs)
  {
  }

  /** The siblings, and what ends them: the end of the text, whose white space is the end's gap, or an end tag. */
  lemma {:induction false} SiblingsSound(s: string, depth: nat, nodes: seq<Node>) returns (srcs: seq<Source>, end: End)
    requires !ParseSiblings(s, depth, nodes).Failed? && depth >= 1
    ensures var r := ParseSiblings(s, depth, nodes);
            && r.nodes == nodes + MeantAll(srcs)
            && s == SourcesText(srcs, if r.AtEnd? then end.gap else EndText(end, r.tag, r.rest))
            && LegalSources(srcs, end.gap) && Blank(end.gap) && Declared(srcs, depth, nodes)
            && depth + DepthOf(srcs) < MAX_ELEMENT_DEPTH
            && (r.ClosedBy? ==> LegalTag(end.inner, r.tag, end.attrs, end.last))
            && (r.AtEnd? && srcs != [] ==> !srcs[|srcs| - 1].Plain?)
    decreases |s|, 1
  {
    hide *;
    SiblingsCases(s, depth, nodes);
    var node, r := ParseNode(s, depth), ParseSiblings(s, depth, nodes);
    if node.EndTag? {
      end := EndSound(s, depth);
      srcs := [];
      NoSources(nodes, end.gap, EndText(end, r.tag, r.rest), depth);
    } else if node == NoNode {
      NothingButBlank(s, depth);
      end := End(s, "", [], "");
      srcs := [];
      NoSources(nodes, s, s, depth);
    } else {
      var src := NodeSound(s, depth);
      var more, last := SiblingsSound(node.rest, depth, nodes + [node.node]);
      srcs, end := [src] + more, last;
      var tail := if r.AtEnd? then end.gap else EndText(end, r.tag, r.rest);
      SourcesGrow(src, more, tail, nodes, depth);
      if src.Plain? {
        GapFirst(end, r);
        FollowsText(more, node.rest, end.gap, tail);
      }
      LegalGrows(src, more, end.gap);
    }
  }

  lemma SourcesGrow(src: Source, more: seq<Source>, tail: string, nodes: seq<Node>, depth: nat)
    requires Declared(more, depth, nodes + [Meant(src)]) && (IsDeclaration(src) ==> depth == 1 && OnlyDeclarations(nodes))
    requires depth + DepthOf(more) < MAX_ELEMENT_DEPTH && depth + Depth(src) < MAX_ELEMENT_DEPTH
    ensures var srcs := [src] + more;
            && SourcesText(srcs, tail) == SourceText(src, SourcesText(more, tail))
            && nodes + [Meant(src)] + MeantAll(more) == nodes + MeantAll(srcs)
            && Declared(srcs, depth, nodes) && depth + DepthOf(srcs) < MAX_ELEMENT_DEPTH
  {
    TextGrows(src, more, tail);
    MeantGrows(src, more);
    hide *;
    var srcs := [src] + more;
    assert nodes + [Meant(src)] + MeantAll(more) == nodes + ([Meant(src)] + MeantAll(more));
    DeclaredMore(src, more, nodes, depth);
  }

  lemma TextGrows(src: Source, more: seq<Source>, tail: string)
    ensures var srcs := [src] + more;
            && SourcesText(srcs, tail) == SourceText(src, SourcesText(more, tail))
            && DepthOf(srcs) == if Depth(src) > DepthOf(more) then Depth(src) else DepthOf(more)
  {
    hide SourceText, Depth;
    assert ([src] + more)[1..] == more;
  }

  lemma MeantGrows(src: Source, more: seq<Source>)
    ensures MeantAll([src] + more) == [Meant(src)] + MeantAll(more)
  {
    hide Meant;
    assert ([src] + more)[1..] == more;
  }

  lemma {:induction false} MeantAt(srcs: seq<Source>, i: nat)
    requires i < |srcs|
    ensures MeantAll(srcs)[i] == Meant(srcs[i])
  {
    hide Meant;
    if i > 0 {
      MeantAt(srcs[1..], i - 1);
    }
  }

  lemma DeclaredMore(src: Source, more: seq<Source>, nodes: seq<Node>, depth: nat)
    requires Declared(more, depth, nodes + [Meant(src)]) && (IsDeclaration(src) ==> depth == 1 && OnlyDeclarations(nodes))
    ensures Declared([src] + more, depth, nodes)
  {
    MeantGrows(src, more);
    hide Meant, MeantAll, IsDeclaration, OnlyDeclarations;
    var srcs := [src] + more;
    forall i | 0 <= i < |srcs| && IsDeclaration(srcs[i]) ensures depth == 1 && OnlyDeclarations(nodes + MeantAll(srcs)[..i]) {
      if i == 0 {
        assert nodes + MeantAll(srcs)[..0] == nodes;
      } else {
        assert srcs[i] == more[i - 1];
        assert nodes + MeantAll(srcs)[..i] == nodes + [Meant(src)] + MeantAll(more)[..i - 1];
      }
    }
  }

  lemma LegalGrows(src: Source, more: seq<Source>, gap: string)
    requires LegalSource(src) && LegalSources(more, gap) && (src.Plain? ==> NextGap(more, gap) == "")
    ensures LegalSources([src] + more, gap)
  {
    hide LegalSource, NextGap;
    assert ([src] + more)[1..] == more;
  }

  lemma GapFirst(end: End, r: Siblings)
    ensures end.gap <= if r.AtEnd? then end.gap else EndText(end, if r.ClosedBy? then r.tag else "", if r.ClosedBy? then r.rest else "")
  {
  }

  /** What follows a text begins with '<', so nothing stands before it. */
  lemma FollowsText(more: seq<Source>, text: string, gap: string, tail: string)
    requires text == SourcesText(more, tail) && text != [] && text[0] == '<'
    requires LegalSources(more, gap) && gap <= tail && Blank(gap)
    ensures NextGap(more, gap) == "" && (tail == gap ==> more != [])
  {
    hide Blank, LegalSource, SourceText;
    GapStart(gap, tail);
    if more != [] {
      SourceStart(more[0], SourcesText(more[1..], tail));
    }
  }

  lemma GapStart(gap: string, tail: string)
    requires gap <= tail && Blank(gap)
    ensures gap != "" ==> IsWhiteSpace(tail[0])
  {
  }

  lemma SourceStart(src: Source, rest: string)
    requires LegalSource(src)
    ensures var text := SourceText(src, rest);
            && text != [] && (src.Plain? ==> text[0] != '<') && (!src.Plain? && src.gap != "" ==> IsWhiteSpace(text[0]))
  {
    hide TagText, SourcesText, EndText, LegalSources, LegalTag, LegalMark;
    var text := SourceText(src, rest);
    match src {
      case Plain(raw) => assert text[0] == raw[0] && raw[0] in raw;
      case Marked(gap, kind, raw) =>
        assert text[0] == if gap != "" then gap[0] else '<';
      case Void(gap, _, _, _, _, _) =>
        assert text[0] == if gap != "" then gap[0] else '<';
      case Tagged(gap, _, _, _, _, _, _) =>
        assert text[0] == if gap != "" then gap[0] else '<';
    }
  }

  lemma NoSources(nodes: seq<Node>, gap: string, rest: string, depth: nat)
    requires depth < MAX_ELEMENT_DEPTH
    ensures nodes + MeantAll([]) == nodes && SourcesText([], rest) == rest && LegalSources([], gap)
    ensures Declared([], depth, nodes) && depth + DepthOf([]) < MAX_ELEMENT_DEPTH
  {
  }

  lemma NothingButBlank(s: string, depth: nat)
    requires ParseNode(s, depth) == NoNode
    ensures Blank(s)
  {
    hide SkipWhiteSpace, ParseMarkup, ParseElement, ParsePlain;
    ElementIsSomething(SkipWhiteSpace(s), depth);
    PlainIsSomething(s);
    var w := Skipped(s);
    assert w + [] == w;
  }

  lemma ElementIsSomething(t: string, depth: nat)
    ensures t != [] ==> ParseElement(t[1..], depth) != NoNode
  {
    hide ParseTag, ParseSiblings;
  }

  lemma PlainIsSomething(s: string)
    ensures SkipWhiteSpace(s) != [] && SkipWhiteSpace(s)[0] != '<' ==> ParsePlain(s) != NoNode
  {
  }

  // ---------- documents ----------

  lemma {:induction false} DeclaredFirst(srcs: seq<Source>, j: nat)
    requires Declared(srcs, 1, []) && j < |srcs| && IsDeclaration(srcs[j])
    ensures forall i :: 0 <= i < j ==> IsDeclaration(srcs[i])
  {
    var nodes := MeantAll(srcs);
    assert [] + nodes[..j] == nodes[..j];
    if j > 0 {
      MeantAt(srcs, j - 1);
      assert nodes[..j][j - 1] == nodes[j - 1];
      DeclaredFirst(srcs, j - 1);
    }
  }

  /** What is accepted is a text of what is read. */
  lemma ParseSound(input: string)
    requires Parse(input).Parsed?
    ensures Denotes(input, Parse(input).nodes)
  {
    assert |BOM| == 3;
    hide *;
    ParseParts(input);
    var c := CString(input);
    var gap := Skipped(c);
    var s := SkipWhiteSpace(c);
    var mark := if BOM <= s then BOM else "";
    var t := if BOM <= s then s[3..] else s;
    MarkFirst(s);
    var srcs, end := SiblingsSound(t, 1, []);
    var r := ParseSiblings(t, 1, []);
    assert [] + MeantAll(srcs) == MeantAll(srcs);
    AllDeclaredFirst(srcs);
    BeginsSo(input, gap, mark, t);
    if r.AtEnd? {
      DocumentIs(input, gap, mark, srcs, end.gap);
    } else {
      CutShortIs(input, gap, mark, srcs, end, r.tag, r.rest);
    }
  }

  lemma BeginsSo(input: string, gap: string, mark: string, text: string)
    requires CString(input) == gap + SkipWhiteSpace(CString(input)) && Blank(gap) && text != ""
    requires var s := SkipWhiteSpace(CString(input));
             s == mark + text && mark == (if BOM <= s then BOM else "") && text == if BOM <= s then s[3..] else s
    ensures Begins(input, gap, mark, text)
  {
    hide CString, Blank, IsWhiteSpace;
  }

  lemma MarkFirst(s: string)
    ensures s == if BOM <= s then BOM + s[3..] else "" + s
  {
  }

  lemma ParseParts(input: string)
    requires Parse(input).Parsed?
    ensures var s := SkipWhiteSpace(CString(input));
            var t := if BOM <= s then s[3..] else s;
            var r := ParseSiblings(t, 1, []);
            t != "" && !r.Failed? && Parse(input).nodes == r.nodes
  {
    hide SkipWhiteSpace, CString, ParseSiblings;
  }

  lemma AllDeclaredFirst(srcs: seq<Source>)
    requires Declared(srcs, 1, [])
    ensures DeclarationsFirst(srcs)
  {
    forall i, j | 0 <= i < j < |srcs| && IsDeclaration(srcs[j]) ensures IsDeclaration(srcs[i]) {
      DeclaredFirst(srcs, j);
    }
  }

  lemma DocumentIs(input: string, gap: string, mark: string, srcs: seq<Source>, last: string)
    requires Begins(input, gap, mark, SourcesText(srcs, last))
    requires LegalSources(srcs, last) && DeclarationsFirst(srcs) && Blank(last) && 1 + DepthOf(srcs) < MAX_ELEMENT_DEPTH
    requires srcs != [] ==> !srcs[|srcs| - 1].Plain?
    ensures Denotes(input, MeantAll(srcs))
  {
    hide LegalSources, DeclarationsFirst, Blank, Begins, SourcesText, MeantAll;
    assert IsDocument(input, gap, mark, srcs, last);
  }

  lemma CutShortIs(input: string, gap: string, mark: string, srcs: seq<Source>, end: End, tag: string, rest: string)
    requires Begins(input, gap, mark, SourcesText(srcs, EndText(end, tag, rest)))
    requires LegalSources(srcs, end.gap) && DeclarationsFirst(srcs) && 1 + DepthOf(srcs) < MAX_ELEMENT_DEPTH
    requires Blank(end.gap) && LegalTag(end.inner, tag, end.attrs, end.last)
    ensures Denotes(input, MeantAll(srcs))
  {
    hide LegalSources, DeclarationsFirst, Blank, Begins, SourcesText, EndText, LegalTag, MeantAll;
    assert IsCutShort(input, gap, mark, srcs, end, tag, rest);
  }
}
