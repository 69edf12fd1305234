/** tinyxml2's XMLPrinter in compact mode, printing into its own buffer. */
module XmlPrinters {
  import opened XmlText
  import opened XmlGrammar

  class XMLPrinter {
    var buffer: string
    var stack: seq<string>
    var elementJustOpened: bool
    var firstElement: bool
    var depth: int
    var textDepth: int

    constructor ()
      ensures buffer == "" && stack == [] && !elementJustOpened && depth == 0
    {
      buffer, stack, elementJustOpened, firstElement, depth, textDepth := "", [], false, true, 0, -1;
    }

    /** The buffer once the tag that is still open has got its '>'. */
    ghost function SealedBuffer(): string
      reads this
    {
      buffer + if elementJustOpened then ">" else ""
    }

    method Write(data: string)
      modifies this`buffer
      ensures buffer == old(buffer) + data
    {
      buffer := buffer + data;
    }

    /** Runs of ordinary characters are flushed as a whole, before each entity and at the end. */
    method PrintString(s: string, restricted: bool)
      modifies this`buffer
      ensures buffer == old(buffer) + Escape(CString(s), restricted)
    {
      hide Escape, EscapeChar;
      var p, q := 0, 0;
      EscapeNothing(restricted);
      while q < |s| && s[q] != NUL
        invariant p <= q <= |s| && NUL !in s[..q]
        invariant buffer + s[p..q] == old(buffer) + Escape(s[..q], restricted)
      {
        EscapeMore(s, q, restricted);
        ghost var before := buffer;
        if NeedsEntity(s[q], restricted) {
          Write(s[p..q]);
          PrintEntity(s[q], restricted);
          p := q + 1;
          assert s[p..p] == "";
          ConcatAssociative(old(buffer), Escape(s[..q], restricted), EscapeChar(s[q], restricted));
        } else {
          PlainChar(s[q], restricted);
          assert s[p..q + 1] == s[p..q] + [s[q]];
          ConcatAssociative(buffer, s[p..q], [s[q]]);
          ConcatAssociative(old(buffer), Escape(s[..q], restricted), [s[q]]);
        }
        q := q + 1;
      }
      CStringEnds(s, q);
      if p < q {
        Write(s[p..q]);
      }
    }

    method PrintEntity(c: char, restricted: bool)
      requires NeedsEntity(c, restricted)
      modifies this`buffer
      ensures buffer == old(buffer) + EscapeChar(c, restricted)
    {
      var i := 0;
      while i < |ENTITIES| && ENTITIES[i].value != c
        invariant i <= TableIndex(c)
      {
        i := i + 1;
      }
      assert i == TableIndex(c);
      Write("&");
      Write(ENTITIES[i].pattern);
      Write(";");
    }

    method SealElementIfJustOpened()
      modifies this`buffer, this`elementJustOpened
      ensures buffer == old(SealedBuffer()) && !elementJustOpened
    {
      if elementJustOpened {
        elementJustOpened := false;
        Write(">");
      }
    }

    method OpenElement(name: string)
      modifies this
      ensures buffer == old(SealedBuffer()) + ("<" + name)
      ensures elementJustOpened && stack == old(stack) + [name] && depth == old(depth) + 1
    {
      SealElementIfJustOpened();
      stack := stack + [name];
      Write("<");
      Write(name);
      elementJustOpened := true;
      firstElement := false;
      depth := depth + 1;
    }

    method PushAttribute(name: string, value: string)
      requires elementJustOpened
      modifies this`buffer
      ensures buffer == old(buffer) + (" " + PrintAttribute(Attribute(name, CString(value))))
    {
      hide Escape, CString;
      AttributePieces(buffer, name, Escape(CString(value), false));
      Write(" ");
      Write(name);
      Write("=\"");
      PrintString(value, false);
      Write("\"");
    }

    method CloseElement()
      requires stack != []
      modifies this
      ensures buffer == old(buffer) + if old(elementJustOpened) then "/>" else "</" + old(stack[|stack| - 1]) + ">"
      ensures !elementJustOpened && stack == old(stack)[..|old(stack)| - 1] && depth == old(depth) - 1
    {
      depth := depth - 1;
      var name := stack[|stack| - 1];
      stack := stack[..|stack| - 1];
      if elementJustOpened {
        Write("/>");
      } else {
        Write("</");
        Write(name);
        Write(">");
      }
      if textDepth == depth {
        textDepth := -1;
      }
      elementJustOpened := false;
    }

    method PushText(text: string, cdata: bool)
      modifies this
      ensures buffer == old(SealedBuffer()) + if cdata then "<![CDATA[" + text + "]]>" else Escape(CString(text), true)
      ensures !elementJustOpened && stack == old(stack) && depth == old(depth)
    {
      textDepth := depth - 1;
      SealElementIfJustOpened();
      if cdata {
        Write("<![CDATA[");
        Write(text);
        Write("]]>");
      } else {
        PrintString(text, true);
      }
    }

    /** Comments, declarations and unknown markup are written between their marks. */
    method PushMarked(header: string, value: string, endTag: string)
      modifies this
      ensures buffer == old(SealedBuffer()) + (header + value + endTag)
      ensures !elementJustOpened && stack == old(stack) && depth == old(depth)
    {
      SealElementIfJustOpened();
      firstElement := false;
      Write(header);
      Write(value);
      Write(endTag);
    }

    /** Visiting a node prints it, after the '>' that its parent's tag may still lack. */
    method Accept(node: Node)
      requires NulFree(node)
      modifies this
      ensures buffer == old(SealedBuffer()) + PrintNode(node)
      ensures !elementJustOpened && stack == old(stack) && depth == old(depth)
      decreases node, 0
    {
      match node {
        case Element(name, attributes, kids) => VisitElement(name, attributes, kids);
        case Text(value, cdata) => PushText(value, cdata);
        case Comment(value) => PushMarked("<!--", value, "-->");
        case Declaration(value) => PushMarked("<?", value, "?>");
        case Unknown(value) => PushMarked("<!", value, ">");
      }
    }

    method VisitElement(name: string, attributes: seq<Attribute>, kids: seq<Node>)
      requires forall i :: 0 <= i < |attributes| ==> NUL !in attributes[i].value
      requires forall i :: 0 <= i < |kids| ==> NulFree(kids[i])
      modifies this
      ensures buffer == old(SealedBuffer()) + PrintNode(Element(name, attributes, kids))
      ensures !elementJustOpened && stack == old(stack) && depth == old(depth)
      decreases kids, 2
    {
      hide PrintAttributes, PrintNodes, NulFree;
      ghost var start := SealedBuffer();
      OpenElement(name);
      VisitAttributes(attributes);
      ghost var tag := "<" + name + PrintAttributes(attributes);
      ConcatAssociative(start, "<" + name, PrintAttributes(attributes));
      VisitKids(kids);
      CloseElement();
      if kids == [] {
        ConcatAssociative(start, tag, "/>");
      } else {
        Contents(start, tag, PrintNodes(kids), "</" + name + ">");
      }
    }

    method VisitAttributes(attributes: seq<Attribute>)
      requires elementJustOpened && forall i :: 0 <= i < |attributes| ==> NUL !in attributes[i].value
      modifies this`buffer
      ensures buffer == old(buffer) + PrintAttributes(attributes)
    {
      hide PrintAttributes, PrintAttribute;
      var i := 0;
      PrintNoAttributes();
      while i < |attributes|
        invariant i <= |attributes|
        invariant buffer == old(buffer) + PrintAttributes(attributes[..i])
      {
        PushAttribute(attributes[i].name, attributes[i].value);
        PrintOneMore(attributes, i);
        ConcatAssociative(old(buffer), PrintAttributes(attributes[..i]), " " + PrintAttribute(attributes[i]));
        i := i + 1;
      }
      assert attributes[..i] == attributes;
    }

    method VisitKids(kids: seq<Node>)
      requires forall i :: 0 <= i < |kids| ==> NulFree(kids[i])
      modifies this
      ensures if kids == [] then buffer == old(buffer) && elementJustOpened == old(elementJustOpened)
              else buffer == old(SealedBuffer()) + PrintNodes(kids) && !elementJustOpened
      ensures stack == old(stack) && depth == old(depth)
      decreases kids, 1
    {
      for i := 0 to |kids|
        invariant if i == 0 then buffer == old(buffer) && elementJustOpened == old(elementJustOpened)
                  else buffer == old(SealedBuffer()) + PrintNodes(kids[..i]) && !elementJustOpened
        invariant stack == old(stack) && depth == old(depth)
      {
        Accept(kids[i]);
        PrintOneMoreNode(kids, i);
        ConcatAssociative(old(SealedBuffer()), PrintNodes(kids[..i]), PrintNode(kids[i]));
      }
      assert kids[..|kids|] == kids;
    }
  }

  /** The values are C strings. */
  predicate NulFree(node: Node)
    decreases node
  {
    match node
    case Element(_, attributes, kids) =>
      && (forall i :: 0 <= i < |attributes| ==> NUL !in attributes[i].value)
      && (forall i :: 0 <= i < |kids| ==> NulFree(kids[i]))
    case Text(value, _) => NUL !in value
    case Comment(_) => true
    case Declaration(_) => true
    case Unknown(_) => true
  }

  lemma ConcatAssociative(a: string, b: string, c: string)
    ensures a + b + c == a + (b + c)
  {
  }

  lemma EscapeNothing(restricted: bool)
    ensures Escape("", restricted) == ""
  {
  }

  lemma PlainChar(c: char, restricted: bool)
    requires !NeedsEntity(c, restricted)
    ensures EscapeChar(c, restricted) == [c]
  {
  }

  lemma EscapeMore(s: string, q: nat, restricted: bool)
    requires q < |s|
    ensures Escape(s[..q + 1], restricted) == Escape(s[..q], restricted) + EscapeChar(s[q], restricted)
  {
    assert s[..q + 1][..q] == s[..q];
  }

  lemma {:induction false} CStringEnds(s: string, q: nat)
    requires q <= |s| && NUL !in s[..q] && (q < |s| ==> s[q] == NUL)
    ensures CString(s) == s[..q]
  {
    if q > 0 {
      assert s[0] in s[..q];
      assert s[1..][..q - 1] == s[..q][1..];
      CStringEnds(s[1..], q - 1);
    }
  }

  lemma Contents(start: string, tag: string, kids: string, end: string)
    ensures start + tag + ">" + kids + end == start + (tag + (">" + kids + end))
  {
  }

  lemma AttributePieces(b: string, name: string, e: string)
    ensures b + " " + name + "=\"" + e + "\"" == b + (" " + (name + "=\"" + e + "\""))
  {
  }

  lemma PrintNoAttributes()
    ensures PrintAttributes([]) == ""
  {
  }

  lemma {:induction false} PrintOneMore(attributes: seq<Attribute>, i: nat)
    requires i < |attributes|
    ensures PrintAttributes(attributes[..i + 1]) == PrintAttributes(attributes[..i]) + (" " + PrintAttribute(attributes[i]))
    decreases i
  {
    hide PrintAttribute;
    if i == 0 {
      assert attributes[..1] == [attributes[0]] && attributes[..0] == [];
    } else {
      PrintOneMore(attributes[1..], i - 1);
      assert attributes[..i + 1][1..] == attributes[1..][..i] && attributes[..i][1..] == attributes[1..][..i - 1];
    }
  }

  lemma {:induction false} PrintOneMoreNode(nodes: seq<Node>, i: nat)
    requires i < |nodes|
    ensures PrintNodes(nodes[..i + 1]) == PrintNodes(nodes[..i]) + PrintNode(nodes[i])
    decreases i
  {
    hide PrintNode;
    if i == 0 {
      assert nodes[..1] == [nodes[0]] && nodes[..0] == [];
    } else {
      PrintOneMoreNode(nodes[1..], i - 1);
      assert nodes[..i + 1][1..] == nodes[1..][..i] && nodes[..i][1..] == nodes[1..][..i - 1];
    }
  }
}
