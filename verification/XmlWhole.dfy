/** Printing a document and reading it again, through the printer's and the parser's own buffers. */
module XmlWhole {
  import opened XmlText
  import opened XmlGrammar
  import opened XmlRoundTrip
  import opened XmlPrinters
  import opened XmlDocuments

  lemma {:induction false} LegalIsNulFree(node: Node)
    requires Legal(node) || LegalMarkup(node)
    ensures NulFree(node)
    decreases node
  {
    if node.Element? {
      LegalKids(node);
      assert LegalAttributes(node.attributes);
      forall i | 0 <= i < |node.kids| ensures NulFree(node.kids[i]) {
        LegalIsNulFree(node.kids[i]);
      }
    }
  }

  lemma LegalDocumentNodes(declarations: seq<Node>, nodes: seq<Node>, i: nat)
    requires LegalDocument(declarations, nodes) && i < |declarations + nodes|
    ensures Legal((declarations + nodes)[i]) || LegalMarkup((declarations + nodes)[i])
  {
    if i >= |declarations| {
      LegalNodesAt(nodes, i - |declarations|);
    }
  }

  lemma LegalNodesAt(nodes: seq<Node>, i: nat)
    requires LegalNodes(nodes) && i < |nodes|
    ensures Legal(nodes[i])
  {
  }

  /** What is read is what was printed, exactly when it is not too deep. */
  method PrintAndParse(declarations: seq<Node>, nodes: seq<Node>) returns (printed: string, r: Document)
    requires LegalDocument(declarations, nodes) && declarations + nodes != []
    ensures printed == PrintNodes(declarations + nodes)
    ensures r == if 1 + LevelsOf(nodes) < MAX_ELEMENT_DEPTH then Parsed(declarations + nodes)
                 else ParseError(ErrorDepthExceeded)
  {
    hide PrintNodes, PrintNode, Legal, LegalMarkup, LegalDocument, NulFree, CString, XmlGrammar.Parse;
    var doc := declarations + nodes;
    var printer := new XMLPrinter();
    NoNodes();
    for i := 0 to |doc|
      invariant printer.buffer == PrintNodes(doc[..i]) && !printer.elementJustOpened
    {
      LegalDocumentNodes(declarations, nodes, i);
      LegalIsNulFree(doc[i]);
      printer.Accept(doc[i]);
      PrintOneMoreNode(doc, i);
    }
    assert doc[..|doc|] == doc;
    printed := printer.buffer;
    forall i | 0 <= i < |doc| ensures Legal(doc[i]) || LegalMarkup(doc[i]) {
      LegalDocumentNodes(declarations, nodes, i);
    }
    NoNulInNodes(doc);
    ParsePrint(declarations, nodes);
    var document := new XMLDocument(printed);
    var found := document.Parse();
    r := if document.error == None then Parsed(found) else ParseError(document.error.value);
  }
}
