/**
 What the three ring renderers write, as functions of the ring's nodes in
 successor order (each node given by its class and its name).

 Every node contributes one fragment chosen by its class; the plain renderer
 follows each with " -> " and ends with " ... ", the HTML renderer wraps each
 in a list item inside a fixed page, and the XML renderer puts each on its
 own line inside a `<network>` element.
 */
module Renderings {
  import opened NodeTypes
  import opened Wrappers
  import opened Markup
  import opened JavaStrings

  /** One ring node as the renderers see it: the class it was built as, and its name. */
  datatype NodeInfo = NodeInfo(kind: NodeType, name: string)

  /** The word that names a class in the plain and HTML fragments. */
  function KindLabel(kind: NodeType): string
  {
    match kind
    case Node => "Node"
    case WorkStation => "Workstation"
    case Printer => "Printer"
  }

  /** The XML element that stands for a class. */
  function ElementName(kind: NodeType): string
  {
    match kind
    case Node => "node"
    case WorkStation => "workstation"
    case Printer => "printer"
  }

  /** `appendElement` of each class: the class word, the name, the class word in brackets. */
  function PlainFragment(kind: NodeType, name: string): string
  {
    match kind
    case Node => "Node " + name + " [Node]"
    case WorkStation => "Workstation " + name + " [Workstation]"
    case Printer => "Printer " + name + " [Printer]"
  }

  /** `appendElementHTML` of each class: the same text as the plain fragment. */
  function HtmlFragment(kind: NodeType, name: string): (r: string)
    ensures r == PlainFragment(kind, name)
  {
    match kind
    case Node => "Node " + name + " [Node]"
    case WorkStation => "Workstation " + name + " [Workstation]"
    case Printer => "Printer " + name + " [Printer]"
  }

  /** `appendElementXML` of each class: the name as the text of the class's element. */
  function XmlFragment(kind: NodeType, name: string): string
  {
    match kind
    case Node => "<node>" + name + "</node>"
    case WorkStation => "<workstation>" + name + "</workstation>"
    case Printer => "<printer>" + name + "</printer>"
  }

  /** Every plain fragment is the class word, the name, and the class word in brackets. */
  lemma PlainFragmentShape(kind: NodeType, name: string)
    ensures PlainFragment(kind, name) == KindLabel(kind) + " " + name + " [" + KindLabel(kind) + "]"
  {
  }

  /** Every XML fragment is one element of the class, holding the name as its text. */
  lemma XmlFragmentShape(kind: NodeType, name: string)
    ensures XmlFragment(kind, name) == OpenTag(ElementName(kind)) + name + CloseTag(ElementName(kind))
  {
    match kind
    case Node =>
      assert OpenTag("node") == "<node>" && CloseTag("node") == "</node>";
    case WorkStation =>
      assert OpenTag("workstation") == "<workstation>" && CloseTag("workstation") == "</workstation>";
    case Printer =>
      assert OpenTag("printer") == "<printer>" && CloseTag("printer") == "</printer>";
  }

  // ---------------------------------------------------------------- items in ring order

  /**
   The texts `item` gives the nodes of `lap`, concatenated in order: each
   renderer appends one such item per node as its loop visits the ring.
   */
  function Joined(lap: seq<NodeInfo>, item: NodeInfo -> string): string
  {
    if lap == [] then "" else Joined(lap[..|lap| - 1], item) + item(lap[|lap| - 1])
  }

  /** The items of two consecutive stretches of the ring are the items of the whole stretch. */
  lemma {:induction false} JoinedAppend(xs: seq<NodeInfo>, ys: seq<NodeInfo>, item: NodeInfo -> string)
    ensures Joined(xs + ys, item) == Joined(xs, item) + Joined(ys, item)
    decreases |ys|
  {
    if ys == [] {
      assert xs + ys == xs;
    } else {
      var init, last := ys[..|ys| - 1], ys[|ys| - 1];
      assert (xs + ys)[..|xs + ys| - 1] == xs + init;
      JoinedAppend(xs, init, item);
      AppendAssoc3(Joined(xs, item), Joined(init, item), item(last));
    }
  }

  /** Three nodes' items, written out. */
  lemma JoinedThree(x: NodeInfo, y: NodeInfo, z: NodeInfo, item: NodeInfo -> string)
    ensures Joined([x, y, z], item) == item(x) + item(y) + item(z)
  {
    assert [x, y, z][..2] == [x, y];
    assert [x, y][..1] == [x];
    assert [x][..0] == [];
    assert Joined([x], item) == item(x);
    assert Joined([x, y], item) == item(x) + item(y);
  }

  /** A node's item occupies its own stretch of the text, right after those of its predecessors. */
  lemma JoinedAt(lap: seq<NodeInfo>, i: nat, item: NodeInfo -> string)
    requires i < |lap|
    ensures Joined(lap, item) == Joined(lap[..i], item) + item(lap[i]) + Joined(lap[i + 1..], item)
  {
    var head := lap[..i + 1];
    assert lap == head + lap[i + 1..];
    JoinedAppend(head, lap[i + 1..], item);
    assert head[..i] == lap[..i];
  }

  // ---------------------------------------------------------------- plain text

  const PlainSeparator := " -> "
  const PlainTrailer := " ... "

  /** One node's share of the plain text: its fragment and the separator. */
  function PlainItem(x: NodeInfo): string
  {
    PlainFragment(x.kind, x.name) + PlainSeparator
  }

  /** Appending a node's fragment and then the separator appends its item. */
  lemma PlainItemAppended(done: string, x: NodeInfo)
    ensures (done + PlainFragment(x.kind, x.name)) + PlainSeparator == done + PlainItem(x)
  {
    AppendAssoc3(done, PlainFragment(x.kind, x.name), PlainSeparator);
  }

  /** What `printOn` appends for a ring whose nodes, from the start node on, are `lap`. */
  function PlainText(lap: seq<NodeInfo>): string
  {
    Joined(lap, PlainItem) + PlainTrailer
  }

  // ---------------------------------------------------------------- HTML

  // The page text is one literal in the renderer; it is written here line by
  // line so that proofs about it can take it apart without comparing long
  // strings character by character.
  const HtmlHeader := "<HTML>" + "\n<HEAD>" + "\n<TITLE>LAN Simulation</TITLE>" + "\n</HEAD>" + "\n<BODY>" + "\n<H1>LAN SIMULATION</H1>"
  const HtmlListOpen := "\n\n<UL>"
  const HtmlFooter := "\n\t<LI>...</LI>" + "\n</UL>" + "\n\n</BODY>" + "\n</HTML>" + "\n"

  /** One list item per node. */
  function HtmlItem(x: NodeInfo): string
  {
    "\n\t<LI> " + HtmlFragment(x.kind, x.name) + " </LI>"
  }

  /** Appending the list-item opening, a node's fragment and the list-item closing appends its item. */
  lemma HtmlItemAppended(done: string, x: NodeInfo)
    ensures ((done + "\n\t<LI> ") + HtmlFragment(x.kind, x.name)) + " </LI>" == done + HtmlItem(x)
  {
    AppendAssoc(done, "\n\t<LI> ", HtmlFragment(x.kind, x.name), " </LI>");
  }

  /** What `printHTMLOn` appends for a ring whose nodes, from the start node on, are `lap`. */
  function HtmlPage(lap: seq<NodeInfo>): string
  {
    HtmlHeader + HtmlListOpen + Joined(lap, HtmlItem) + HtmlFooter
  }

  /** The page appended piece by piece to text `o`. */
  lemma HtmlPageAppended(o: string, lap: seq<NodeInfo>)
    ensures (((o + HtmlHeader) + HtmlListOpen) + Joined(lap, HtmlItem)) + HtmlFooter == o + HtmlPage(lap)
  {
    AppendAssoc5(o, HtmlHeader, HtmlListOpen, Joined(lap, HtmlItem), HtmlFooter);
  }

  // ---------------------------------------------------------------- XML

  const XmlDeclaration := "<?xml version=\"1.0\" encoding=\"UTF-8\"?>"
  const XmlHeader := XmlDeclaration + "\n\n<network>"
  const XmlFooter := "\n</network>"

  /** One line per node. */
  function XmlItem(x: NodeInfo): string
  {
    "\n\t" + XmlFragment(x.kind, x.name)
  }

  /** Appending the line break and a node's fragment appends its item. */
  lemma XmlItemAppended(done: string, x: NodeInfo)
    ensures (done + "\n\t") + XmlFragment(x.kind, x.name) == done + XmlItem(x)
  {
    AppendAssoc3(done, "\n\t", XmlFragment(x.kind, x.name));
  }

  /** What `printXMLOn` appends for a ring whose nodes, from the start node on, are `lap`. */
  function XmlDocument(lap: seq<NodeInfo>): string
  {
    XmlHeader + Joined(lap, XmlItem) + XmlFooter
  }

  /** The document appended piece by piece to text `o`. */
  lemma XmlDocumentAppended(o: string, lap: seq<NodeInfo>)
    ensures ((o + XmlHeader) + Joined(lap, XmlItem)) + XmlFooter == o + XmlDocument(lap)
  {
    AppendAssoc(o, XmlHeader, Joined(lap, XmlItem), XmlFooter);
  }

  // ---------------------------------------------------------------- well-tagged output

  /** No node name contains markup. */
  predicate MarkupFreeNames(lap: seq<NodeInfo>)
  {
    forall i :: 0 <= i < |lap| ==> '<' !in lap[i].name
  }

  lemma ElementNamesArePlain(kind: NodeType)
    ensures PlainName(ElementName(kind))
  {
    match kind
    case Node => assert ElementName(kind) == "node";
    case WorkStation => assert ElementName(kind) == "workstation";
    case Printer => assert ElementName(kind) == "printer";
  }

  /** Every class's XML fragment is one element, closed where it is opened. */
  lemma XmlFragmentBalanced(kind: NodeType, name: string)
    requires '<' !in name
    ensures WellTagged(XmlFragment(kind, name))
  {
    XmlFragmentShape(kind, name);
    ElementNamesArePlain(kind);
    ScanElement(ElementName(kind), name, []);
  }

  /** A node's XML line holds one element, closed on the same line. */
  lemma XmlItemBalanced(x: NodeInfo, open: seq<string>)
    requires '<' !in x.name
    ensures Scan(XmlItem(x), open) == Some(open)
  {
    ScanText("\n\t", open);
    XmlFragmentShape(x.kind, x.name);
    ElementNamesArePlain(x.kind);
    ScanElement(ElementName(x.kind), x.name, open);
    ScanThen("\n\t", XmlFragment(x.kind, x.name), open, open, open);
  }

  /** Each node's XML element is closed before the next one begins. */
  lemma {:induction false} XmlItemsBalanced(lap: seq<NodeInfo>, open: seq<string>)
    requires MarkupFreeNames(lap)
    ensures Scan(Joined(lap, XmlItem), open) == Some(open)
    decreases |lap|
  {
    if lap != [] {
      var init, last := lap[..|lap| - 1], lap[|lap| - 1];
      assert '<' !in last.name;
      XmlItemsBalanced(init, open);
      XmlItemBalanced(last, open);
      ScanThen(Joined(init, XmlItem), XmlItem(last), open, open, open);
    }
  }

  /** The declaration is `<?...>` around text without `>`. */
  lemma XmlDeclarationParts()
    ensures XmlDeclaration == "<" + "?xml version=\"1.0\" encoding=\"UTF-8\"?" + ">"
  {
  }

  /** The declaration opens no element. */
  lemma XmlDeclarationScanned(open: seq<string>)
    ensures Scan(XmlDeclaration, open) == Some(open)
  {
    var body := "?xml version=\"1.0\" encoding=\"UTF-8\"?";
    assert '>' !in body;
    assert "?" <= body;
    XmlDeclarationParts();
    ScanDeclaration(body, open);
  }

  /** After a blank line, `<network>` opens. */
  lemma XmlNetworkOpened(open: seq<string>)
    ensures Scan("\n\n<network>", open) == Some(open + ["network"])
  {
    assert "\n\n<network>" == "\n\n" + OpenTag("network");
    ScanTextOpen("\n\n", "network", open);
  }

  /** The XML prologue: a declaration, a blank line, and the opening `<network>` tag. */
  lemma XmlHeaderOpensNetwork(open: seq<string>)
    ensures Scan(XmlHeader, open) == Some(open + ["network"])
  {
    XmlDeclarationScanned(open);
    XmlNetworkOpened(open);
    ScanThen(XmlDeclaration, "\n\n<network>", open, open, open + ["network"]);
  }

  /** The XML epilogue closes `<network>`. */
  lemma XmlFooterClosesNetwork(open: seq<string>)
    ensures Scan(XmlFooter, open + ["network"]) == Some(open)
  {
    assert XmlFooter == "\n" + CloseTag("network");
    ScanTextClose("\n", "network", open);
  }

  /** The XML document is well tagged for every ring whose node names hold no markup. */
  lemma XmlDocumentWellTagged(lap: seq<NodeInfo>)
    requires MarkupFreeNames(lap)
    ensures WellTagged(XmlDocument(lap))
  {
    var inNetwork := [] + ["network"];
    XmlHeaderOpensNetwork([]);
    XmlItemsBalanced(lap, inNetwork);
    ScanThen(XmlHeader, Joined(lap, XmlItem), [], inNetwork, inNetwork);
    XmlFooterClosesNetwork([]);
    ScanThen(XmlHeader + Joined(lap, XmlItem), XmlFooter, [], inNetwork, []);
  }

  /** Class words hold no markup, so a fragment holds markup only where its name does. */
  lemma PlainFragmentMarkupFree(kind: NodeType, name: string)
    requires '<' !in name
    ensures '<' !in PlainFragment(kind, name)
  {
    PlainFragmentShape(kind, name);
    var word := KindLabel(kind);
    assert '<' !in word by {
      match kind
      case Node => assert word == "Node";
      case WorkStation => assert word == "Workstation";
      case Printer => assert word == "Printer";
    }
  }

  /** A list item written around any text, taken apart into tags and text. */
  lemma HtmlItemParts(f: string)
    ensures "\n\t<LI> " + f + " </LI>" == "\n\t" + OpenTag("LI") + (" " + f + " ") + CloseTag("LI")
  {
    assert OpenTag("LI") == "<LI>";
    assert CloseTag("LI") == "</LI>";
  }

  /** A list item around text without markup is closed where it ends. */
  lemma ListItemBalanced(f: string, open: seq<string>)
    requires '<' !in f
    ensures Scan("\n\t<LI> " + f + " </LI>", open) == Some(open)
  {
    var text := " " + f + " ";
    assert '<' !in text;
    HtmlItemParts(f);
    AppendAssoc("\n\t", OpenTag("LI"), text, CloseTag("LI"));
    ScanTextElement("\n\t", "LI", text, open);
  }

  /** A node's list item opens and closes `<LI>` around its fragment. */
  lemma HtmlItemBalanced(x: NodeInfo, open: seq<string>)
    requires '<' !in x.name
    ensures Scan(HtmlItem(x), open) == Some(open)
  {
    PlainFragmentMarkupFree(x.kind, x.name);
    ListItemBalanced(HtmlFragment(x.kind, x.name), open);
  }

  lemma {:induction false} HtmlItemsBalanced(lap: seq<NodeInfo>, open: seq<string>)
    requires MarkupFreeNames(lap)
    ensures Scan(Joined(lap, HtmlItem), open) == Some(open)
    decreases |lap|
  {
    if lap != [] {
      var init, last := lap[..|lap| - 1], lap[|lap| - 1];
      assert '<' !in last.name;
      HtmlItemsBalanced(init, open);
      HtmlItemBalanced(last, open);
      ScanThen(Joined(init, HtmlItem), HtmlItem(last), open, open, open);
    }
  }

  lemma HtmlTitleParts()
    ensures "\n<TITLE>LAN Simulation</TITLE>" == "\n" + (OpenTag("TITLE") + "LAN Simulation" + CloseTag("TITLE"))
  {
  }

  lemma HtmlHeadingParts()
    ensures "\n<H1>LAN SIMULATION</H1>" == "\n" + (OpenTag("H1") + "LAN SIMULATION" + CloseTag("H1"))
  {
  }

  /** The page opens `<HTML>`, then `<HEAD>`. */
  lemma HtmlHeadOpened(open: seq<string>)
    ensures Scan("<HTML>" + "\n<HEAD>", open) == Some(open + ["HTML"] + ["HEAD"])
  {
    assert "<HTML>" == [] + OpenTag("HTML");
    assert "\n<HEAD>" == "\n" + OpenTag("HEAD");
    ScanTextOpen([], "HTML", open);
    ScanTextOpen("\n", "HEAD", open + ["HTML"]);
    ScanThen("<HTML>", "\n<HEAD>", open, open + ["HTML"], open + ["HTML"] + ["HEAD"]);
  }

  /** The head holds the title and is closed again. */
  lemma HtmlHeadClosed(open: seq<string>)
    ensures Scan("\n<TITLE>LAN Simulation</TITLE>" + "\n</HEAD>", open + ["HEAD"]) == Some(open)
  {
    HtmlTitleParts();
    ScanTextElement("\n", "TITLE", "LAN Simulation", open + ["HEAD"]);
    assert "\n</HEAD>" == "\n" + CloseTag("HEAD");
    ScanTextClose("\n", "HEAD", open);
    ScanThen("\n<TITLE>LAN Simulation</TITLE>", "\n</HEAD>", open + ["HEAD"], open + ["HEAD"], open);
  }

  /** Then `<BODY>` opens, and the heading inside it is closed. */
  lemma HtmlBodyOpened(open: seq<string>)
    ensures Scan("\n<BODY>" + "\n<H1>LAN SIMULATION</H1>", open) == Some(open + ["BODY"])
  {
    assert "\n<BODY>" == "\n" + OpenTag("BODY");
    ScanTextOpen("\n", "BODY", open);
    HtmlHeadingParts();
    ScanTextElement("\n", "H1", "LAN SIMULATION", open + ["BODY"]);
    ScanThen("\n<BODY>", "\n<H1>LAN SIMULATION</H1>", open, open + ["BODY"], open + ["BODY"]);
  }

  /** The page head: `<HTML>` and `<BODY>` stay open, the head and the heading are closed. */
  lemma HtmlHeaderOpensBody(open: seq<string>)
    ensures Scan(HtmlHeader, open) == Some(open + ["HTML"] + ["BODY"])
  {
    var headOpen := "<HTML>" + "\n<HEAD>";
    var headClose := "\n<TITLE>LAN Simulation</TITLE>" + "\n</HEAD>";
    var body := "\n<BODY>" + "\n<H1>LAN SIMULATION</H1>";
    AppendAssoc3(headOpen, "\n<TITLE>LAN Simulation</TITLE>", "\n</HEAD>");
    AppendAssoc3(headOpen + headClose, "\n<BODY>", "\n<H1>LAN SIMULATION</H1>");
    HtmlHeadOpened(open);
    HtmlHeadClosed(open + ["HTML"]);
    ScanThen(headOpen, headClose, open, open + ["HTML"] + ["HEAD"], open + ["HTML"]);
    HtmlBodyOpened(open + ["HTML"]);
    ScanThen(headOpen + headClose, body, open, open + ["HTML"], open + ["HTML"] + ["BODY"]);
  }

  /** The list opens inside the body. */
  lemma HtmlListOpensList(open: seq<string>)
    ensures Scan(HtmlListOpen, open) == Some(open + ["UL"])
  {
    assert HtmlListOpen == "\n\n" + OpenTag("UL");
    ScanTextOpen("\n\n", "UL", open);
  }

  /** The closing `...` item, then the list is closed. */
  lemma HtmlListClosed(open: seq<string>)
    ensures Scan("\n\t<LI>...</LI>" + "\n</UL>", open + ["UL"]) == Some(open)
  {
    assert "\n\t<LI>...</LI>" == "\n\t" + (OpenTag("LI") + "..." + CloseTag("LI"));
    ScanTextElement("\n\t", "LI", "...", open + ["UL"]);
    assert "\n</UL>" == "\n" + CloseTag("UL");
    ScanTextClose("\n", "UL", open);
    ScanThen("\n\t<LI>...</LI>", "\n</UL>", open + ["UL"], open + ["UL"], open);
  }

  /** The body and the page are closed, and a line break ends the text. */
  lemma HtmlPageClosed(open: seq<string>)
    ensures Scan("\n\n</BODY>" + "\n</HTML>" + "\n", open + ["HTML"] + ["BODY"]) == Some(open)
  {
    assert "\n\n</BODY>" == "\n\n" + CloseTag("BODY");
    ScanTextClose("\n\n", "BODY", open + ["HTML"]);
    assert "\n</HTML>" == "\n" + CloseTag("HTML");
    ScanTextClose("\n", "HTML", open);
    ScanThen("\n\n</BODY>", "\n</HTML>", open + ["HTML"] + ["BODY"], open + ["HTML"], open);
    ScanText("\n", open);
    ScanThen("\n\n</BODY>" + "\n</HTML>", "\n", open + ["HTML"] + ["BODY"], open, open);
  }

  /** The page foot closes the list, the body and the page. */
  lemma HtmlFooterClosesPage(open: seq<string>)
    ensures Scan(HtmlFooter, open + ["HTML"] + ["BODY"] + ["UL"]) == Some(open)
  {
    var listEnd := "\n\t<LI>...</LI>" + "\n</UL>";
    var pageEnd := "\n\n</BODY>" + "\n</HTML>" + "\n";
    assert HtmlFooter == listEnd + pageEnd;
    HtmlListClosed(open + ["HTML"] + ["BODY"]);
    HtmlPageClosed(open);
    ScanThen(listEnd, pageEnd, open + ["HTML"] + ["BODY"] + ["UL"], open + ["HTML"] + ["BODY"], open);
  }

  /** The HTML page is well tagged for every ring whose node names hold no markup. */
  lemma HtmlPageWellTagged(lap: seq<NodeInfo>)
    requires MarkupFreeNames(lap)
    ensures WellTagged(HtmlPage(lap))
  {
    var items := Joined(lap, HtmlItem);
    var inBody := [] + ["HTML"] + ["BODY"];
    HtmlHeaderOpensBody([]);
    HtmlListOpensList(inBody);
    ScanThen(HtmlHeader, HtmlListOpen, [], inBody, inBody + ["UL"]);
    HtmlItemsBalanced(lap, inBody + ["UL"]);
    ScanThen(HtmlHeader + HtmlListOpen, items, [], inBody + ["UL"], inBody + ["UL"]);
    HtmlFooterClosesPage([]);
    ScanThen(HtmlHeader + HtmlListOpen + items, HtmlFooter, [], inBody + ["UL"], []);
  }
}
