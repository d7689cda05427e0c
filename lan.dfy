/**
 The token-ring node and its two subclasses.

 The Java classes `Node`, `WorkStation` and `Printer` become one class whose
 constant `kind` records which of the three an object was created as; the
 overridden `appendElement*` methods become one method per class and per
 format, and a dispatcher per format that picks by `kind`, as Java's dynamic
 dispatch does. The `oldType` byte is a separate field: it is what
 `printDocument` looks at, and nothing ties it to `kind`.

 The ring is the chain of `next` links. A ghost sequence `lap` lists its
 nodes from the start node on, in link order; `IsRing(lap)` says that the
 links do form one closed ring through exactly those nodes.
 */
module Lan {
  import opened NodeTypes
  import opened Wrappers
  import opened JavaStrings
  import opened Documents
  import opened Renderings

  /** Java's `StringBuffer`, used here only to append. */
  class StringBuffer {
    var contents: string

    constructor ()
      ensures contents == []
    {
      contents := [];
    }

    method Append(s: string)
      modifies this
      ensures contents == old(contents) + s
    {
      contents := contents + s;
    }
  }

  /** The report `Writer`: the strings written to it, in order. */
  class Writer {
    var written: seq<string>

    constructor ()
      ensures written == []
    {
      written := [];
    }

    method Write(s: string)
      modifies this
      ensures written == old(written) + [s]
    {
      written := written + [s];
    }
  }

  /** What a node that is not a printer writes to the report instead of printing (spelling as in the source). */
  const NotAPrinterReport := ">>> Destinition is not a printer, print job cancelled.\n\n"

  class Node {
    /** The Java class the object was created as: `Node`, `WorkStation` or `Printer`. */
    const kind: NodeType
    /** The type byte given to the constructor. */
    var oldType: NodeType
    var name: string
    /** The next node in the ring; null until the ring is linked. */
    var next: Node?

    /** `new Node(type, name, nextNode)`; `new Node(type, name)` is this with `nextNode` null. */
    constructor (oldType: NodeType, name: string, next: Node?)
      ensures kind == NodeType.Node
      ensures this.oldType == oldType && this.name == name && this.next == next
    {
      kind := NodeType.Node;
      this.oldType := oldType;
      this.name := name;
      this.next := next;
    }

    /** `new WorkStation(type, name, nextNode)`: every argument is passed on unchanged. */
    constructor WorkStation(oldType: NodeType, name: string, next: Node?)
      ensures kind == NodeType.WorkStation
      ensures this.oldType == oldType && this.name == name && this.next == next
    {
      kind := NodeType.WorkStation;
      this.oldType := oldType;
      this.name := name;
      this.next := next;
    }

    /** `new Printer(type, name, nextNode)`: every argument is passed on unchanged, the type byte included. */
    constructor Printer(oldType: NodeType, name: string, next: Node?)
      ensures kind == NodeType.Printer
      ensures this.oldType == oldType && this.name == name && this.next == next
    {
      kind := NodeType.Printer;
      this.oldType := oldType;
      this.name := name;
      this.next := next;
    }

    /** The node as the renderers see it. */
    function Info(): (x: NodeInfo)
      reads this
      ensures x.kind == kind && x.name == name
    {
      NodeInfo(kind, name)
    }

    // ------------------------------------------------------------ fragments

    method NodeAppendElement(buf: StringBuffer, current: Node)
      modifies buf
      ensures buf.contents == old(buf.contents) + PlainFragment(NodeType.Node, current.name)
    {
      buf.Append("Node ");
      buf.Append(current.name);
      buf.Append(" [Node]");
      AppendAssoc(old(buf.contents), "Node ", current.name, " [Node]");
    }

    method NodeAppendElementHtml(buf: StringBuffer, current: Node)
      modifies buf
      ensures buf.contents == old(buf.contents) + HtmlFragment(NodeType.Node, current.name)
    {
      buf.Append("Node ");
      buf.Append(current.name);
      buf.Append(" [Node]");
      AppendAssoc(old(buf.contents), "Node ", current.name, " [Node]");
    }

    method NodeAppendElementXml(buf: StringBuffer, current: Node)
      modifies buf
      ensures buf.contents == old(buf.contents) + XmlFragment(NodeType.Node, current.name)
    {
      buf.Append("<node>");
      buf.Append(current.name);
      buf.Append("</node>");
      AppendAssoc(old(buf.contents), "<node>", current.name, "</node>");
    }

    method WorkStationAppendElement(buf: StringBuffer, current: Node)
      modifies buf
      ensures buf.contents == old(buf.contents) + PlainFragment(NodeType.WorkStation, current.name)
    {
      buf.Append("Workstation ");
      buf.Append(current.name);
      buf.Append(" [Workstation]");
      AppendAssoc(old(buf.contents), "Workstation ", current.name, " [Workstation]");
    }

    method WorkStationAppendElementHtml(buf: StringBuffer, current: Node)
      modifies buf
      ensures buf.contents == old(buf.contents) + HtmlFragment(NodeType.WorkStation, current.name)
    {
      buf.Append("Workstation ");
      buf.Append(current.name);
      buf.Append(" [Workstation]");
      AppendAssoc(old(buf.contents), "Workstation ", current.name, " [Workstation]");
    }

    method WorkStationAppendElementXml(buf: StringBuffer, current: Node)
      modifies buf
      ensures buf.contents == old(buf.contents) + XmlFragment(NodeType.WorkStation, current.name)
    {
      buf.Append("<workstation>");
      buf.Append(current.name);
      buf.Append("</workstation>");
      AppendAssoc(old(buf.contents), "<workstation>", current.name, "</workstation>");
    }

    method PrinterAppendElement(buf: StringBuffer, current: Node)
      modifies buf
      ensures buf.contents == old(buf.contents) + PlainFragment(NodeType.Printer, current.name)
    {
      buf.Append("Printer ");
      buf.Append(current.name);
      buf.Append(" [Printer]");
      AppendAssoc(old(buf.contents), "Printer ", current.name, " [Printer]");
    }

    method PrinterAppendElementHtml(buf: StringBuffer, current: Node)
      modifies buf
      ensures buf.contents == old(buf.contents) + HtmlFragment(NodeType.Printer, current.name)
    {
      buf.Append("Printer ");
      buf.Append(current.name);
      buf.Append(" [Printer]");
      AppendAssoc(old(buf.contents), "Printer ", current.name, " [Printer]");
    }

    method PrinterAppendElementXml(buf: StringBuffer, current: Node)
      modifies buf
      ensures buf.contents == old(buf.contents) + XmlFragment(NodeType.Printer, current.name)
    {
      buf.Append("<printer>");
      buf.Append(current.name);
      buf.Append("</printer>");
      AppendAssoc(old(buf.contents), "<printer>", current.name, "</printer>");
    }

    /** `appendElement`, dispatched on the class of the receiver. */
    method AppendElement(buf: StringBuffer, current: Node)
      modifies buf
      ensures buf.contents == old(buf.contents) + PlainFragment(kind, current.name)
    {
      match kind
      case Node => NodeAppendElement(buf, current);
      case WorkStation => WorkStationAppendElement(buf, current);
      case Printer => PrinterAppendElement(buf, current);
    }

    /** `appendElementHTML`, dispatched on the class of the receiver. */
    method AppendElementHtml(buf: StringBuffer, current: Node)
      modifies buf
      ensures buf.contents == old(buf.contents) + HtmlFragment(kind, current.name)
    {
      match kind
      case Node => NodeAppendElementHtml(buf, current);
      case WorkStation => WorkStationAppendElementHtml(buf, current);
      case Printer => PrinterAppendElementHtml(buf, current);
    }

    /** `appendElementXML`, dispatched on the class of the receiver. */
    method AppendElementXml(buf: StringBuffer, current: Node)
      modifies buf
      ensures buf.contents == old(buf.contents) + XmlFragment(kind, current.name)
    {
      match kind
      case Node => NodeAppendElementXml(buf, current);
      case WorkStation => WorkStationAppendElementXml(buf, current);
      case Printer => PrinterAppendElementXml(buf, current);
    }

    // ------------------------------------------------------------ ring walks

    /**
     `printOn`: one plain item per ring node from this one on, in link order,
     then the trailer. The loop stops when it is back at this node, which is
     after exactly one lap.
     */
    method PrintOn(buf: StringBuffer, ghost lap: seq<Node>) returns (ghost steps: nat)
      requires IsRing(lap) && lap[0] == this
      modifies buf
      ensures steps == |lap|
      ensures buf.contents == old(buf.contents) + PlainText(old(Infos(lap)))
    {
      ghost var infos := Infos(lap);
      var current := this;
      ghost var i := 0;
      while true
        invariant IsRing(lap)
        invariant 0 <= i < |lap| && current == lap[i]
        invariant buf.contents == old(buf.contents) + Joined(infos[..i], PlainItem)
        decreases |lap| - i
      {
        ghost var done := buf.contents;
        current.AppendElement(buf, current);
        buf.Append(PlainSeparator);
        PlainItemAppended(done, infos[i]);
        JoinedStep(old(buf.contents), infos, i, PlainItem, done, PlainItem(infos[i]));
        i := i + 1;
        current := current.next;
        RingClosesAfterLap(lap, i);
        if current == this {
          break;
        }
      }
      assert infos[..i] == infos;
      steps := i;
      buf.Append(PlainTrailer);
      AppendAssoc3(old(buf.contents), Joined(infos, PlainItem), PlainTrailer);
    }

    /**
     `printHTMLOn`: the page head, the opening of the list, one list item per
     ring node from this one on, in link order, then the page foot.
     */
    method PrintHtmlOn(buf: StringBuffer, ghost lap: seq<Node>) returns (ghost steps: nat)
      requires IsRing(lap) && lap[0] == this
      modifies buf
      ensures steps == |lap|
      ensures buf.contents == old(buf.contents) + HtmlPage(old(Infos(lap)))
    {
      ghost var infos := Infos(lap);
      buf.Append(HtmlHeader);
      buf.Append(HtmlListOpen);
      assert Infos(lap) == infos;
      steps := AppendHtmlItems(buf, lap);
      buf.Append(HtmlFooter);
      HtmlPageAppended(old(buf.contents), infos);
    }

    /** The do-while loop of `printHTMLOn`: one list item per ring node from this one on. */
    method AppendHtmlItems(buf: StringBuffer, ghost lap: seq<Node>) returns (ghost steps: nat)
      requires IsRing(lap) && lap[0] == this
      modifies buf
      ensures steps == |lap|
      ensures buf.contents == old(buf.contents) + Joined(old(Infos(lap)), HtmlItem)
    {
      ghost var infos := Infos(lap);
      var current := this;
      ghost var i := 0;
      while true
        invariant IsRing(lap)
        invariant 0 <= i < |lap| && current == lap[i]
        invariant buf.contents == old(buf.contents) + Joined(infos[..i], HtmlItem)
        decreases |lap| - i
      {
        ghost var done := buf.contents;
        buf.Append("\n\t<LI> ");
        current.AppendElementHtml(buf, current);
        buf.Append(" </LI>");
        HtmlItemAppended(done, infos[i]);
        JoinedStep(old(buf.contents), infos, i, HtmlItem, done, HtmlItem(infos[i]));
        i := i + 1;
        current := current.next;
        RingClosesAfterLap(lap, i);
        if current == this {
          break;
        }
      }
      assert infos[..i] == infos;
      steps := i;
    }

    /**
     `printXMLOn`: the declaration and `<network>`, one line per ring node
     from this one on, in link order, then `</network>`.
     */
    method PrintXmlOn(buf: StringBuffer, ghost lap: seq<Node>) returns (ghost steps: nat)
      requires IsRing(lap) && lap[0] == this
      modifies buf
      ensures steps == |lap|
      ensures buf.contents == old(buf.contents) + XmlDocument(old(Infos(lap)))
    {
      ghost var infos := Infos(lap);
      var current := this;
      buf.Append(XmlHeader);
      ghost var start := buf.contents;
      ghost var i := 0;
      while true
        invariant IsRing(lap)
        invariant 0 <= i < |lap| && current == lap[i]
        invariant buf.contents == start + Joined(infos[..i], XmlItem)
        decreases |lap| - i
      {
        ghost var done := buf.contents;
        buf.Append("\n\t");
        current.AppendElementXml(buf, current);
        XmlItemAppended(done, infos[i]);
        JoinedStep(start, infos, i, XmlItem, done, XmlItem(infos[i]));
        i := i + 1;
        current := current.next;
        RingClosesAfterLap(lap, i);
        if current == this {
          break;
        }
      }
      assert infos[..i] == infos;
      steps := i;
      buf.Append(XmlFooter);
      XmlDocumentAppended(old(buf.contents), infos);
    }

    // ------------------------------------------------------------ printing

    /**
     `printDocument`: a node whose type byte says printer accepts the job and
     reads author and title from the payload; any other node writes the
     refusal to the report and rejects the job, whatever the payload.
     */
    method PrintDocument(document: Packet, report: Writer) returns (accepted: bool, job: Option<PrintJob>)
      modifies report
      ensures accepted <==> oldType == NodeType.Printer
      ensures accepted ==> job == Some(ParseDocument(document.message)) && report.written == old(report.written)
      ensures !accepted ==> job == None && report.written == old(report.written) + [NotAPrinterReport]
    {
      var msg := document.message;
      var author := DefaultAuthor;
      var title := DefaultTitle;
      if oldType == NodeType.Printer {
        if PostScriptMarker <= msg {
          author := ReadField(msg, AuthorMarker, author);
          title := ReadField(msg, TitleMarker, title);
          job := Some(PrintJob(author, title, PostScriptInfo));
        } else {
          title := AsciiTitle;
          if |msg| >= 16 {
            author := msg[8..16];
          }
          job := Some(PrintJob(author, title, AsciiInfo));
        }
        accepted := true;
      } else {
        report.Write(NotAPrinterReport);
        job := None;
        accepted := false;
      }
    }
  }

  /**
   One of the two field-reading blocks of `printDocument`: find the first
   `marker`, and take what follows it up to the next `.` or the end of the
   payload; keep `dflt` when the marker is absent.
   */
  method ReadField(msg: string, marker: string, dflt: string) returns (value: string)
    ensures (forall i :: !Occurs(msg, marker, i)) ==> value == dflt
    ensures forall p :: FirstOccurrence(msg, marker, p) ==> ValueAt(msg, p + |marker|, value)
    ensures value == Field(msg, marker, dflt)
  {
    value := dflt;
    var startPos := IndexOfFirst(msg, marker);
    if startPos >= 0 {
      assert startPos + |marker| <= |msg|;
      var endPos := IndexOf(msg, ".", startPos + |marker|);
      if endPos < 0 {
        endPos := |msg|;
      }
      value := msg[startPos + |marker|..endPos];
    }
    assert value == Field(msg, marker, dflt);
    FieldMeaning(msg, marker, dflt);
  }

  // ---------------------------------------------------------------- the ring

  /**
   Following `next` from `lap[0]` meets the nodes of `lap` in order, each
   once, and comes back to `lap[0]` after the last.
   */
  ghost predicate IsRing(lap: seq<Node>)
    reads lap
  {
    |lap| >= 1 &&
    (forall i, j :: 0 <= i < j < |lap| ==> lap[i] != lap[j]) &&
    (forall i :: 0 <= i < |lap| - 1 ==> lap[i].next == lap[i + 1]) &&
    lap[|lap| - 1].next == lap[0]
  }

  /** The ring's nodes as the renderers see them. */
  ghost function Infos(lap: seq<Node>): (xs: seq<NodeInfo>)
    reads lap
    ensures |xs| == |lap|
    ensures forall i :: 0 <= i < |lap| ==> xs[i] == NodeInfo(lap[i].kind, lap[i].name)
  {
    if lap == [] then [] else Infos(lap[..|lap| - 1]) + [lap[|lap| - 1].Info()]
  }

  /** Text holding the items of `xs[..i]`, extended by the item of `xs[i]`, holds those of `xs[..i + 1]`. */
  lemma JoinedStep(prefix: string, xs: seq<NodeInfo>, i: nat, item: NodeInfo -> string, done: string, piece: string)
    requires i < |xs| && done == prefix + Joined(xs[..i], item) && piece == item(xs[i])
    ensures done + piece == prefix + Joined(xs[..i + 1], item)
  {
    assert xs[..i + 1][..i] == xs[..i];
    AppendAssoc3(prefix, Joined(xs[..i], item), piece);
  }

  /**
   A walk that has taken `i` steps from `lap[0]`, each along a link, is back
   at `lap[0]` exactly when it has gone once round: `i` is the ring's size.
   */
  lemma RingClosesAfterLap(lap: seq<Node>, i: nat)
    requires IsRing(lap)
    requires 1 <= i <= |lap|
    ensures lap[i - 1].next == lap[0] <==> i == |lap|
  {
    assert forall j :: 0 <= j < |lap| - 1 ==> lap[j].next != lap[0] by {
      forall j | 0 <= j < |lap| - 1 ensures lap[j].next != lap[0] {
        assert lap[j].next == lap[j + 1];
      }
    }
  }

  /** Three distinct nodes linked each to the next, the last back to the first, form a ring. */
  lemma RingOfThree(a: Node, b: Node, c: Node)
    requires a != b && b != c && a != c
    requires a.next == b && b.next == c && c.next == a
    ensures IsRing([a, b, c])
  {
  }

  /** A ring is determined by its start node: any two laps from the same node are equal. */
  lemma RingLapUnique(lap1: seq<Node>, lap2: seq<Node>)
    requires IsRing(lap1) && IsRing(lap2) && lap1[0] == lap2[0]
    ensures lap1 == lap2
  {
    var n := if |lap1| < |lap2| then |lap1| else |lap2|;
    var k := 1;
    while k < n
      invariant 1 <= k <= n
      invariant forall j :: 0 <= j < k ==> lap1[j] == lap2[j]
    {
      assert lap1[k] == lap1[k - 1].next == lap2[k - 1].next == lap2[k];
      k := k + 1;
    }
    RingClosesAfterLap(lap1, n);
    RingClosesAfterLap(lap2, n);
  }

  /** Where the `i`-th node of the lap rotated to start at `lap[k]` comes from. */
  function RotatedIndex(n: nat, k: nat, i: nat): (j: nat)
    requires k < n && i < n
    ensures j < n
  {
    if i < n - k then i + k else i - (n - k)
  }

  /** Every node of a ring starts a lap of its own: the same nodes, rotated. */
  lemma RingRotation(lap: seq<Node>, k: nat)
    requires IsRing(lap) && k < |lap|
    ensures IsRing(lap[k..] + lap[..k])
    ensures (lap[k..] + lap[..k])[0] == lap[k]
  {
    var rot := lap[k..] + lap[..k];
    var n := |lap|;
    forall i | 0 <= i < n ensures rot[i] == lap[RotatedIndex(n, k, i)] {
    }
    forall i, j | 0 <= i < j < n ensures rot[i] != rot[j] {
      assert RotatedIndex(n, k, i) != RotatedIndex(n, k, j);
    }
    forall i | 0 <= i < n - 1 ensures rot[i].next == rot[i + 1] {
      assert rot[i] == lap[RotatedIndex(n, k, i)] && rot[i + 1] == lap[RotatedIndex(n, k, i + 1)];
    }
    assert rot[n - 1] == lap[RotatedIndex(n, k, n - 1)];
  }

  // ---------------------------------------------------------------- scenarios

  /**
   A `Printer` object built with a non-printer type byte refuses every job,
   and a `WorkStation` object built with the printer byte accepts it: the
   byte decides, not the class.
   */
  method AcceptanceFollowsTypeByte(document: Packet) returns (printerAccepts: bool, workStationAccepts: bool)
    ensures !printerAccepts && workStationAccepts
  {
    var printer := new Node.Printer(NodeType.Node, "printer", null);
    var station := new Node.WorkStation(NodeType.Printer, "station", null);
    var report := new Writer();
    var job;
    printerAccepts, job := printer.PrintDocument(document, report);
    workStationAccepts, job := station.PrintDocument(document, report);
  }

  /**
   A three-node ring linked workstation, printer, node and back: `printOn`
   from the workstation lists the three in that order, each once, then the
   trailer.
   */
  method ThreeNodeRing(station: string, printer: string, node: string) returns (text: string)
    ensures text == PlainItem(NodeInfo(NodeType.WorkStation, station)) + PlainItem(NodeInfo(NodeType.Printer, printer))
      + PlainItem(NodeInfo(NodeType.Node, node)) + PlainTrailer
  {
    var n := new Node(NodeType.Node, node, null);
    var p := new Node.Printer(NodeType.Printer, printer, n);
    var w := new Node.WorkStation(NodeType.WorkStation, station, p);
    n.next := w;
    var buf := new StringBuffer();
    ghost var lap := [w, p, n];
    RingOfThree(w, p, n);
    ghost var x, y, z := NodeInfo(NodeType.WorkStation, station), NodeInfo(NodeType.Printer, printer), NodeInfo(NodeType.Node, node);
    ghost var infos := Infos(lap);
    assert infos == [x, y, z];
    ghost var steps := w.PrintOn(buf, lap);
    text := buf.contents;
    JoinedThree(x, y, z, PlainItem);
    assert text == [] + (Joined(infos, PlainItem) + PlainTrailer);
  }
}
