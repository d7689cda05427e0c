# LAN simulation: the token-ring node

This project models the core of a token-ring LAN simulation. Generic nodes,
workstations and printers form a closed ring through their `nextNode_`
links. The model covers what one node does:

- it renders the ring from itself as plain text, as an HTML page or as an
  XML document, walking the ring once with a do-while loop and appending one
  fragment per node, chosen by the node's class;
- when a document reaches it, it accepts the print job exactly when its
  `oldType` byte says printer, and reads an author and a title from the
  payload (a `!PS` pseudo-PostScript payload, or plain ASCII), or else writes
  a refusal to the report.

Layout:

- `node_types.dfy` (`NodeTypes`): the three node types.
- `wrappers.dfy` (`Wrappers`): `Option`.
- `java_strings.dfy` (`JavaStrings`): Java's `indexOf(String, int)` with its
  clamping of the start index; `startsWith` is `<=` and `substring` is a slice.
- `documents.dfy` (`Documents`): the packet, the print job, and the payload
  parse as functions, with lemmas on what each field is.
- `markup.dfy` (`Markup`): a small tag scanner, used as an independent
  reference for "every element opened is closed".
- `renderings.dfy` (`Renderings`): the per-class fragments and the three
  renderings as functions of the ring's nodes in successor order, with the
  well-tagged lemmas for HTML and XML.
- `lan.dfy` (`Lan`): the `Node` class with its constructors, its per-class
  `appendElement*` methods, the three ring walks with their loops, and
  `printDocument`. The ring is a ghost sequence `lap` of nodes, and
  `IsRing(lap)` says that the `next` links close it.

The class of a Java object and its `oldType` byte are two separate things in
the source. `Node` keeps both: the constant `kind` picks the fragment, as
dynamic dispatch does, and the field `oldType` decides whether a print job is
accepted. Nothing ties them together: acceptance is decided by the `oldType`
byte, not by the class, so a `Printer` built with a non-printer byte refuses
every job (`Lan.AcceptanceFollowsTypeByte`).

## Model

| member | source | states |
|---|---|---|
| JavaStrings.IndexOf | src/lanSimulation/internals/Node.java:93 | `indexOf(pat, from)` is -1 exactly when `pat` does not occur at or after the clamped start; otherwise it is the least such occurrence |
| JavaStrings.IndexOfFirst | src/lanSimulation/internals/Node.java:91 | `indexOf(pat)` is negative exactly when `pat` occurs nowhere; otherwise it is the first occurrence, which fits inside the string |
| JavaStrings.FirstOccurrenceUnique | src/lanSimulation/internals/Node.java:101 | a pattern has at most one first occurrence: two first occurrences of it coincide |
| Documents.ValueUpToDot | src/lanSimulation/internals/Node.java:93-98 | the text from an offset up to the next `.`, or to the end when there is none, holds no `.` and is followed by `.` or the end |
| Documents.FieldAbsent | src/lanSimulation/internals/Node.java:84 | without the marker the field keeps its default |
| Documents.FieldPresent | src/lanSimulation/internals/Node.java:91-99 | with the marker the field is the dot-free value right after the marker's first occurrence, ending at a `.` or the end; the `substring` bounds always hold |
| Documents.FieldMeaning | src/lanSimulation/internals/Node.java:91-99 | both cases together: default when the marker is absent, the value after its first occurrence otherwise |
| Documents.FieldIs | src/lanSimulation/internals/Node.java:101-109 | a first occurrence at `p` and a value `v` right after that occurrence determine the field: it is `v` |
| Documents.ParsePostScript | src/lanSimulation/internals/Node.java:90-111 | author from the first `author:` (or "Unknown"), title from the first `title:` in the whole message (or "Untitled"), each up to a `.` or the end; the title search covers the whole message, so it does not depend on where `author:` was found; the PostScript completion note |
| Documents.ParseAscii | src/lanSimulation/internals/Node.java:113-119 | title "ASCII DOCUMENT"; author exactly the 8 characters at [8, 16) when the payload has at least 16, "Unknown" otherwise; no index out of bounds; the ASCII completion note |
| Documents.ParseDocument | src/lanSimulation/internals/Node.java:90 | a payload starting with `!PS` takes the PostScript branch, any other payload the ASCII branch |
| Documents.FieldAfterValue | src/lanSimulation/internals/Node.java:101-109 | a second field is read after the first field's value whenever its marker starts nowhere before it and not inside that value |
| Documents.PostScriptBothFields | src/lanSimulation/internals/Node.java:90-109 | `!PS title:T.author:A.` yields author A and title T, for every dot-free T in which `author:` does not occur and every dot-free A |
| Documents.PostScriptAuthorFirst | src/lanSimulation/internals/Node.java:90-109 | `!PS author:A.title:T.` yields author A and title T, for every dot-free A in which `title:` does not occur and every dot-free T |
| Documents.PostScriptTitleOnly | src/lanSimulation/internals/Node.java:84-109 | `!PS title:T.` yields title T and the default author "Unknown", for every dot-free T in which `author:` does not occur |
| Documents.AsciiLongPayload | src/lanSimulation/internals/Node.java:113-119 | every payload not starting with `!PS` and of at least 16 characters yields the author at [8, 16), the title "ASCII DOCUMENT" and the ASCII note |
| Documents.AsciiShortPayload | src/lanSimulation/internals/Node.java:113-119 | every payload not starting with `!PS` and shorter than 16 characters yields the author "Unknown", the title "ASCII DOCUMENT" and the ASCII note |
| Documents.AsciiLongSample | src/lanSimulation/internals/Node.java:115-116 | the payload `01234567ABCDEFGHij` yields the author `ABCDEFGH` and the title "ASCII DOCUMENT" |
| Documents.AsciiShortSample | src/lanSimulation/internals/Node.java:115 | the payload `short` keeps the author "Unknown" |
| Renderings.PlainFragmentShape | src/lanSimulation/internals/Node.java:214-218 | every plain fragment is the class word, the name, and the class word in brackets |
| Renderings.HtmlFragment | src/lanSimulation/internals/Node.java:220-224 | the HTML fragment of every class equals its plain fragment |
| Renderings.XmlFragmentShape | src/lanSimulation/internals/Node.java:226-230 | every XML fragment is one element named after the class, holding the node's name as text |
| Renderings.XmlFragmentBalanced | src/lanSimulation/internals/WorkStation.java:30-34 | each class's XML fragment is well tagged when the name holds no `<` |
| Renderings.JoinedAppend | src/lanSimulation/internals/Node.java:155-159 | the items of two consecutive stretches of the ring are the items of the whole stretch, in order |
| Renderings.JoinedAt | src/lanSimulation/internals/Node.java:155-159 | each node's item sits in its own place, after those of all its predecessors and before those of its successors |
| Renderings.XmlItemsBalanced | src/lanSimulation/internals/Node.java:206-210 | when no name holds `<`, each node's XML line closes its element before the next line begins |
| Renderings.XmlDocumentWellTagged | src/lanSimulation/internals/Node.java:201-212 | the XML rendering of every ring of size at least 1 is well tagged when no name holds `<` |
| Renderings.HtmlItemsBalanced | src/lanSimulation/internals/Node.java:181-186 | when no name holds `<`, each list item closes `<LI>` before the next item begins |
| Renderings.HtmlPageWellTagged | src/lanSimulation/internals/Node.java:175-188 | the HTML page of every ring is well tagged when no name holds `<` |
| Lan.Node.constructor | src/lanSimulation/internals/Node.java:69-74 | a generic node keeps the type byte, the name and the successor it is given |
| Lan.Node.WorkStation | src/lanSimulation/internals/WorkStation.java:10-13 | a workstation passes the type byte, the name and the successor through unchanged |
| Lan.Node.Printer | src/lanSimulation/internals/Printer.java:10-13 | a printer passes the type byte through unchanged, whatever it is, with the name and the successor |
| Lan.Node.NodeAppendElement | src/lanSimulation/internals/Node.java:214-218 | appends "Node " + name + " [Node]"; the old buffer stays a prefix; only the name of `currentNode` is read |
| Lan.Node.NodeAppendElementHtml | src/lanSimulation/internals/Node.java:220-224 | appends the HTML fragment, the same text as the plain one, after the old buffer |
| Lan.Node.NodeAppendElementXml | src/lanSimulation/internals/Node.java:226-230 | appends "<node>" + name + "</node>" after the old buffer |
| Lan.Node.WorkStationAppendElement | src/lanSimulation/internals/WorkStation.java:16-20 | appends "Workstation " + name + " [Workstation]" after the old buffer |
| Lan.Node.WorkStationAppendElementHtml | src/lanSimulation/internals/WorkStation.java:23-27 | appends the same text as the plain workstation fragment after the old buffer |
| Lan.Node.WorkStationAppendElementXml | src/lanSimulation/internals/WorkStation.java:30-34 | appends "<workstation>" + name + "</workstation>" after the old buffer |
| Lan.Node.PrinterAppendElement | src/lanSimulation/internals/Printer.java:16-20 | appends "Printer " + name + " [Printer]" after the old buffer |
| Lan.Node.PrinterAppendElementHtml | src/lanSimulation/internals/Printer.java:23-27 | appends the same text as the plain printer fragment after the old buffer |
| Lan.Node.PrinterAppendElementXml | src/lanSimulation/internals/Printer.java:30-34 | appends "<printer>" + name + "</printer>" after the old buffer |
| Lan.Node.AppendElement | src/lanSimulation/internals/Node.java:156 | the plain fragment is chosen by the class of the receiver |
| Lan.Node.AppendElementHtml | src/lanSimulation/internals/Node.java:183 | the HTML fragment is chosen by the class of the receiver |
| Lan.Node.AppendElementXml | src/lanSimulation/internals/Node.java:208 | the XML fragment is chosen by the class of the receiver |
| Lan.Node.PrintOn | src/lanSimulation/internals/Node.java:151-161 | on a closed ring of N nodes starting here, the loop runs exactly N times; it appends each node's fragment and " -> " once, in successor order, then " ... "; the old buffer stays a prefix and no node changes |
| Lan.Node.PrintHtmlOn | src/lanSimulation/internals/Node.java:175-188 | appends the fixed page head, "\n\n<UL>", one list item per ring node in successor order, then the fixed page foot |
| Lan.Node.AppendHtmlItems | src/lanSimulation/internals/Node.java:181-186 | the do-while loop of the HTML walk runs exactly N times and appends one `<LI>` item per node, in successor order |
| Lan.Node.PrintXmlOn | src/lanSimulation/internals/Node.java:201-212 | appends the declaration and `<network>`, one "\n\t" + fragment per ring node in successor order, then "\n</network>", after exactly N iterations |
| Lan.Node.PrintDocument | src/lanSimulation/internals/Node.java:83-138 | accepts exactly when `oldType` is the printer byte and then yields the parsed job; otherwise it writes exactly the refusal line to the report and yields no job, whatever the payload |
| Lan.ReadField | src/lanSimulation/internals/Node.java:91-99 | one field-reading block of `printDocument`: without the marker the value is the default; otherwise it is the dot-free text right after the marker's first occurrence, ending at a `.` or the end of the payload |
| Lan.RingClosesAfterLap | src/lanSimulation/internals/Node.java:159 | on a closed ring the walk is back at its start node exactly after N steps and never earlier |
| Lan.RingLapUnique | src/lanSimulation/internals/Node.java:154-159 | the lap a walk follows is fixed by its start node, so the visiting order is the successor order |
| Lan.RingRotation | src/lanSimulation/internals/Node.java:154 | any node of a closed ring starts a lap of its own, made of the same nodes rotated |
| Lan.AcceptanceFollowsTypeByte | src/lanSimulation/internals/Printer.java:10-13 | a `Printer` built with a non-printer byte refuses a job, and a `WorkStation` built with the printer byte accepts it |
| Lan.ThreeNodeRing | src/lanSimulation/internals/Node.java:151-161 | a ring of a workstation, a printer and a node, rendered from the workstation, lists the three in link order and then the trailer |

## Left out

- `printAuthorTitle` belongs to `Network`, which is not part of this model. Instead of writing the formatted author and title to the report, an accepting `printDocument` returns a `PrintJob(author, title, info)` record.
- Lan.Node.PrintDocument: on the accepting path the report is left unchanged, because the report writes of `printAuthorTitle` are not modelled.
- The report `Writer` is a list of the strings written to it. `flush` is not modelled, and writes never fail, so the ignored `IOException`s do not arise.
- `logging` (Node.java:76-81) only writes to the report and is not modelled.
- The `network.isInitialized()` assertions call into `Network`. They are replaced by the precondition `IsRing(lap)`, which says the links close into one ring.
- The `type` field, `getType`/`setType` and the commented-out `createNodeType` are not part of this model: the constructors never set the field and no modelled code reads it.
- `NodeType` is an enumeration of its three constants. Java allows any byte, but the constructors assert that the byte is one of the three.
- `Packet` is a datatype with origin, destination and message. Packet circulation, destination lookup and ring assembly belong to the `Network` driver and are not part of this model.
- The two-argument constructors are the three-argument ones with a null successor: `Node.java:55-60`, `WorkStation.java:5-8` and `Printer.java:5-8`.
- The ring walks return a ghost step count so that "exactly N iterations" can be stated. "No node's name or successor changes" follows from `modifies buf` rather than from an ensures clause.
- The do-while loop of `printHTMLOn` is its own method, `AppendHtmlItems`. The fixed HTML head and foot are written as concatenations of their lines, which have the same value as the source's literals.
- The two field-reading blocks of `printDocument` are one method, `ReadField`, called once with `author:` and once with `title:`.
- Renderings.XmlDocumentWellTagged, Renderings.HtmlPageWellTagged, Renderings.XmlFragmentBalanced, Renderings.XmlItemsBalanced and Renderings.HtmlItemsBalanced: stated only for node names without `<`. A name that holds markup can unbalance the output, so the unrestricted claim does not hold.
- Documents.ParseAscii: the model counts a string's length and offsets in Unicode scalar values, while Java's `length()`, `indexOf` and `substring` count UTF-16 code units. For payloads with characters outside the Basic Multilingual Plane, the `length() >= 16` test and the [8, 16) slice therefore differ from Java's, and a Java slice that cuts a surrogate pair has no counterpart here. `JavaStrings.IndexOf` and `Documents.ParsePostScript` count the same way.
