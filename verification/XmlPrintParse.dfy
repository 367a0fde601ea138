/** The destructive parser on the printer's output. */
module XmlPrintParse {
  import opened XmlText
  import opened XmlReferences
  import opened XmlParser
  import opened XmlSpans
  import opened XmlDestructive
  import opened XmlPrinter
  import opened XmlRoundTrip

  /** Once a printed text has been parsed in place, the names and values left in the buffer spell out
      the printed tree, although the markup around them is gone. */
  method ParsePrinted(buf: array<Ch>, ghost printed: seq<Node>) returns (r: Res<seq<NodeSpans>>)
    requires PrintableTop(printed) && buf[..] == NodesText(printed) + [NUL]
    modifies buf
    ensures r.Ok? && ReadNodes(buf[..], r.value) == printed
    ensures NodesIn(buf[..], r.value, 0, buf.Length)
  {
    hide Document, NodeIn, ReadNode, Printable;
    ParsePrint(printed);
    r := Parse(buf);
    NodesFrame(buf[..], buf[..], r.value, 0, r.next, 0, buf.Length);
  }
}
