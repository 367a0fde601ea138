/** What rapidxml's default parse of a text means: a recursive descent parser that only reads. */
module XmlParser {
  import opened XmlText
  import opened XmlReferences

  datatype Attribute = Attribute(name: Str, value: Str)

  datatype Node =
    | Element(name: Str, value: Str, attributes: seq<Attribute>, children: seq<Node>)
    | Data(value: Str)
    | Cdata(value: Str)

  /** An element takes the text of its first data node as its value; as the source tests for an empty
      value by its first character, a value that starts with a zero is replaced by the next one. */
  function ElementValue(value: Str, children: seq<Node>): Str
    decreases |children|
  {
    if children == [] then value
    else ElementValue(if children[0].Data? then Adopt(value, children[0].value) else value, children[1..])
  }

  function Adopt(value: Str, data: Str): Str {
    if value == [] || value[0] == NUL then data else value
  }

  const END_OF_DATA: string := "unexpected end of data"
  const EXPECTED_GREATER: string := "expected >"
  const EXPECTED_EQUALS: string := "expected ="
  const EXPECTED_QUOTE: string := "expected ' or \""
  const EXPECTED_NAME: string := "expected element name"
  const EXPECTED_LESS: string := "expected <"

  // ----- Markup that produces no node ----------------------------------------------------------------

  /** Skips to the first place where mark stands, and past it. */
  function SkipPast(s: Str, pos: nat, mark: Str): (r: Res<()>)
    requires ZeroEnded(s) && pos < |s| && |mark| > 0 && NUL !in mark
    ensures r.Ok? ==> pos < r.next < |s|
    decreases |s| - pos
  {
    if At(s, pos, mark) then
      AtIndex(s, pos, mark, |mark| - 1);
      Ok((), pos + |mark|)
    else if s[pos] == NUL then Bad(END_OF_DATA, pos)
    else SkipPast(s, pos + 1, mark)
  }

  /** Skips a bracketed part of a DOCTYPE, by depth. */
  function SkipBrackets(s: Str, pos: nat, depth: nat): (r: Res<()>)
    requires ZeroEnded(s) && pos < |s|
    ensures r.Ok? ==> pos <= r.next < |s|
    decreases |s| - pos
  {
    if depth == 0 then Ok((), pos)
    else if s[pos] == NUL then Bad(END_OF_DATA, pos)
    else SkipBrackets(s, pos + 1, if s[pos] == '[' then depth + 1 else if s[pos] == ']' then depth - 1 else depth)
  }

  function SkipDoctype(s: Str, pos: nat): (r: Res<()>)
    requires ZeroEnded(s) && pos < |s|
    ensures r.Ok? ==> pos < r.next < |s|
    decreases |s| - pos
  {
    if s[pos] == '>' then Ok((), pos + 1)
    else if s[pos] == '[' then
      var r := SkipBrackets(s, pos + 1, 1);
      if r.Ok? then SkipDoctype(s, r.next) else r
    else if s[pos] == NUL then Bad(END_OF_DATA, pos)
    else SkipDoctype(s, pos + 1)
  }

  function Nothing(r: Res<()>): Res<Option<Node>> {
    match r
    case Ok(_, next) => Ok(None, next)
    case Bad(what, at) => Bad(what, at)
  }

  // ----- Attributes ------------------------------------------------------------------------------------

  /** An attribute name and the equals sign after it. */
  function AttributeNameAt(s: Str, pos: nat): (r: Res<Str>)
    requires ZeroEnded(s) && pos < |s| && AttributeName.Test(s[pos])
    ensures r.Ok? ==> pos < r.next < |s|
  {
    var end := Skip(s, pos + 1, AttributeName);
    var equals := Skip(s, end, Whitespace);
    if s[equals] != '=' then Bad(EXPECTED_EQUALS, equals) else Ok(s[pos..end], equals + 1)
  }

  /** The text up to the given quote, and the white space after it. */
  function QuotedAt(s: Str, pos: nat, quote: Ch): (r: Res<Str>)
    requires ZeroEnded(s) && pos < |s| && (quote == '\'' || quote == '"')
    ensures r.Ok? ==> pos < r.next < |s|
  {
    var r := Expand(s, pos, pos, AttributeValue(quote));
    if r.Bad? then r
    else if s[r.next] != quote then Bad(EXPECTED_QUOTE, r.next)
    else Ok(r.value, Skip(s, r.next + 1, Whitespace))
  }

  /** A quoted attribute value and the white space around it. */
  function AttributeValueAt(s: Str, pos: nat): (r: Res<Str>)
    requires ZeroEnded(s) && pos < |s|
    ensures r.Ok? ==> pos < r.next < |s|
  {
    var open := Skip(s, pos, Whitespace);
    if s[open] != '\'' && s[open] != '"' then Bad(EXPECTED_QUOTE, open)
    else QuotedAt(s, open + 1, s[open])
  }

  function OneAttribute(s: Str, pos: nat): (r: Res<Attribute>)
    requires ZeroEnded(s) && pos < |s| && AttributeName.Test(s[pos])
    ensures r.Ok? ==> pos < r.next < |s|
  {
    var name := AttributeNameAt(s, pos);
    if name.Bad? then Bad(name.what, name.at)
    else
      var value := AttributeValueAt(s, name.next);
      if value.Bad? then Bad(value.what, value.at)
      else Ok(Attribute(name.value, value.value), value.next)
  }

  function Attributes(s: Str, pos: nat): (r: Res<seq<Attribute>>)
    requires ZeroEnded(s) && pos < |s|
    ensures r.Ok? ==> pos <= r.next < |s|
    decreases |s| - pos
  {
    if !AttributeName.Test(s[pos]) then Ok([], pos)
    else
      match OneAttribute(s, pos)
      case Bad(what, at) => Bad(what, at)
      case Ok(a, next) => Join([a], Attributes(s, next))
  }

  // ----- Nodes -----------------------------------------------------------------------------------------

  /** `parse_cdata` */
  function CdataNode(s: Str, pos: nat): (r: Res<Option<Node>>)
    requires ZeroEnded(s) && pos < |s|
    ensures r.Ok? ==> pos + 3 <= r.next < |s| && r.value.Some? && r.value.value.Cdata?
  {
    match SkipPast(s, pos, "]]>")
    case Bad(what, at) => Bad(what, at)
    case Ok(_, next) =>
      SkipPastMark(s, pos, "]]>");
      Ok(Some(Cdata(s[pos..next - 3])), next)
  }

  lemma {:induction false} SkipPastMark(s: Str, pos: nat, mark: Str)
    requires ZeroEnded(s) && pos < |s| && |mark| > 0 && NUL !in mark
    requires SkipPast(s, pos, mark).Ok?
    ensures SkipPast(s, pos, mark).next >= pos + |mark|
    ensures At(s, SkipPast(s, pos, mark).next - |mark|, mark)
    decreases |s| - pos
  {
    if At(s, pos, mark) {
    } else {
      SkipPastMark(s, pos + 1, mark);
    }
  }

  /** Whether "?xml" and a white-space character follow, in any case. */
  predicate IsDeclaration(s: Str, pos: nat)
    requires ZeroEnded(s) && pos < |s|
  {
    && (s[pos] == 'x' || s[pos] == 'X')
    && (s[pos + 1] == 'm' || s[pos + 1] == 'M')
    && (s[pos + 2] == 'l' || s[pos + 2] == 'L')
    && Whitespace.Test(s[pos + 3])
  }

  /** After "<?": a declaration or an instruction. */
  function InstructionAt(s: Str, pos: nat): (r: Res<Option<Node>>)
    requires ZeroEnded(s) && pos < |s|
    ensures r.Ok? ==> pos < r.next < |s| && r.value.None?
  {
    if IsDeclaration(s, pos) then Nothing(SkipPast(s, pos + 4, "?>")) else Nothing(SkipPast(s, pos, "?>"))
  }

  /** From the '!' of "<!": a comment, character data, a document type, or unknown markup. */
  function DeclaredAt(s: Str, pos: nat): (r: Res<Option<Node>>)
    requires ZeroEnded(s) && pos < |s| && s[pos] == '!'
    ensures r.Ok? ==> pos < r.next < |s|
    ensures r.Ok? && r.value.Some? ==> r.value.value.Cdata?
  {
    if At(s, pos + 1, "--") then
      AtIndex(s, pos + 1, "--", 1);
      Nothing(SkipPast(s, pos + 3, "-->"))
    else if At(s, pos + 1, "[CDATA[") then
      AtIndex(s, pos + 1, "[CDATA[", 6);
      CdataNode(s, pos + 8)
    else if IsDoctype(s, pos) then Nothing(SkipDoctype(s, pos + 9))
    else Nothing(SkipPast(s, pos + 1, ">"))
  }

  /** `parse_node`: what follows a '<'. Declarations, instructions, comments, document types and
      unknown markup are skipped. */
  function NodeAt(s: Str, pos: nat): (r: Res<Option<Node>>)
    requires ZeroEnded(s) && pos < |s|
    ensures r.Ok? ==> pos < r.next < |s|
    ensures r.Ok? && r.value.Some? ==> !r.value.value.Data?
    decreases |s| - pos, 2
  {
    if s[pos] == '?' then InstructionAt(s, pos + 1)
    else if s[pos] == '!' then DeclaredAt(s, pos)
    else
      var element := ElementAt(s, pos);
      if element.Bad? then Bad(element.what, element.at) else Ok(Some(element.value), element.next)
  }

  /** Whether "!DOCTYPE" and a white-space character stand at pos. */
  predicate IsDoctype(s: Str, pos: nat): (r: bool)
    requires ZeroEnded(s) && pos < |s|
    ensures r ==> pos + 9 < |s|
  {
    if At(s, pos + 1, "DOCTYPE") then
      AtIndex(s, pos + 1, "DOCTYPE", 6);
      Whitespace.Test(s[pos + 8])
    else false
  }

  /** `parse_element` */
  function ElementAt(s: Str, pos: nat): (r: Res<Node>)
    requires ZeroEnded(s) && pos < |s|
    ensures r.Ok? ==> pos < r.next < |s| && r.value.Element?
    decreases |s| - pos, 1
  {
    var nameEnd := Skip(s, pos, NodeName);
    if nameEnd == pos then Bad(EXPECTED_NAME, pos)
    else
      var attributes := Attributes(s, Skip(s, nameEnd, Whitespace));
      if attributes.Bad? then Bad(attributes.what, attributes.at)
      else
        var body := Body(s, attributes.next);
        if body.Bad? then Bad(body.what, body.at)
        else Ok(Element(s[pos..nameEnd], ElementValue([], body.value), attributes.value, body.value), body.next)
  }

  /** Lines 2055-2069: the end of the opening tag, and what it opens. */
  function Body(s: Str, pos: nat): (r: Res<seq<Node>>)
    requires ZeroEnded(s) && pos < |s|
    ensures r.Ok? ==> pos < r.next < |s|
    decreases |s| - pos, 1
  {
    if s[pos] == '>' then Contents(s, pos + 1)
    else if s[pos] == '/' then
      if s[pos + 1] != '>' then Bad(EXPECTED_GREATER, pos + 1) else Ok([], pos + 2)
    else Bad(EXPECTED_GREATER, pos)
  }

  function Listed(node: Option<Node>): seq<Node> {
    match node
    case None => []
    case Some(n) => [n]
  }

  /** `parse_node_contents`: the children up to the closing tag, whose name is not compared. */
  function Contents(s: Str, pos: nat): (r: Res<seq<Node>>)
    requires ZeroEnded(s) && pos < |s|
    ensures r.Ok? ==> pos < r.next < |s|
    decreases |s| - pos, 0
  {
    var start := Skip(s, pos, Whitespace);
    if s[start] == '<' then
      if s[start + 1] == '/' then Closing(s, start + 2)
      else
        match NodeAt(s, start + 1)
        case Bad(what, at) => Bad(what, at)
        case Ok(node, next) => Join(Listed(node), Contents(s, next))
    else if s[start] == NUL then Bad(END_OF_DATA, start)
    else
      match Expand(s, pos, pos, Text)
      case Bad(what, at) => Bad(what, at)
      case Ok(value, next) =>
        assert Text.Test(s[pos]);
        Join([Data(value)], Contents(s, next))
  }

  /** The rest of a closing tag. */
  function Closing(s: Str, pos: nat): (r: Res<seq<Node>>)
    requires ZeroEnded(s) && pos < |s|
    ensures r.Ok? ==> pos < r.next < |s| && r.value == []
  {
    var end := Skip(s, Skip(s, pos, NodeName), Whitespace);
    if s[end] != '>' then Bad(EXPECTED_GREATER, end) else Ok([], end + 1)
  }

  // ----- Documents ---------------------------------------------------------------------------------------

  function SkipBom(s: Str): (pos: nat)
    requires ZeroEnded(s)
    ensures pos < |s|
  {
    if At(s, 0, [Byte(0xEF), Byte(0xBB), Byte(0xBF)]) then
      AtIndex(s, 0, [Byte(0xEF), Byte(0xBB), Byte(0xBF)], 2);
      3
    else 0
  }

  /** `xml_document::parse`: the top-level nodes. */
  function TopNodes(s: Str, pos: nat): (r: Res<seq<Node>>)
    requires ZeroEnded(s) && pos < |s|
    ensures r.Ok? ==> pos <= r.next < |s|
    decreases |s| - pos
  {
    var start := Skip(s, pos, Whitespace);
    if s[start] == NUL then Ok([], start)
    else if s[start] == '<' then
      match NodeAt(s, start + 1)
      case Bad(what, at) => Bad(what, at)
      case Ok(node, next) => Join(Listed(node), TopNodes(s, next))
    else Bad(EXPECTED_LESS, start)
  }

  function Document(s: Str): Res<seq<Node>>
    requires ZeroEnded(s)
  {
    TopNodes(s, SkipBom(s))
  }
}
