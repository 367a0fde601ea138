/** rapidxml's printer with print_no_indenting: the text it means to write, and the methods that write
    it one character at a time. */
module XmlPrinter {
  import opened XmlText
  import opened XmlParser

  // ----- The printed text ------------------------------------------------------------------------------

  function EscapeChar(c: Ch, noexpand: Ch): (e: Str)
    ensures e != []
  {
    if c == noexpand then [c]
    else if c == '<' then "&lt;"
    else if c == '>' then "&gt;"
    else if c == '\'' then "&apos;"
    else if c == '"' then "&quot;"
    else if c == '&' then "&amp;"
    else [c]
  }

  function Escape(v: Str, noexpand: Ch): Str {
    if v == [] then [] else EscapeChar(v[0], noexpand) + Escape(v[1..], noexpand)
  }

  /** The quotes put around an attribute value, and the other ones. */
  function QuoteFor(value: Str): Ch {
    if '"' in value then '\'' else '"'
  }

  function OtherQuote(value: Str): Ch {
    if '"' in value then '"' else '\''
  }

  function AttributeText(a: Attribute): Str {
    " " + a.name + "=" + [QuoteFor(a.value)] + Escape(a.value, OtherQuote(a.value)) + [QuoteFor(a.value)]
  }

  function AttributesText(attributes: seq<Attribute>): Str {
    if attributes == [] then [] else AttributeText(attributes[0]) + AttributesText(attributes[1..])
  }

  const CDATA_OPEN: Str := "<![CDATA["
  const CDATA_CLOSE: Str := "]]>"

  function NodeText(n: Node): Str {
    match n
    case Data(value) => Escape(value, NUL)
    case Cdata(value) => CDATA_OPEN + value + CDATA_CLOSE
    case Element(name, value, attributes, children) =>
      "<" + name + AttributesText(attributes)
      + if value == [] && children == [] then "/>"
        else ">" + (if children == [] then Escape(value, NUL) else NodesText(children)) + ClosingTag(name)
  }

  function NodesText(ns: seq<Node>): Str {
    if ns == [] then [] else NodeText(ns[0]) + NodesText(ns[1..])
  }

  function ClosingTag(name: Str): Str {
    "</" + name + ">"
  }

  // ----- Writing it ------------------------------------------------------------------------------------

  /** `copy_chars` */
  method CopyChars(text: Str, out: Str) returns (end: Str)
    ensures end == out + text
  {
    end := out;
    var begin := 0;
    while begin != |text|
      invariant 0 <= begin <= |text| && end == out + text[..begin]
    {
      end := end + [text[begin]];
      begin := begin + 1;
    }
    assert text[..begin] == text;
  }

  lemma {:induction false} EscapeSnoc(v: Str, c: Ch, noexpand: Ch)
    ensures Escape(v + [c], noexpand) == Escape(v, noexpand) + EscapeChar(c, noexpand)
  {
    hide EscapeChar;
    if v == [] {
      assert [c][1..] == [];
      assert Escape([c], noexpand) == EscapeChar(c, noexpand) + Escape([], noexpand);
    } else {
      EscapeSnoc(v[1..], c, noexpand);
      assert (v + [c])[1..] == v[1..] + [c];
      Regroup(EscapeChar(v[0], noexpand), Escape(v[1..], noexpand), EscapeChar(c, noexpand));
    }
  }

  /** Lines 51-77. */
  method CopyOrExpand(c: Ch, noexpand: Ch, out: Str) returns (end: Str)
    ensures end == out + EscapeChar(c, noexpand)
  {
    if c == noexpand {
      end := out + [c];
    } else {
      match c
      case '<' => end := out + ['&', 'l', 't', ';'];
      case '>' => end := out + ['&', 'g', 't', ';'];
      case '\'' => end := out + ['&', 'a', 'p', 'o', 's', ';'];
      case '"' => end := out + ['&', 'q', 'u', 'o', 't', ';'];
      case '&' => end := out + ['&', 'a', 'm', 'p', ';'];
      case _ => end := out + [c];
    }
  }

  /** `copy_and_expand_chars` */
  method CopyAndExpandChars(text: Str, noexpand: Ch, out: Str) returns (end: Str)
    ensures end == out + Escape(text, noexpand)
  {
    hide EscapeChar;
    end := out;
    var begin := 0;
    while begin != |text|
      invariant 0 <= begin <= |text| && end == out + Escape(text[..begin], noexpand)
    {
      EscapeSnoc(text[..begin], text[begin], noexpand);
      assert text[..begin] + [text[begin]] == text[..begin + 1];
      end := CopyOrExpand(text[begin], noexpand, end);
      begin := begin + 1;
    }
    assert text[..begin] == text;
  }

  /** `find_char` */
  method FindChar(text: Str, ch: Ch) returns (found: bool)
    ensures found <==> ch in text
  {
    var begin := 0;
    while begin != |text|
      invariant 0 <= begin <= |text| && ch !in text[..begin]
    {
      begin := begin + 1;
      if text[begin - 1] == ch {
        return true;
      }
    }
    found := false;
  }

  /** The body of the loop of `print_attributes`. */
  method PrintAttribute(a: Attribute, out: Str) returns (end: Str)
    ensures end == out + AttributeText(a)
  {
    hide Escape;
    end := out + [' '];
    end := CopyChars(a.name, end);
    end := end + ['='];
    ghost var start := " " + a.name + "=";
    assert end == out + start;
    var double := FindChar(a.value, '"');
    ghost var quote, text := [QuoteFor(a.value)], Escape(a.value, OtherQuote(a.value));
    if double {
      end := end + ['\''];
      end := CopyAndExpandChars(a.value, '"', end);
      end := end + ['\''];
    } else {
      end := end + ['"'];
      end := CopyAndExpandChars(a.value, '\'', end);
      end := end + ['"'];
    }
    assert end == out + start + quote + text + quote;
    Regroup(out, start, quote);
    Regroup(out, start + quote, text);
    Regroup(out, start + quote + text, quote);
  }

  /** `print_attributes` */
  method PrintAttributes(attributes: seq<Attribute>, out: Str) returns (end: Str)
    ensures end == out + AttributesText(attributes)
  {
    hide AttributeText;
    end := out;
    var k := 0;
    assert attributes[0..] == attributes;
    while k < |attributes|
      invariant 0 <= k <= |attributes|
      invariant out + AttributesText(attributes) == end + AttributesText(attributes[k..])
    {
      ghost var before := end;
      end := PrintAttribute(attributes[k], end);
      assert attributes[k..][1..] == attributes[k + 1..];
      Regroup(before, AttributeText(attributes[k]), AttributesText(attributes[k + 1..]));
      k := k + 1;
    }
    assert attributes[k..] == [];
  }

  /** `print_cdata_node` */
  method PrintCdataNode(value: Str, out: Str) returns (end: Str)
    ensures end == out + NodeText(Cdata(value))
  {
    end := out + ['<', '!', '[', 'C', 'D', 'A', 'T', 'A', '['];
    end := CopyChars(value, end);
    end := end + [']', ']', '>'];
  }

  /** `print_node` */
  method PrintNode(n: Node, out: Str) returns (end: Str)
    ensures end == out + NodeText(n)
    decreases n, 2
  {
    match n
    case Element(_, _, _, _) => end := PrintElementNode(n, out);
    case Data(value) => end := CopyAndExpandChars(value, NUL, out);
    case Cdata(value) => end := PrintCdataNode(value, out);
  }

  /** `print_children` */
  method PrintChildren(children: seq<Node>, out: Str) returns (end: Str)
    ensures end == out + NodesText(children)
    decreases children
  {
    hide NodeText;
    end := out;
    var k := 0;
    assert children[0..] == children;
    while k < |children|
      invariant 0 <= k <= |children|
      invariant out + NodesText(children) == end + NodesText(children[k..])
    {
      ghost var before := end;
      end := PrintNode(children[k], end);
      assert children[k..][1..] == children[k + 1..];
      Regroup(before, NodeText(children[k]), NodesText(children[k + 1..]));
      k := k + 1;
    }
    assert children[k..] == [];
  }

  /** Lines 290-318: what an element with a value or children holds, and its closing tag. */
  method PrintContent(n: Node, out: Str) returns (end: Str)
    requires n.Element?
    ensures end == out + ">" + (if n.children == [] then Escape(n.value, NUL) else NodesText(n.children)) + ClosingTag(n.name)
    decreases n, 0
  {
    hide Escape;
    end := out + ['>'];
    if n.children == [] {
      end := CopyAndExpandChars(n.value, NUL, end);
    } else if |n.children| == 1 && n.children[0].Data? {
      end := CopyAndExpandChars(n.children[0].value, NUL, end);
      assert n.children[1..] == [];
    } else {
      end := PrintChildren(n.children, end);
    }
    end := end + ['<', '/'];
    end := CopyChars(n.name, end);
    end := end + ['>'];
  }

  /** `print_element_node` */
  method PrintElementNode(n: Node, out: Str) returns (end: Str)
    requires n.Element?
    ensures end == out + NodeText(n)
    decreases n, 1
  {
    hide Escape, AttributesText, NodesText, ClosingTag;
    end := CopyChars(n.name, out + ['<']);
    end := PrintAttributes(n.attributes, end);
    if |n.value| == 0 && n.children == [] {
      end := end + ['/', '>'];
    } else {
      end := PrintContent(n, end);
    }
  }
}
