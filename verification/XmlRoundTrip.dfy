/** Parsing what was printed: what comes back of any tree whose names and character data can be printed at
    all, and that printable trees come back as they were. */
module XmlRoundTrip {
  import opened XmlText
  import opened XmlReferences
  import opened XmlParser
  import opened XmlPrinter

  // ----- Escaping --------------------------------------------------------------------------------------

  predicate Kept(noexpand: Ch) {
    noexpand == NUL || noexpand == '\'' || noexpand == '"'
  }

  /** The printer's three contexts, and the table the parser reads each with. */
  predicate Context(noexpand: Ch, stop: Table) {
    || (noexpand == NUL && stop == Text)
    || (noexpand == '"' && stop == AttributeValue('\''))
    || (noexpand == '\'' && stop == AttributeValue('"'))
  }

  lemma {:induction false} TailMatches(s: Str, pos: nat, w: Str)
    requires ZeroEnded(s) && At(s, pos, "&" + w) && |w| > 0 && w[|w| - 1] == ';'
    ensures Matches(s, pos + 1, w) && s[pos] == '&' && s[pos + 1] == w[0]
  {
    AtSplit(s, pos, "&", w);
    AtIndex(s, pos, "&", 0);
    AtIndex(s, pos + 1, w, 0);
  }

  lemma {:induction false} OtherEntity(s: Str, pos: nat, w: Str, k: nat)
    requires ZeroEnded(s) && |w| > 0 && w[|w| - 1] == ';' && k < |w| && pos + k < |s| && s[pos + k] != w[k]
    ensures !Matches(s, pos, w)
  {
    AtAll(s, pos, w);
  }

  /** One escaped character is one step of the parser's translation. */
  lemma {:induction false} CharBack(s: Str, pos: nat, c: Ch, noexpand: Ch, dest: nat)
    requires ZeroEnded(s) && Kept(noexpand) && c != NUL && At(s, pos, EscapeChar(c, noexpand))
    ensures pos + |EscapeChar(c, noexpand)| < |s| && s[pos] != NUL
    ensures StepAt(s, pos, dest) == Ok([c], pos + |EscapeChar(c, noexpand)|)
    ensures s[pos] == EscapeChar(c, noexpand)[0]
  {
    hide NumericAt;
    var e := EscapeChar(c, noexpand);
    AtIndex(s, pos, e, 0);
    AtIndex(s, pos, e, |e| - 1);
    if e != [c] {
      EntityBack(s, pos, c, e);
    } else {
      assert c != '&';
    }
  }

  lemma {:induction false} EntityBack(s: Str, pos: nat, c: Ch, e: Str)
    requires ZeroEnded(s) && At(s, pos, e) && e != [c] && (e == EscapeChar(c, NUL))
    ensures s[pos] == '&' && EntityAt(s, pos) == Some((c, |e|))
  {
    hide At, Matches;
    var w := e[1..];
    assert e == "&" + w;
    TailMatches(s, pos, w);
    if c == '\'' {
      AtIndex(s, pos, e, 2);
      OtherEntity(s, pos + 1, "amp;", 1);
    } else if c != '&' {
      OtherEntity(s, pos + 1, "amp;", 0);
      OtherEntity(s, pos + 1, "apos;", 0);
      if c != '"' {
        OtherEntity(s, pos + 1, "quot;", 0);
        if c != '>' {
          OtherEntity(s, pos + 1, "gt;", 0);
        }
      }
    }
  }

  /** No raw '<' or '>' is ever printed from a string, nor the quote around it; each '&' starts a
      reference that the parser knows. */
  lemma {:induction false} EscapeIsSafe(v: Str, noexpand: Ch, stop: Table)
    requires Context(noexpand, stop) && NUL !in v
    ensures forall k :: 0 <= k < |Escape(v, noexpand)| ==> Safe(Escape(v, noexpand)[k], stop)
    ensures '<' !in Escape(v, noexpand) && '>' !in Escape(v, noexpand)
  {
    hide EscapeChar, Context, Safe;
    if v != [] {
      CharIsSafe(v[0], noexpand, stop);
      EscapeIsSafe(v[1..], noexpand, stop);
    }
    assert forall k :: 0 <= k < |Escape(v, noexpand)| ==> Safe(Escape(v, noexpand)[k], stop);
    SafeText(Escape(v, noexpand), stop);
  }

  /** Part of the text that the parser reads on with. */
  predicate Safe(c: Ch, stop: Table) {
    stop.Test(c) && c != '<' && c != '>'
  }

  lemma SafeText(w: Str, stop: Table)
    requires forall k :: 0 <= k < |w| ==> Safe(w[k], stop)
    ensures '<' !in w && '>' !in w
  {
  }

  lemma CharIsSafe(c: Ch, noexpand: Ch, stop: Table)
    requires Context(noexpand, stop) && c != NUL
    ensures forall k :: 0 <= k < |EscapeChar(c, noexpand)| ==> Safe(EscapeChar(c, noexpand)[k], stop)
  {
  }

  /** The quote that the printer puts around a value occurs in the printed value only as the two ends. */
  lemma {:induction false} QuoteIsNeverRaw(value: Str)
    requires NUL !in value
    ensures QuoteFor(value) !in Escape(value, OtherQuote(value))
  {
    hide Escape;
    EscapeIsSafe(value, OtherQuote(value), AttributeValue(QuoteFor(value)));
    var w := Escape(value, OtherQuote(value));
    assert forall k :: 0 <= k < |w| ==> Safe(w[k], AttributeValue(QuoteFor(value)));
  }

  lemma {:induction false} FirstPasses(c: Ch, noexpand: Ch, stop: Table)
    requires Context(noexpand, stop) && c != NUL
    ensures stop.Test(EscapeChar(c, noexpand)[0])
  {
  }

  /** Wherever an escaped string stands in a text, the parser's translation reads the string back and
      goes on after it. */
  lemma {:induction false} UnescapeEscape(s: Str, pos: nat, dest: nat, v: Str, noexpand: Ch, stop: Table)
    requires ZeroEnded(s) && pos < |s| && Context(noexpand, stop) && NUL !in v && At(s, pos, Escape(v, noexpand))
    ensures pos + |Escape(v, noexpand)| < |s|
    ensures Expand(s, pos, dest, stop) == Join(v, Expand(s, pos + |Escape(v, noexpand)|, dest + |v|, stop))
    decreases |v|
  {
    hide At, Expand, StepAt, EscapeChar;
    if v == [] {
      JoinNothing(Expand(s, pos, dest, stop));
    } else {
      var e, rest := EscapeChar(v[0], noexpand), Escape(v[1..], noexpand);
      AtSplit(s, pos, e, rest);
      CharBack(s, pos, v[0], noexpand, dest);
      FirstPasses(v[0], noexpand, stop);
      UnescapeEscape(s, pos + |e|, dest + 1, v[1..], noexpand, stop);
      ExpandStep(s, pos, dest, stop);
      JoinAssociates([v[0]], v[1..], Expand(s, pos + |e| + |rest|, dest + |v|, stop));
      assert v == [v[0]] + v[1..];
    }
  }

  lemma {:induction false} EscapeJoins(v: Str, w: Str, noexpand: Ch)
    ensures Escape(v + w, noexpand) == Escape(v, noexpand) + Escape(w, noexpand)
    decreases |v|
  {
    hide EscapeChar;
    if v == [] {
      assert v + w == w;
    } else {
      EscapeJoins(v[1..], w, noexpand);
      assert (v + w)[1..] == v[1..] + w;
      Regroup(EscapeChar(v[0], noexpand), Escape(v[1..], noexpand), Escape(w, noexpand));
    }
  }

  // ----- The printed text, literally ----------------------------------------------------------------------

  /** No character of w is written as a reference. */
  predicate IsPlain(w: Str) {
    forall k :: 0 <= k < |w| ==> w[k] != '<' && w[k] != '>' && w[k] != '&' && w[k] != '"' && w[k] != '\''
  }

  /** The five characters that are, but for the one that may stand. */
  lemma {:induction false} EscapedCharacters(noexpand: Ch)
    requires Kept(noexpand)
    ensures Escape("<", noexpand) == "&lt;" && Escape(">", noexpand) == "&gt;" && Escape("&", noexpand) == "&amp;"
    ensures Escape("\"", noexpand) == if noexpand == '"' then "\"" else "&quot;"
    ensures Escape("'", noexpand) == if noexpand == '\'' then "'" else "&apos;"
  {
    OneCharacter('<', noexpand);
    OneCharacter('>', noexpand);
    OneCharacter('&', noexpand);
    OneCharacter('"', noexpand);
    OneCharacter('\'', noexpand);
  }

  lemma {:induction false} OneCharacter(c: Ch, noexpand: Ch)
    ensures Escape([c], noexpand) == EscapeChar(c, noexpand)
  {
    assert Escape([], noexpand) == [];
    assert [c][1..] == [];
  }

  lemma {:induction false} PlainStays(w: Str, noexpand: Ch)
    requires IsPlain(w)
    ensures Escape(w, noexpand) == w
  {
    if w != [] {
      PlainStays(w[1..], noexpand);
    }
  }

  /** Values are put in double quotes, unless they contain one, which then stands as it is. */
  lemma {:induction false} AttributeLiterally(name: Str, value: Str)
    requires IsPlain(value)
    ensures AttributeText(Attribute(name, value)) == " " + name + "=\"" + value + "\""
    ensures var v := value + "\""; AttributeText(Attribute(name, v)) == " " + name + "='" + v + "'"
  {
    hide Escape, AttributeText;
    PlainStays(value, '\'');
    PlainStays(value, '"');
    EscapeJoins(value, "\"", '"');
    EscapedCharacters('"');
    var v := value + "\"";
    assert v[|value|] == '"';
    AttributeInQuotes(name, value, '"');
    AttributeInQuotes(name, v, '\'');
  }

  lemma {:induction false} AttributeInQuotes(name: Str, value: Str, q: Ch)
    requires QuoteFor(value) == q
    ensures AttributeText(Attribute(name, value)) == " " + name + ("=" + [q]) + Escape(value, OtherQuote(value)) + [q]
  {
    hide Escape;
    Regroup(" " + name, "=", [q]);
  }

  /** An element without value and children is one tag; a value is its text only without children. */
  lemma {:induction false} ElementLiterally(name: Str, value: Str, children: seq<Node>)
    requires IsPlain(value)
    ensures NodeText(Element(name, [], [], [])) == "<" + name + "/>"
    ensures value != [] ==> NodeText(Element(name, value, [], [])) == "<" + name + ">" + value + "</" + name + ">"
    ensures children != [] ==>
              NodeText(Element(name, value, [], children)) == "<" + name + ">" + NodesText(children) + "</" + name + ">"
    ensures NodeText(Cdata(value)) == "<![CDATA[" + value + "]]>"
  {
    hide Escape;
    PlainStays(value, NUL);
    assert AttributesText([]) == [];
    assert "<" + name + [] == "<" + name;
    Regroup("<" + name + ">", value, ClosingTag(name));
    Regroup("<" + name + ">", NodesText(children), ClosingTag(name));
    Regroup("<" + name, ">" + value, ClosingTag(name));
    Regroup("<" + name, ">" + NodesText(children), ClosingTag(name));
    Regroup("<" + name, ">", value);
    Regroup("<" + name, ">", NodesText(children));
    Regroup("<" + name + ">" + value, "</" + name, ">");
    Regroup("<" + name + ">" + value, "</", name);
    Regroup("<" + name + ">" + NodesText(children), "</" + name, ">");
    Regroup("<" + name + ">" + NodesText(children), "</", name);
  }

  // ----- Printable trees -------------------------------------------------------------------------------

  predicate All(w: Str, table: Table) {
    forall k :: 0 <= k < |w| ==> table.Test(w[k])
  }

  predicate PrintableAttribute(a: Attribute) {
    a.name != [] && All(a.name, AttributeName) && NUL !in a.value
  }

  predicate PrintableName(name: Str) {
    name != [] && All(name, NodeName) && name[0] != '!'
  }

  /** mark does not stand anywhere in w. */
  predicate Without(w: Str, mark: Str) {
    forall k :: 0 <= k < |w| ==> !At(w, k, mark)
  }

  /** The trees that can be printed at all: names the parser takes as names, no zeros, and no "]]>" in
      character data. The value of an element with children is not printed. */
  predicate Lexical(n: Node) {
    match n
    case Data(value) => NUL !in value
    case Cdata(value) => NUL !in value && Without(value, CDATA_CLOSE)
    case Element(name, value, attributes, children) =>
      && PrintableName(name) && PrintableAttributes(attributes)
      && (children == [] ==> NUL !in value)
      && forall k :: 0 <= k < |children| ==> Lexical(children[k])
  }

  predicate LexicalNodes(ns: seq<Node>) {
    forall k :: 0 <= k < |ns| ==> Lexical(ns[k])
  }

  /** The trees that survive as they are: besides, data that is not only white space and not next to
      other data, and as the value of an element the text of its first data child. */
  predicate Printable(n: Node) {
    match n
    case Data(value) => NUL !in value && !All(value, Whitespace)
    case Cdata(value) => NUL !in value && Without(value, CDATA_CLOSE)
    case Element(name, value, attributes, children) =>
      && PrintableName(name) && PrintableAttributes(attributes)
      && (forall k :: 0 <= k < |children| ==> Printable(children[k]))
      && Separated(children)
      && value == ElementValue([], children)
  }

  /** No two data nodes are neighbours. */
  predicate Separated(ns: seq<Node>) {
    forall k :: 0 < k < |ns| ==> !(ns[k - 1].Data? && ns[k].Data?)
  }

  predicate PrintableAttributes(attributes: seq<Attribute>) {
    forall k :: 0 <= k < |attributes| ==> PrintableAttribute(attributes[k])
  }

  predicate PrintableChildren(ns: seq<Node>) {
    (forall k :: 0 <= k < |ns| ==> Printable(ns[k])) && Separated(ns)
  }

  // ----- What comes back -----------------------------------------------------------------------------------

  /** The data node that comes back from printed text between tags. */
  function Flush(pre: Str): seq<Node> {
    if All(pre, Whitespace) then [] else [Data(pre)]
  }

  /** What comes back of children that text pre stands in front of: neighbouring data is joined, and
      blank data dropped. */
  function NormalNodes(pre: Str, ns: seq<Node>): seq<Node>
    decreases ns, 0
  {
    if ns == [] then Flush(pre)
    else if ns[0].Data? then NormalNodes(pre + ns[0].value, ns[1..])
    else Flush(pre) + ([Normal(ns[0])] + NormalNodes([], ns[1..]))
  }

  /** An element without children is printed with its value as text. */
  function OwnText(n: Node): Str
    requires n.Element?
  {
    if n.children == [] then n.value else []
  }

  function Normal(n: Node): Node
    decreases n, 1
  {
    if n.Element? then
      var kids := NormalNodes(OwnText(n), n.children);
      Element(n.name, ElementValue([], kids), n.attributes, kids)
    else n
  }

  function NormalTop(ns: seq<Node>): seq<Node> {
    if ns == [] then [] else [Normal(ns[0])] + NormalTop(ns[1..])
  }

  // ----- Attributes --------------------------------------------------------------------------------------

  lemma {:induction false} NameBack(s: Str, pos: nat, name: Str, table: Table)
    requires ZeroEnded(s) && At(s, pos, name) && All(name, table) && pos + |name| < |s| && !table.Test(s[pos + |name|])
    ensures Skip(s, pos, table) == pos + |name|
    ensures name != [] ==> Skip(s, pos + 1, table) == pos + |name|
    ensures s[pos..pos + |name|] == name
  {
    forall k | 0 <= k < |name| ensures s[pos + k] == name[k] {
      AtIndex(s, pos, name, k);
    }
    forall k | pos <= k < pos + |name| ensures table.Test(s[k]) {
      assert s[k] == name[k - pos];
    }
    SkipIs(s, pos, table, pos + |name|);
    if name != [] {
      SkipIs(s, pos + 1, table, pos + |name|);
    }
  }

  lemma {:induction false} NoSkip(s: Str, pos: nat)
    requires ZeroEnded(s) && pos < |s| && !Whitespace.Test(s[pos])
    ensures Skip(s, pos, Whitespace) == pos
  {
  }

  /** The quoted value at pos, from its opening quote on. */
  lemma {:induction false} ValueBack(s: Str, pos: nat, value: Str)
    requires ZeroEnded(s) && NUL !in value
    requires At(s, pos, [QuoteFor(value)] + Escape(value, OtherQuote(value)) + [QuoteFor(value)])
    ensures var end := pos + 2 + |Escape(value, OtherQuote(value))|;
            end < |s| && AttributeValueAt(s, pos) == Ok(value, Skip(s, end, Whitespace))
  {
    hide At, Skip, Expand, Escape;
    var q, w := QuoteFor(value), Escape(value, OtherQuote(value));
    Regroup([q], w, [q]);
    AtSplit(s, pos, [q], w + [q]);
    AtSplit(s, pos + 1, w, [q]);
    AtIndex(s, pos, [q], 0);
    AtIndex(s, pos + 1 + |w|, [q], 0);
    NoSkip(s, pos);
    var stop := AttributeValue(q);
    UnescapeEscape(s, pos + 1, pos + 1, value, OtherQuote(value), stop);
    ExpandStep(s, pos + 1 + |w|, pos + 1 + |value|, stop);
    assert value + [] == value;
  }

  lemma {:induction false} AttributeParts(a: Attribute)
    ensures var quoted := [QuoteFor(a.value)] + Escape(a.value, OtherQuote(a.value)) + [QuoteFor(a.value)];
            AttributeText(a) == " " + (a.name + ("=" + quoted))
  {
    hide Escape;
  }

  /** One printed attribute, after its leading space. */
  lemma {:induction false} AttributeBack(s: Str, pos: nat, a: Attribute)
    requires ZeroEnded(s) && PrintableAttribute(a) && At(s, pos, AttributeText(a))
    ensures var end := pos + |AttributeText(a)|;
            && end < |s|
            && s[pos] == ' '
            && AttributeName.Test(s[pos + 1])
            && OneAttribute(s, pos + 1) == Ok(a, Skip(s, end, Whitespace))
  {
    hide At, Skip, Escape, AttributeValueAt, AttributeNameAt, AttributeText, All;
    var quoted := [QuoteFor(a.value)] + Escape(a.value, OtherQuote(a.value)) + [QuoteFor(a.value)];
    AttributeParts(a);
    AtSplit(s, pos, " ", a.name + ("=" + quoted));
    AtSplit(s, pos + 1, a.name, "=" + quoted);
    var equals := pos + 1 + |a.name|;
    AtSplit(s, equals, "=", quoted);
    AtIndex(s, pos, " ", 0);
    AtIndex(s, equals, "=", 0);
    AttributeNameBack(s, pos + 1, a.name);
    ValueBack(s, equals + 1, a.value);
  }

  lemma {:induction false} AttributeNameBack(s: Str, pos: nat, name: Str)
    requires ZeroEnded(s) && name != [] && All(name, AttributeName) && At(s, pos, name)
    requires pos + |name| < |s| && s[pos + |name|] == '='
    ensures AttributeName.Test(s[pos]) && AttributeNameAt(s, pos) == Ok(name, pos + |name| + 1)
  {
    hide At, Skip;
    AtIndex(s, pos, name, 0);
    NameBack(s, pos, name, AttributeName);
    NoSkip(s, pos + |name|);
  }

  lemma {:induction false} AttributesBack(s: Str, pos: nat, attributes: seq<Attribute>)
    requires ZeroEnded(s) && PrintableAttributes(attributes) && At(s, pos, AttributesText(attributes))
    requires var end := pos + |AttributesText(attributes)|; end < |s| && (s[end] == '/' || s[end] == '>')
    ensures Attributes(s, Skip(s, pos, Whitespace)) == Ok(attributes, pos + |AttributesText(attributes)|)
    decreases |attributes|
  {
    hide At, AttributeText, PrintableAttribute, OneAttribute, Skip;
    if attributes == [] {
      NoSkip(s, pos);
    } else {
      var a, rest := attributes[0], attributes[1..];
      AtSplit(s, pos, AttributeText(a), AttributesText(rest));
      AttributeBack(s, pos, a);
      NameStarts(s, pos);
      AttributesBack(s, pos + |AttributeText(a)|, rest);
      assert attributes == [a] + rest;
    }
  }

  lemma {:induction false} NameStarts(s: Str, pos: nat)
    requires ZeroEnded(s) && pos + 1 < |s| && s[pos] == ' ' && AttributeName.Test(s[pos + 1])
    ensures Skip(s, pos, Whitespace) == pos + 1
  {
    SkipIs(s, pos, Whitespace, pos + 1);
  }

  // ----- Character data ----------------------------------------------------------------------------------

  /** The first "]]>" after the value is the printed one, even if the value ends with brackets. */
  lemma {:induction false} MarkFound(s: Str, pos: nat, value: Str)
    requires ZeroEnded(s) && NUL !in value && Without(value, CDATA_CLOSE) && At(s, pos, value + CDATA_CLOSE)
    ensures pos + |value| + 3 < |s| && SkipPast(s, pos, CDATA_CLOSE) == Ok((), pos + |value| + 3)
    decreases |value|
  {
    AtSplit(s, pos, value, CDATA_CLOSE);
    if value == [] {
      AtIndex(s, pos, CDATA_CLOSE, 2);
    } else {
      var rest := value[1..];
      assert value + CDATA_CLOSE == [value[0]] + (rest + CDATA_CLOSE);
      AtSplit(s, pos, [value[0]], rest + CDATA_CLOSE);
      AtIndex(s, pos, [value[0]], 0);
      forall k | 0 <= k < |rest| ensures !At(rest, k, CDATA_CLOSE) {
        assert !At(value, k + 1, CDATA_CLOSE);
        assert k + 3 <= |rest| ==> rest[k..k + 3] == value[k + 1..k + 1 + 3];
      }
      MarkFound(s, pos + 1, rest);
      NotHere(s, pos, value);
    }
  }

  lemma {:induction false} NotHere(s: Str, pos: nat, value: Str)
    requires ZeroEnded(s) && value != [] && Without(value, CDATA_CLOSE) && At(s, pos, value + CDATA_CLOSE)
    ensures !At(s, pos, CDATA_CLOSE)
  {
    if At(s, pos, CDATA_CLOSE) {
      forall k | 0 <= k < 3 ensures (value + CDATA_CLOSE)[k] == CDATA_CLOSE[k] {
        AtIndex(s, pos, CDATA_CLOSE, k);
        AtIndex(s, pos, value + CDATA_CLOSE, k);
      }
      assert (value + CDATA_CLOSE)[2] == CDATA_CLOSE[2];
      if |value| >= 3 {
        assert value[0..3] == CDATA_CLOSE;
        assert At(value, 0, CDATA_CLOSE);
      }
    }
  }

  /** A printed CDATA node, from its '<' on. */
  lemma {:induction false} CdataBack(s: Str, pos: nat, value: Str)
    requires ZeroEnded(s) && Lexical(Cdata(value)) && At(s, pos, NodeText(Cdata(value)))
    ensures var end := pos + |NodeText(Cdata(value))|;
            end < |s| && s[pos] == '<' && s[pos + 1] == '!' && NodeAt(s, pos + 1) == Ok(Some(Cdata(value)), end)
  {
    hide At, Without;
    assert NodeText(Cdata(value)) == CDATA_OPEN + (value + CDATA_CLOSE);
    assert CDATA_OPEN == "<!" + "[CDATA[";
    AtSplit(s, pos, CDATA_OPEN, value + CDATA_CLOSE);
    AtSplit(s, pos, "<!", "[CDATA[");
    AtIndex(s, pos, "<!", 0);
    AtIndex(s, pos, "<!", 1);
    AtIndex(s, pos + 2, "[CDATA[", 0);
    AtSplit(s, pos + 9, value, CDATA_CLOSE);
    MarkFound(s, pos + 9, value);
    if At(s, pos + 2, "--") {
      AtIndex(s, pos + 2, "--", 0);
    }
    AtSlice(s, pos + 9, value);
  }

  lemma {:induction false} AtSlice(s: Str, pos: nat, w: Str)
    requires At(s, pos, w)
    ensures s[pos..pos + |w|] == w
  {
  }

  // ----- Data --------------------------------------------------------------------------------------------

  /** The first character of a printed string that is not white space is neither '<' nor the end. */
  lemma {:induction false} DataStarts(s: Str, pos: nat, value: Str)
    requires ZeroEnded(s) && NUL !in value && !All(value, Whitespace) && At(s, pos, Escape(value, NUL))
    ensures pos < |s| && s[Skip(s, pos, Whitespace)] != '<' && s[Skip(s, pos, Whitespace)] != NUL
    decreases |value|
  {
    hide At, EscapeChar;
    var e, rest := EscapeChar(value[0], NUL), Escape(value[1..], NUL);
    AtSplit(s, pos, e, rest);
    CharBack(s, pos, value[0], NUL, 0);
    EscapedFirst(value[0]);
    if Whitespace.Test(value[0]) {
      assert !All(value[1..], Whitespace) by {
        var k :| 0 <= k < |value| && !Whitespace.Test(value[k]);
        assert value[1..][k - 1] == value[k];
      }
      DataStarts(s, pos + 1, value[1..]);
    }
  }

  lemma {:induction false} EscapedFirst(c: Ch)
    requires c != NUL
    ensures Whitespace.Test(c) ==> EscapeChar(c, NUL) == [c]
    ensures !Whitespace.Test(c) ==> !Whitespace.Test(EscapeChar(c, NUL)[0])
    ensures EscapeChar(c, NUL)[0] != '<'
  {
  }

  /** A printed data node that a '<' follows. */
  lemma {:induction false} DataBack(s: Str, pos: nat, value: Str, rest: Res<seq<Node>>)
    requires ZeroEnded(s) && NUL !in value && !All(value, Whitespace) && At(s, pos, Escape(value, NUL))
    requires var end := pos + |Escape(value, NUL)|; end < |s| && s[end] == '<' && Contents(s, end) == rest
    ensures Contents(s, pos) == Join([Data(value)], rest)
  {
    hide At, Escape, Expand;
    DataStarts(s, pos, value);
    var end := pos + |Escape(value, NUL)|;
    UnescapeEscape(s, pos, pos, value, NUL, Text);
    ExpandStep(s, end, pos + |value|, Text);
    assert value + [] == value;
    assert Expand(s, pos, pos, Text) == Ok(value, end);
  }

  lemma {:induction false} BlankEscape(v: Str)
    requires All(v, Whitespace)
    ensures Escape(v, NUL) == v
  {
    if v != [] {
      assert All(v[1..], Whitespace);
      BlankEscape(v[1..]);
    }
  }

  /** White space in front of a '<' is skipped. */
  lemma {:induction false} BlankBack(s: Str, pos: nat, v: Str)
    requires ZeroEnded(s) && All(v, Whitespace) && At(s, pos, v) && pos + |v| < |s| && s[pos + |v|] == '<'
    ensures Contents(s, pos) == Contents(s, pos + |v|)
  {
    hide At, NodeAt, Closing, Expand;
    NameBack(s, pos, v, Whitespace);
    NoSkip(s, pos + |v|);
  }

  /** Printed text that a '<' follows. */
  lemma {:induction false} FlushBack(s: Str, pos: nat, pre: Str, rest: seq<Node>, next: nat)
    requires ZeroEnded(s) && NUL !in pre && At(s, pos, Escape(pre, NUL))
    requires var end := pos + |Escape(pre, NUL)|; end < |s| && s[end] == '<' && Contents(s, end) == Ok(rest, next)
    ensures Contents(s, pos) == Ok(Flush(pre) + rest, next)
  {
    hide At, Contents, Escape;
    if All(pre, Whitespace) {
      BlankEscape(pre);
      BlankBack(s, pos, pre);
      assert [] + rest == rest;
    } else {
      DataBack(s, pos, pre, Ok(rest, next));
    }
  }

  // ----- Elements ------------------------------------------------------------------------------------------

  /** What follows "</". */
  lemma {:induction false} ClosingNameBack(s: Str, pos: nat, name: Str)
    requires ZeroEnded(s) && PrintableName(name) && At(s, pos, name + ">")
    ensures pos + |name| + 1 < |s| && Closing(s, pos) == Ok([], pos + |name| + 1)
  {
    hide At, Skip, All;
    AtSplit(s, pos, name, ">");
    AtIndex(s, pos + |name|, ">", 0);
    NameBack(s, pos, name, NodeName);
    NoSkip(s, pos + |name|);
  }

  lemma {:induction false} ClosingBack(s: Str, pos: nat, name: Str)
    requires ZeroEnded(s) && PrintableName(name) && At(s, pos, ClosingTag(name))
    ensures var end := pos + |ClosingTag(name)|;
            end < |s| && s[pos] == '<' && Contents(s, pos) == Ok([], end)
  {
    hide At, Skip, NodeAt, Expand, PrintableName, Closing;
    assert ClosingTag(name) == "</" + (name + ">");
    AtSplit(s, pos, "</", name + ">");
    AtIndex(s, pos, "</", 0);
    AtIndex(s, pos, "</", 1);
    ClosingNameBack(s, pos + 2, name);
    NoSkip(s, pos);
  }

  /** A printed opening tag up to its end, which is '/' or '>'. */
  lemma {:induction false} HeadBack(s: Str, pos: nat, name: Str, attributes: seq<Attribute>)
    requires ZeroEnded(s) && PrintableName(name) && PrintableAttributes(attributes)
    requires At(s, pos, "<" + name + AttributesText(attributes))
    requires var end := pos + 1 + |name| + |AttributesText(attributes)|; end < |s| && (s[end] == '/' || s[end] == '>')
    ensures s[pos] == '<' && s[pos + 1] == name[0]
    ensures var nameEnd := pos + 1 + |name|;
            && Skip(s, pos + 1, NodeName) == nameEnd && s[pos + 1..nameEnd] == name
            && Attributes(s, Skip(s, nameEnd, Whitespace)) == Ok(attributes, nameEnd + |AttributesText(attributes)|)
  {
    hide At, Skip, AttributesText, PrintableAttribute, Attributes, All;
    var text := AttributesText(attributes);
    Regroup("<", name, text);
    AtSplit(s, pos, "<", name + text);
    AtSplit(s, pos + 1, name, text);
    AtIndex(s, pos, "<", 0);
    AtIndex(s, pos + 1, name, 0);
    NameEnds(s, pos + 1 + |name|, attributes);
    NameBack(s, pos + 1, name, NodeName);
    AttributesBack(s, pos + 1 + |name|, attributes);
  }

  lemma {:induction false} NameEnds(s: Str, pos: nat, attributes: seq<Attribute>)
    requires ZeroEnded(s) && At(s, pos, AttributesText(attributes))
    requires var end := pos + |AttributesText(attributes)|; end < |s| && (s[end] == '/' || s[end] == '>')
    ensures !NodeName.Test(s[pos])
  {
    hide At, AttributesText;
    AttributesStart(attributes);
    if AttributesText(attributes) != [] {
      AtIndex(s, pos, AttributesText(attributes), 0);
    }
  }

  lemma {:induction false} AttributesStart(attributes: seq<Attribute>)
    ensures AttributesText(attributes) != [] ==> AttributesText(attributes)[0] == ' '
  {
  }

  /** An element with neither value nor children. */
  lemma {:induction false} ChildlessBack(s: Str, pos: nat, name: Str, attributes: seq<Attribute>)
    requires ZeroEnded(s) && PrintableName(name) && PrintableAttributes(attributes)
    requires At(s, pos, "<" + name + AttributesText(attributes) + "/>")
    ensures var end := pos + 3 + |name| + |AttributesText(attributes)|;
            end < |s| && s[pos] == '<' && s[pos + 1] == name[0]
            && NodeAt(s, pos + 1) == Ok(Some(Element(name, [], attributes, [])), end)
  {
    hide At, Skip, AttributesText, PrintableAttribute, PrintableAttributes, PrintableName, Attributes, NodeAt, ElementAt;
    hide Body, ElementValue;
    var head := "<" + name + AttributesText(attributes);
    AtSplit(s, pos, head, "/>");
    AtIndex(s, pos + |head|, "/>", 0);
    AtIndex(s, pos + |head|, "/>", 1);
    HeadBack(s, pos, name, attributes);
    EmptyValue();
    NoBody(s, pos + |head|);
    ElementFound(s, pos + 1, name, attributes, pos + |head|, [], pos + |head| + 2);
  }

  lemma {:induction false} NoBody(s: Str, pos: nat)
    requires ZeroEnded(s) && pos + 1 < |s| && s[pos] == '/' && s[pos + 1] == '>'
    ensures Body(s, pos) == Ok([], pos + 2)
  {
  }

  /** An element whose head and body have been read. */
  lemma {:induction false} ElementFound(s: Str, pos: nat, name: Str, attributes: seq<Attribute>, mid: nat,
                                        children: seq<Node>, end: nat)
    requires ZeroEnded(s) && PrintableName(name) && pos + |name| < |s| && s[pos] == name[0]
    requires Skip(s, pos, NodeName) == pos + |name| && s[pos..pos + |name|] == name
    requires mid < |s| && Attributes(s, Skip(s, pos + |name|, Whitespace)) == Ok(attributes, mid)
    requires Body(s, mid) == Ok(children, end)
    ensures NodeAt(s, pos) == Ok(Some(Element(name, ElementValue([], children), attributes, children)), end)
  {
    hide Skip, Attributes, Body, ElementValue, InstructionAt, DeclaredAt;
    assert NodeName.Test(name[0]);
  }

  /** An element with children that are read back. */
  lemma {:induction false} ParentBack(s: Str, pos: nat, name: Str, attributes: seq<Attribute>, children: seq<Node>,
                                      text: Str)
    requires ZeroEnded(s) && PrintableName(name) && PrintableAttributes(attributes)
    requires At(s, pos, "<" + name + AttributesText(attributes) + ">" + text)
    requires var start := pos + 2 + |name| + |AttributesText(attributes)|;
             start < |s| && Contents(s, start) == Ok(children, start + |text|)
    ensures var end := pos + 2 + |name| + |AttributesText(attributes)| + |text|;
            s[pos] == '<' && s[pos + 1] == name[0]
            && NodeAt(s, pos + 1) == Ok(Some(Element(name, ElementValue([], children), attributes, children)), end)
  {
    hide At, Skip, AttributesText, PrintableAttribute, PrintableAttributes, PrintableName, Attributes, Contents, ElementValue;
    hide NodeAt, ElementAt;
    var head := "<" + name + AttributesText(attributes);
    Regroup(head, ">", text);
    AtSplit(s, pos, head, ">" + text);
    AtIndex(s, pos + |head|, ">" + text, 0);
    HeadBack(s, pos, name, attributes);
    var end := pos + |head| + 1 + |text|;
    ElementFound(s, pos + 1, name, attributes, pos + |head|, children, end);
  }

  /** A printed element or CDATA node, from its '<' on. */
  lemma {:induction false} NodeBack(s: Str, pos: nat, n: Node)
    requires ZeroEnded(s) && Lexical(n) && !n.Data? && At(s, pos, NodeText(n))
    ensures var end := pos + |NodeText(n)|;
            end < |s| && s[pos] == '<' && s[pos + 1] != '/' && NodeAt(s, pos + 1) == Ok(Some(Normal(n)), end)
    decreases n, 1
  {
    hide At, AttributesText, NodeAt, ElementValue, NodeText, ClosingTag, NodesText, Contents, Escape;
    hide PrintableName, PrintableAttributes, LexicalNodes, Lexical, NormalNodes;
    if n.Cdata? {
      CdataBack(s, pos, n.value);
      return;
    }
    Parts(n);
    NameStart(n.name);
    if n.children == [] && n.value == [] {
      EmptyValue();
      ChildlessText(n);
      ChildlessBack(s, pos, n.name, n.attributes);
    } else {
      var head, text := "<" + n.name + AttributesText(n.attributes), InnerText(n);
      ParentText(n);
      AtSplit(s, pos, head + ">", text);
      ContentsBack(s, pos + |head| + 1, OwnText(n), n.children, n.name);
      ParentBack(s, pos, n.name, n.attributes, NormalNodes(OwnText(n), n.children), text);
    }
  }

  /** What stands between the opening tag and the end of the element. */
  function InnerText(n: Node): Str
    requires n.Element?
  {
    Escape(OwnText(n), NUL) + (NodesText(n.children) + ClosingTag(n.name))
  }

  lemma {:induction false} NameStart(name: Str)
    requires PrintableName(name)
    ensures name != [] && name[0] != '/'
  {
    assert NodeName.Test(name[0]);
  }

  lemma {:induction false} Parts(n: Node)
    requires Lexical(n) && n.Element?
    ensures PrintableName(n.name) && PrintableAttributes(n.attributes) && LexicalNodes(n.children)
    ensures NUL !in OwnText(n)
  {
  }

  lemma {:induction false} EmptyValue()
    ensures ElementValue([], []) == [] && NormalNodes([], []) == []
  {
  }

  lemma {:induction false} ChildlessText(n: Node)
    requires n.Element? && n.children == [] && n.value == []
    ensures NodeText(n) == "<" + n.name + AttributesText(n.attributes) + "/>"
  {
  }

  lemma {:induction false} InnerTextIs(n: Node)
    requires n.Element?
    ensures InnerText(n) == (if n.children == [] then Escape(n.value, NUL) else NodesText(n.children)) + ClosingTag(n.name)
  {
    hide ClosingTag;
    if n.children == [] {
      NoText(ClosingTag(n.name));
    } else {
      NothingFirst(NodesText(n.children) + ClosingTag(n.name));
    }
  }

  lemma {:induction false} ParentText(n: Node)
    requires n.Element? && (n.children != [] || n.value != [])
    ensures NodeText(n) == "<" + n.name + AttributesText(n.attributes) + ">" + InnerText(n)
  {
    hide AttributesText, ClosingTag, NodesText, Escape, InnerText;
    InnerTextIs(n);
    var head, closing := "<" + n.name + AttributesText(n.attributes), ClosingTag(n.name);
    var inner := if n.children == [] then Escape(n.value, NUL) else NodesText(n.children);
    Regroup(">", inner, closing);
    Regroup(head, ">", inner + closing);
  }

  /** Printed text, children and the closing tag after them. */
  lemma {:induction false} ContentsBack(s: Str, pos: nat, pre: Str, ns: seq<Node>, name: Str)
    requires ZeroEnded(s) && LexicalNodes(ns) && PrintableName(name) && NUL !in pre
    requires At(s, pos, Escape(pre, NUL) + (NodesText(ns) + ClosingTag(name)))
    ensures var end := pos + |Escape(pre, NUL)| + |NodesText(ns)| + |ClosingTag(name)|;
            end < |s| && Contents(s, pos) == Ok(NormalNodes(pre, ns), end)
    decreases ns, 0
  {
    hide At, Contents, NodeAt, NodeText, ClosingTag, Lexical, LexicalNodes, PrintableName, NodesText, Escape, Skip, Normal;
    var text, after := Escape(pre, NUL), NodesText(ns) + ClosingTag(name);
    var mid := pos + |text|;
    AtSplit(s, pos, text, after);
    if ns == [] {
      NoText(ClosingTag(name));
      ClosingBack(s, mid, name);
      FlushBack(s, pos, pre, [], mid + |after|);
      assert Flush(pre) + [] == Flush(pre);
    } else {
      var n, rest := ns[0], ns[1..];
      FirstText(ns, ClosingTag(name));
      LexicalRest(ns);
      if n.Data? {
        DataText(n.value);
        EscapeJoins(pre, n.value, NUL);
        Regroup(text, NodeText(n), NodesText(rest) + ClosingTag(name));
        LexicalData(n);
        ContentsBack(s, pos, pre + n.value, rest, name);
      } else {
        AtSplit(s, mid, NodeText(n), NodesText(rest) + ClosingTag(name));
        NodeBack(s, mid, n);
        var next := mid + |NodeText(n)|;
        NothingFirst(NodesText(rest) + ClosingTag(name));
        ContentsBack(s, next, [], rest, name);
        ChildFirst(s, mid, Normal(n), next);
        FlushBack(s, pos, pre, [Normal(n)] + NormalNodes([], rest), mid + |after|);
      }
    }
  }

  lemma {:induction false} NothingFirst(tail: Str)
    ensures Escape([], NUL) + tail == tail && |Escape([], NUL)| == 0
  {
  }

  lemma {:induction false} LexicalData(n: Node)
    requires Lexical(n) && n.Data?
    ensures NUL !in n.value
  {
  }

  lemma {:induction false} NoText(tail: Str)
    ensures NodesText([]) + tail == tail
  {
  }

  lemma {:induction false} FirstText(ns: seq<Node>, tail: Str)
    requires ns != []
    ensures NodesText(ns) + tail == NodeText(ns[0]) + (NodesText(ns[1..]) + tail)
    ensures |NodesText(ns)| == |NodeText(ns[0])| + |NodesText(ns[1..])|
  {
    hide NodeText;
  }

  lemma {:induction false} LexicalRest(ns: seq<Node>)
    requires LexicalNodes(ns) && ns != []
    ensures Lexical(ns[0]) && LexicalNodes(ns[1..])
  {
    hide Lexical;
  }

  lemma {:induction false} DataText(value: Str)
    ensures NodeText(Data(value)) == Escape(value, NUL)
  {
  }

  /** The pure parser finds a child that starts here. */
  lemma {:induction false} ChildFirst(s: Str, pos: nat, n: Node, next: nat)
    requires ZeroEnded(s) && pos + 1 < |s| && s[pos] == '<' && s[pos + 1] != '/' && NodeAt(s, pos + 1) == Ok(Some(n), next)
    ensures Contents(s, pos) == Join([n], Contents(s, next))
    ensures TopNodes(s, pos) == Join([n], TopNodes(s, next))
  {
    hide NodeAt, Skip, Expand, Closing;
    NoSkip(s, pos);
  }

  // ----- Documents -----------------------------------------------------------------------------------------

  /** The nodes that may stand at the top of a document. */
  predicate LexicalTop(ns: seq<Node>) {
    forall k :: 0 <= k < |ns| ==> Lexical(ns[k]) && !ns[k].Data?
  }

  predicate PrintableTop(ns: seq<Node>) {
    forall k :: 0 <= k < |ns| ==> Printable(ns[k]) && !ns[k].Data?
  }

  lemma {:induction false} TopBack(s: Str, pos: nat, ns: seq<Node>)
    requires ZeroEnded(s) && LexicalTop(ns) && At(s, pos, NodesText(ns))
    requires pos + |NodesText(ns)| < |s| && s[pos + |NodesText(ns)|] == NUL
    ensures TopNodes(s, pos) == Ok(NormalTop(ns), pos + |NodesText(ns)|)
    ensures s[pos] == if ns == [] then NUL else '<'
    decreases |ns|
  {
    hide At, NodeAt, NodeText, Lexical, Skip, Normal;
    if ns == [] {
      NoSkip(s, pos);
    } else {
      var n, rest := ns[0], ns[1..];
      var mid := pos + |NodeText(n)|;
      AtSplit(s, pos, NodeText(n), NodesText(rest));
      NodeBack(s, pos, n);
      TopBack(s, mid, rest);
      TopStep(s, pos, Normal(n), mid, NormalTop(rest), mid + |NodesText(rest)|);
    }
  }

  lemma {:induction false} NoBom(s: Str)
    requires ZeroEnded(s) && (s[0] == '<' || s[0] == NUL)
    ensures SkipBom(s) == 0
  {
    if At(s, 0, [Byte(0xEF), Byte(0xBB), Byte(0xBF)]) {
      AtIndex(s, 0, [Byte(0xEF), Byte(0xBB), Byte(0xBF)], 0);
    }
  }

  /** Parsing a printed document gives its normal form. */
  lemma {:induction false} ParsePrintIsNormal(ns: seq<Node>)
    requires LexicalTop(ns)
    ensures Document(NodesText(ns) + [NUL]) == Ok(NormalTop(ns), |NodesText(ns)|)
  {
    hide TopNodes, NodesText, Lexical;
    var s := NodesText(ns) + [NUL];
    assert s[0..|NodesText(ns)|] == NodesText(ns);
    TopBack(s, 0, ns);
    NoBom(s);
  }

  lemma {:induction false} TopStep(s: Str, pos: nat, n: Node, mid: nat, rest: seq<Node>, end: nat)
    requires ZeroEnded(s) && pos + 1 < |s| && s[pos] == '<' && s[pos + 1] != '/' && NodeAt(s, pos + 1) == Ok(Some(n), mid)
    requires TopNodes(s, mid) == Ok(rest, end)
    ensures TopNodes(s, pos) == Ok([n] + rest, end)
  {
    hide NodeAt, TopNodes;
    ChildFirst(s, pos, n, mid);
  }

  // ----- Normal forms ----------------------------------------------------------------------------------------

  /** Printable trees are in normal form. */
  lemma {:induction false} PrintableIsNormal(n: Node)
    requires Printable(n)
    ensures Lexical(n) && Normal(n) == n
    decreases n, 1
  {
    if n.Element? {
      NormalChildren(n.children);
      assert NormalNodes(OwnText(n), n.children) == n.children;
    }
  }

  lemma {:induction false} NormalChildren(ns: seq<Node>)
    requires PrintableChildren(ns)
    ensures LexicalNodes(ns) && NormalNodes([], ns) == ns
    decreases ns, 0
  {
    hide Printable, Lexical, Normal;
    if ns != [] {
      var n, rest := ns[0], ns[1..];
      PrintableIsNormal(n);
      NormalChildren(rest);
      assert ns == [n] + rest;
      if n.Data? {
        NotBlank(n);
        DataStaysFirst(n.value, rest);
      } else {
        assert Flush([]) + ([n] + rest) == [n] + rest;
      }
    }
  }

  lemma {:induction false} NotBlank(n: Node)
    requires Printable(n) && n.Data?
    ensures !All(n.value, Whitespace)
  {
  }

  lemma {:induction false} DataJoins(pre: Str, v: Str, rest: seq<Node>)
    ensures NormalNodes(pre, [Data(v)] + rest) == NormalNodes(pre + v, rest)
  {
    hide Normal;
    assert ([Data(v)] + rest)[1..] == rest;
  }

  lemma {:induction false} DataStaysFirst(v: Str, rest: seq<Node>)
    requires !All(v, Whitespace) && (rest != [] ==> !rest[0].Data?) && NormalNodes([], rest) == rest
    ensures NormalNodes([], [Data(v)] + rest) == [Data(v)] + rest
  {
    hide Normal, All;
    DataJoins([], v, rest);
    assert [] + v == v;
    FlushFirst(v, rest);
    assert Flush(v) == [Data(v)];
  }

  lemma {:induction false} FlushFirst(pre: Str, rest: seq<Node>)
    requires rest != [] ==> !rest[0].Data?
    ensures NormalNodes(pre, rest) == Flush(pre) + NormalNodes([], rest)
  {
    hide Normal;
    assert Flush([]) == [];
    if rest == [] {
      assert Flush(pre) + [] == Flush(pre);
    } else {
      var more := [Normal(rest[0])] + NormalNodes([], rest[1..]);
      assert [] + more == more;
    }
  }

  /** What comes back is printable. */
  lemma {:induction false} NormalIsPrintable(n: Node)
    requires Lexical(n) && !n.Data?
    ensures Printable(Normal(n)) && !Normal(n).Data?
    decreases n, 1
  {
    if n.Element? {
      NormalNodesPrintable(OwnText(n), n.children);
    }
  }

  lemma {:induction false} NormalNodesPrintable(pre: Str, ns: seq<Node>)
    requires LexicalNodes(ns) && NUL !in pre
    ensures PrintableChildren(NormalNodes(pre, ns))
    decreases ns, 0
  {
    hide Lexical, Printable, Normal;
    FlushPrintable(pre);
    if ns != [] {
      var n, rest := ns[0], ns[1..];
      LexicalRest(ns);
      if n.Data? {
        LexicalData(n);
        NormalNodesPrintable(pre + n.value, rest);
      } else {
        NormalIsPrintable(n);
        NormalNodesPrintable([], rest);
      }
    }
  }

  lemma {:induction false} FlushPrintable(pre: Str)
    requires NUL !in pre
    ensures PrintableChildren(Flush(pre)) && |Flush(pre)| <= 1
  {
  }

  lemma {:induction false} TopIsNormal(ns: seq<Node>)
    requires PrintableTop(ns)
    ensures LexicalTop(ns) && NormalTop(ns) == ns
  {
    hide Printable, Lexical, Normal;
    if ns != [] {
      PrintableIsNormal(ns[0]);
      TopIsNormal(ns[1..]);
      assert ns == [ns[0]] + ns[1..];
    }
  }

  lemma {:induction false} NormalTopIsPrintable(ns: seq<Node>)
    requires LexicalTop(ns)
    ensures PrintableTop(NormalTop(ns))
  {
    hide Printable, Lexical, Normal;
    if ns != [] {
      NormalIsPrintable(ns[0]);
      NormalTopIsPrintable(ns[1..]);
    }
  }

  /** Parsing what was printed gives back the printed tree, for every printable tree. */
  lemma {:induction false} ParsePrint(ns: seq<Node>)
    requires PrintableTop(ns)
    ensures Document(NodesText(ns) + [NUL]) == Ok(ns, |NodesText(ns)|)
  {
    TopIsNormal(ns);
    ParsePrintIsNormal(ns);
  }

  /** So different printable trees print differently. */
  lemma {:induction false} PrintIsInjective(a: seq<Node>, b: seq<Node>)
    requires PrintableTop(a) && PrintableTop(b) && NodesText(a) == NodesText(b)
    ensures a == b
  {
    ParsePrint(a);
    ParsePrint(b);
  }

  /** Adjacent data prints exactly like the joined data: no parser could tell them apart. */
  lemma {:induction false} AdjacentDataMerges(v: Str, w: Str, rest: seq<Node>)
    ensures NodesText([Data(v), Data(w)] + rest) == NodesText([Data(v + w)] + rest)
  {
    var two, one := [Data(v), Data(w)] + rest, [Data(v + w)] + rest;
    assert two[1..] == [Data(w)] + rest && two[1..][1..] == rest && one[1..] == rest;
    EscapeJoins(v, w, NUL);
    DataText(v);
    DataText(w);
    DataText(v + w);
  }

  /** The children of an element with a single data child are read back exactly when the data is not
      blank. */
  lemma {:induction false} SoleDataSurvives(s: Str, pos: nat, v: Str, name: Str)
    requires ZeroEnded(s) && PrintableName(name) && NUL !in v
    requires At(s, pos, NodesText([Data(v)]) + ClosingTag(name))
    ensures pos < |s|
    ensures Contents(s, pos).Ok? && Contents(s, pos).value == [Data(v)] <==> !All(v, Whitespace)
  {
    hide At, ClosingTag, Contents, Escape;
    assert [Data(v)][1..] == [];
    DataText(v);
    assert NodesText([Data(v)]) == Escape(v, NUL);
    NothingFirst(NodesText([Data(v)]) + ClosingTag(name));
    ContentsBack(s, pos, [], [Data(v)], name);
    assert [] + v == v;
    assert NormalNodes([], [Data(v)]) == Flush(v);
  }
}
