/** What the parser can return, and the trees that survive printing and parsing: exactly the printable
    ones. */
module XmlOutput {
  import opened XmlText
  import opened XmlReferences
  import opened XmlParser
  import opened XmlPrinter
  import opened XmlRoundTrip

  predicate NoZeros(s: Str, from: nat, to: nat) {
    to <= |s| && forall k :: from <= k < to ==> s[k] != NUL
  }

  // ----- Nothing that is parsed holds a zero ---------------------------------------------------------------

  lemma {:induction false} AtNoZeros(s: Str, pos: nat, w: Str)
    requires At(s, pos, w) && NUL !in w
    ensures NoZeros(s, pos, pos + |w|)
  {
    forall k | pos <= k < pos + |w| ensures s[k] != NUL {
      AtIndex(s, pos, w, k - pos);
    }
  }

  lemma {:induction false} SkipPastNoZeros(s: Str, pos: nat, mark: Str)
    requires ZeroEnded(s) && pos < |s| && |mark| > 0 && NUL !in mark && SkipPast(s, pos, mark).Ok?
    ensures NoZeros(s, pos, SkipPast(s, pos, mark).next)
    decreases |s| - pos
  {
    if At(s, pos, mark) {
      AtNoZeros(s, pos, mark);
    } else {
      SkipPastNoZeros(s, pos + 1, mark);
    }
  }

  lemma {:induction false} BracketsNoZeros(s: Str, pos: nat, depth: nat)
    requires ZeroEnded(s) && pos < |s| && SkipBrackets(s, pos, depth).Ok?
    ensures NoZeros(s, pos, SkipBrackets(s, pos, depth).next)
    decreases |s| - pos
  {
    if depth > 0 {
      BracketsNoZeros(s, pos + 1, if s[pos] == '[' then depth + 1 else if s[pos] == ']' then depth - 1 else depth);
    }
  }

  lemma {:induction false} DoctypeNoZeros(s: Str, pos: nat)
    requires ZeroEnded(s) && pos < |s| && SkipDoctype(s, pos).Ok?
    ensures NoZeros(s, pos, SkipDoctype(s, pos).next)
    decreases |s| - pos
  {
    if s[pos] == '>' {
    } else if s[pos] == '[' {
      BracketsNoZeros(s, pos + 1, 1);
      DoctypeNoZeros(s, SkipBrackets(s, pos + 1, 1).next);
    } else {
      DoctypeNoZeros(s, pos + 1);
    }
  }

  lemma {:induction false} SkipNoZeros(s: Str, pos: nat, table: Table)
    requires ZeroEnded(s) && pos < |s| && !table.Test(NUL)
    ensures NoZeros(s, pos, Skip(s, pos, table))
  {
  }

  lemma {:induction false} NumericNoZeros(s: Str, pos: nat, hex: bool, dest: nat)
    requires ZeroEnded(s) && pos < |s| && NumericAt(s, pos, hex, dest).Ok?
    ensures NoZeros(s, pos, NumericAt(s, pos, hex, dest).next)
  {
    var r := Number(s, pos, hex, 0);
    assert forall k :: pos <= k < r.1 ==> Digit(s[k]) != 255;
    assert s[r.1] == ';';
  }

  lemma {:induction false} EntityNoZeros(s: Str, src: nat)
    requires ZeroEnded(s) && src < |s| && s[src] == '&' && EntityAt(s, src).Some?
    ensures NoZeros(s, src, src + EntityAt(s, src).value.1)
  {
    hide At;
    if Matches(s, src + 1, "amp;") {
      AtNoZeros(s, src + 1, "amp;");
    } else if Matches(s, src + 1, "apos;") {
      AtNoZeros(s, src + 1, "apos;");
    } else if Matches(s, src + 1, "quot;") {
      AtNoZeros(s, src + 1, "quot;");
    } else if Matches(s, src + 1, "gt;") {
      AtNoZeros(s, src + 1, "gt;");
    } else {
      AtNoZeros(s, src + 1, "lt;");
    }
  }

  lemma {:induction false} StepNoZeros(s: Str, src: nat, dest: nat)
    requires ZeroEnded(s) && src < |s| && s[src] != NUL && StepAt(s, src, dest).Ok?
    ensures NoZeros(s, src, StepAt(s, src, dest).next)
  {
    hide EntityAt, NumericAt;
    if s[src] == '&' {
      if EntityAt(s, src).Some? {
        EntityNoZeros(s, src);
      } else if s[src + 1] == '#' {
        if s[src + 2] == 'x' {
          NumericNoZeros(s, src + 3, true, dest);
        } else {
          NumericNoZeros(s, src + 2, false, dest);
        }
      }
    }
  }

  lemma {:induction false} ExpandNoZeros(s: Str, src: nat, dest: nat, stop: Table)
    requires ZeroEnded(s) && src < |s| && !stop.Test(NUL) && Expand(s, src, dest, stop).Ok?
    ensures NoZeros(s, src, Expand(s, src, dest, stop).next)
    decreases |s| - src
  {
    hide StepAt;
    if stop.Test(s[src]) {
      var step := StepAt(s, src, dest);
      StepNoZeros(s, src, dest);
      ExpandNoZeros(s, step.next, dest + |step.value|, stop);
    }
  }

  // ----- Attributes ------------------------------------------------------------------------------------------

  predicate NamedAttribute(a: Attribute) {
    a.name != [] && All(a.name, AttributeName)
  }

  predicate NamedAttributes(attributes: seq<Attribute>) {
    forall k :: 0 <= k < |attributes| ==> NamedAttribute(attributes[k])
  }

  lemma {:induction false} AttributeNameOut(s: Str, pos: nat)
    requires ZeroEnded(s) && pos < |s| && AttributeName.Test(s[pos]) && AttributeNameAt(s, pos).Ok?
    ensures var r := AttributeNameAt(s, pos); NoZeros(s, pos, r.next) && r.value != [] && All(r.value, AttributeName)
  {
  }

  lemma {:induction false} QuotedNoZeros(s: Str, pos: nat, quote: Ch)
    requires ZeroEnded(s) && pos < |s| && (quote == '\'' || quote == '"') && QuotedAt(s, pos, quote).Ok?
    ensures NoZeros(s, pos, QuotedAt(s, pos, quote).next)
  {
    ExpandNoZeros(s, pos, pos, AttributeValue(quote));
  }

  lemma {:induction false} OneAttributeOut(s: Str, pos: nat)
    requires ZeroEnded(s) && pos < |s| && AttributeName.Test(s[pos]) && OneAttribute(s, pos).Ok?
    ensures var r := OneAttribute(s, pos); NoZeros(s, pos, r.next) && NamedAttribute(r.value)
  {
    hide AttributeNameAt, QuotedAt;
    AttributeNameOut(s, pos);
    var next := AttributeNameAt(s, pos).next;
    var open := Skip(s, next, Whitespace);
    QuotedNoZeros(s, open + 1, s[open]);
  }

  lemma {:induction false} AttributesOut(s: Str, pos: nat)
    requires ZeroEnded(s) && pos < |s| && Attributes(s, pos).Ok?
    ensures var r := Attributes(s, pos); NoZeros(s, pos, r.next) && NamedAttributes(r.value)
    decreases |s| - pos
  {
    hide OneAttribute, NamedAttribute;
    if AttributeName.Test(s[pos]) {
      OneAttributeOut(s, pos);
      AttributesOut(s, OneAttribute(s, pos).next);
    }
  }

  // ----- Nodes -----------------------------------------------------------------------------------------------

  /** What every node that the parser returns is like. */
  predicate Formed(n: Node) {
    match n
    case Data(_) => true
    case Cdata(value) => NUL !in value && Without(value, CDATA_CLOSE)
    case Element(name, value, attributes, children) =>
      && PrintableName(name) && NamedAttributes(attributes)
      && value == ElementValue([], children)
      && forall k :: 0 <= k < |children| ==> Formed(children[k])
  }

  predicate FormedNodes(ns: seq<Node>) {
    forall k :: 0 <= k < |ns| ==> Formed(ns[k])
  }

  lemma {:induction false} NotBefore(s: Str, pos: nat, mark: Str, k: nat)
    requires ZeroEnded(s) && pos < |s| && |mark| > 0 && NUL !in mark && SkipPast(s, pos, mark).Ok?
    requires pos <= k < SkipPast(s, pos, mark).next - |mark|
    ensures !At(s, k, mark)
    decreases |s| - pos
  {
    if !At(s, pos, mark) && pos < k {
      NotBefore(s, pos + 1, mark, k);
    }
  }

  lemma {:induction false} CdataOut(s: Str, pos: nat)
    requires ZeroEnded(s) && pos < |s| && CdataNode(s, pos).Ok?
    ensures var r := CdataNode(s, pos); NoZeros(s, pos, r.next) && r.value.Some? && Formed(r.value.value)
  {
    hide At, SkipPast;
    var next := SkipPast(s, pos, CDATA_CLOSE).next;
    SkipPastNoZeros(s, pos, CDATA_CLOSE);
    SkipPastMark(s, pos, CDATA_CLOSE);
    var value := s[pos..next - 3];
    forall k | 0 <= k < |value| ensures !At(value, k, CDATA_CLOSE) {
      NotBefore(s, pos, CDATA_CLOSE, pos + k);
      if At(value, k, CDATA_CLOSE) {
        AtInside(s, pos, next - 3, k, CDATA_CLOSE);
      }
    }
  }

  lemma {:induction false} AtInside(s: Str, pos: nat, end: nat, k: nat, w: Str)
    requires pos <= end <= |s| && At(s[pos..end], k, w)
    ensures At(s, pos + k, w)
  {
    var part := s[pos..end];
    forall j | 0 <= j < |w| ensures s[pos + k + j] == w[j] {
      AtIndex(part, k, w, j);
    }
    assert s[pos + k..pos + k + |w|] == w;
  }

  predicate FormedOption(node: Option<Node>) {
    node.Some? ==> Formed(node.value)
  }

  lemma {:induction false} InstructionOut(s: Str, pos: nat)
    requires ZeroEnded(s) && pos < |s| && InstructionAt(s, pos).Ok?
    ensures NoZeros(s, pos, InstructionAt(s, pos).next)
  {
    if IsDeclaration(s, pos) {
      SkipPastNoZeros(s, pos + 4, "?>");
    } else {
      SkipPastNoZeros(s, pos, "?>");
    }
  }

  lemma {:induction false} DeclaredOut(s: Str, pos: nat)
    requires ZeroEnded(s) && pos < |s| && s[pos] == '!' && DeclaredAt(s, pos).Ok?
    ensures var r := DeclaredAt(s, pos); NoZeros(s, pos, r.next) && FormedOption(r.value)
  {
    hide At, CdataNode, SkipDoctype, SkipPast, Formed;
    if At(s, pos + 1, "--") {
      AtNoZeros(s, pos + 1, "--");
      SkipPastNoZeros(s, pos + 3, "-->");
    } else if At(s, pos + 1, "[CDATA[") {
      AtNoZeros(s, pos + 1, "[CDATA[");
      CdataOut(s, pos + 8);
    } else if IsDoctype(s, pos) {
      AtNoZeros(s, pos + 1, "DOCTYPE");
      DoctypeNoZeros(s, pos + 9);
    } else {
      SkipPastNoZeros(s, pos + 1, ">");
    }
  }

  lemma {:induction false} NodeOut(s: Str, pos: nat)
    requires ZeroEnded(s) && pos < |s| && NodeAt(s, pos).Ok?
    ensures var r := NodeAt(s, pos); NoZeros(s, pos, r.next) && FormedOption(r.value)
    decreases |s| - pos, 2
  {
    hide InstructionAt, DeclaredAt, ElementAt, Formed;
    if s[pos] == '?' {
      InstructionOut(s, pos + 1);
    } else if s[pos] == '!' {
      DeclaredOut(s, pos);
    } else {
      ElementOut(s, pos);
    }
  }

  lemma {:induction false} NameOut(s: Str, pos: nat)
    requires ZeroEnded(s) && pos < |s| && s[pos] != '!' && Skip(s, pos, NodeName) > pos
    ensures PrintableName(s[pos..Skip(s, pos, NodeName)])
  {
    assert s[pos..Skip(s, pos, NodeName)][0] == s[pos];
  }

  lemma {:induction false} ElementOut(s: Str, pos: nat)
    requires ZeroEnded(s) && pos < |s| && s[pos] != '!' && ElementAt(s, pos).Ok?
    ensures var r := ElementAt(s, pos); NoZeros(s, pos, r.next) && Formed(r.value)
    decreases |s| - pos, 1
  {
    hide Attributes, Body, Skip, PrintableName, NamedAttributes, ElementValue;
    var nameEnd := Skip(s, pos, NodeName);
    SkipNoZeros(s, pos, NodeName);
    NameOut(s, pos);
    var start := Skip(s, nameEnd, Whitespace);
    SkipNoZeros(s, nameEnd, Whitespace);
    AttributesOut(s, start);
    BodyOut(s, Attributes(s, start).next);
  }

  lemma {:induction false} BodyOut(s: Str, pos: nat)
    requires ZeroEnded(s) && pos < |s| && Body(s, pos).Ok?
    ensures var r := Body(s, pos); NoZeros(s, pos, r.next) && FormedNodes(r.value)
    decreases |s| - pos, 1
  {
    hide Contents, Formed;
    if s[pos] == '>' {
      ContentsOut(s, pos + 1);
    }
  }

  lemma {:induction false} ClosingNoZeros(s: Str, pos: nat)
    requires ZeroEnded(s) && pos < |s| && Closing(s, pos).Ok?
    ensures NoZeros(s, pos, Closing(s, pos).next)
  {
    SkipNoZeros(s, pos, NodeName);
    SkipNoZeros(s, Skip(s, pos, NodeName), Whitespace);
  }

  lemma {:induction false} ContentsOut(s: Str, pos: nat)
    requires ZeroEnded(s) && pos < |s| && Contents(s, pos).Ok?
    ensures var r := Contents(s, pos); NoZeros(s, pos, r.next) && FormedNodes(r.value)
    decreases |s| - pos, 0
  {
    hide Formed, NodeAt, Closing, Expand, Skip;
    var start := Skip(s, pos, Whitespace);
    SkipNoZeros(s, pos, Whitespace);
    if s[start] == '<' {
      if s[start + 1] == '/' {
        ClosingNoZeros(s, start + 2);
      } else {
        NodeOut(s, start + 1);
        ContentsOut(s, NodeAt(s, start + 1).next);
      }
    } else {
      ExpandNoZeros(s, pos, pos, Text);
      var r := Expand(s, pos, pos, Text);
      FormedData(r.value);
      ContentsOut(s, r.next);
    }
  }

  lemma {:induction false} FormedData(value: Str)
    ensures Formed(Data(value))
  {
  }

  lemma {:induction false} TopOut(s: Str, pos: nat)
    requires ZeroEnded(s) && pos < |s| && TopNodes(s, pos).Ok?
    ensures var r := TopNodes(s, pos);
            NoZeros(s, pos, r.next) && FormedNodes(r.value) && forall k :: 0 <= k < |r.value| ==> !r.value[k].Data?
    decreases |s| - pos
  {
    hide Formed, NodeAt, Skip;
    var start := Skip(s, pos, Whitespace);
    SkipNoZeros(s, pos, Whitespace);
    if s[start] == '<' {
      NodeOut(s, start + 1);
      TopOut(s, NodeAt(s, start + 1).next);
    }
  }

  /** Whatever the text, names, attributes and character data of the result could be printed; the value
      of each element is the text of its first data child; and no data stands at the top. */
  lemma {:induction false} DocumentOut(s: Str)
    requires ZeroEnded(s) && Document(s).Ok?
    ensures var r := Document(s);
            NoZeros(s, 0, r.next) && FormedNodes(r.value) && forall k :: 0 <= k < |r.value| ==> !r.value[k].Data?
  {
    hide Formed, TopNodes;
    TopOut(s, SkipBom(s));
    if SkipBom(s) == 3 {
      AtNoZeros(s, 0, [Byte(0xEF), Byte(0xBB), Byte(0xBF)]);
    }
  }

  // ----- Printed without zeros --------------------------------------------------------------------------------

  lemma {:induction false} EscapeHasZeros(v: Str, noexpand: Ch)
    requires NUL in v
    ensures NUL in Escape(v, noexpand)
  {
    if v[0] == NUL {
      assert EscapeChar(v[0], noexpand)[0] == NUL;
    } else {
      EscapeHasZeros(v[1..], noexpand);
    }
  }

  lemma {:induction false} AttributesPrintable(attributes: seq<Attribute>)
    requires NamedAttributes(attributes) && NUL !in AttributesText(attributes)
    ensures PrintableAttributes(attributes)
  {
    if attributes != [] {
      var a, rest := attributes[0], attributes[1..];
      AttributesPrintable(rest);
      if NUL in a.value {
        EscapeHasZeros(a.value, OtherQuote(a.value));
      }
      assert PrintableAttribute(a);
      forall k | 0 <= k < |attributes| ensures PrintableAttribute(attributes[k]) {
        assert k > 0 ==> attributes[k] == rest[k - 1];
      }
    }
  }

  /** A formed node whose text has no zeros is lexical. */
  lemma {:induction false} FormedIsLexical(n: Node)
    requires Formed(n) && NUL !in NodeText(n)
    ensures Lexical(n)
    decreases n, 1
  {
    hide AttributesText, NamedAttributes, PrintableAttributes, PrintableName, Escape;
    match n
    case Data(value) =>
      if NUL in value {
        EscapeHasZeros(value, NUL);
      }
    case Cdata(_) =>
    case Element(_, _, attributes, children) =>
      AttributesPrintable(attributes);
      FormedAreLexical(children);
  }

  lemma {:induction false} FormedAreLexical(ns: seq<Node>)
    requires FormedNodes(ns) && NUL !in NodesText(ns)
    ensures LexicalNodes(ns)
    decreases ns, 0
  {
    hide Formed, Lexical, NodeText;
    if ns != [] {
      FormedIsLexical(ns[0]);
      FormedAreLexical(ns[1..]);
      forall k | 0 <= k < |ns| ensures Lexical(ns[k]) {
        assert k > 0 ==> ns[k] == ns[1..][k - 1];
      }
    }
  }

  // ----- The exact condition ------------------------------------------------------------------------------------

  /** A document survives printing and parsing if and only if it is printable. */
  lemma {:induction false} SurvivesExactly(ns: seq<Node>)
    ensures Document(NodesText(ns) + [NUL]) == Ok(ns, |NodesText(ns)|) <==> PrintableTop(ns)
  {
    hide Document, Formed, Lexical, Printable, NodesText, Normal;
    if PrintableTop(ns) {
      ParsePrint(ns);
    }
    var s := NodesText(ns) + [NUL];
    if Document(s) == Ok(ns, |NodesText(ns)|) {
      DocumentOut(s);
      assert NUL !in NodesText(ns) by {
        forall k | 0 <= k < |NodesText(ns)| ensures NodesText(ns)[k] != NUL {
          assert s[k] == NodesText(ns)[k];
        }
      }
      FormedAreLexical(ns);
      ParsePrintIsNormal(ns);
      NormalTopIsPrintable(ns);
    }
  }
}
