/** Parsed nodes whose names and values are pointers into the buffer. */
module XmlSpans {
  import opened XmlText
  import opened XmlReferences
  import opened XmlParser

  /** A pointer into the buffer and a size. */
  datatype Span = Span(start: nat, size: nat)

  datatype AttributeSpans = AttributeSpans(name: Span, value: Span)

  datatype NodeSpans =
    | ElementSpans(name: Span, value: Option<Span>, attributes: seq<AttributeSpans>, children: seq<NodeSpans>)
    | DataSpan(text: Span)
    | CdataSpan(text: Span)

  // ----- Reading ---------------------------------------------------------------------------------------

  function ReadSpan(b: Str, sp: Span): Str {
    if sp.start + sp.size <= |b| then b[sp.start..sp.start + sp.size] else []
  }

  function ReadValue(b: Str, sp: Option<Span>): Str {
    match sp
    case None => []
    case Some(v) => ReadSpan(b, v)
  }

  function ReadAttribute(b: Str, a: AttributeSpans): Attribute {
    Attribute(ReadSpan(b, a.name), ReadSpan(b, a.value))
  }

  function ReadAttributes(b: Str, attributes: seq<AttributeSpans>): seq<Attribute> {
    seq(|attributes|, k requires 0 <= k < |attributes| => ReadAttribute(b, attributes[k]))
  }

  function ReadNode(b: Str, n: NodeSpans): Node {
    match n
    case ElementSpans(name, value, attributes, children) =>
      Element(ReadSpan(b, name), ReadValue(b, value), ReadAttributes(b, attributes),
              seq(|children|, k requires 0 <= k < |children| => ReadNode(b, children[k])))
    case DataSpan(text) => Data(ReadSpan(b, text))
    case CdataSpan(text) => Cdata(ReadSpan(b, text))
  }

  function ReadNodes(b: Str, ns: seq<NodeSpans>): seq<Node> {
    seq(|ns|, k requires 0 <= k < |ns| => ReadNode(b, ns[k]))
  }

  lemma ReadNodesSnoc(b: Str, ns: seq<NodeSpans>, n: NodeSpans)
    ensures ReadNodes(b, ns + [n]) == ReadNodes(b, ns) + [ReadNode(b, n)]
  {
  }

  lemma ReadAttributesSnoc(b: Str, attributes: seq<AttributeSpans>, a: AttributeSpans)
    ensures ReadAttributes(b, attributes + [a]) == ReadAttributes(b, attributes) + [ReadAttribute(b, a)]
  {
  }

  // ----- Where the strings are ---------------------------------------------------------------------------

  /** The string and its terminating zero lie within lo..hi. */
  ghost predicate SpanIn(b: Str, sp: Span, lo: nat, hi: nat) {
    lo <= sp.start && sp.start + sp.size < hi <= |b| && b[sp.start + sp.size] == NUL
  }

  ghost predicate ValueIn(b: Str, sp: Option<Span>, lo: nat, hi: nat) {
    sp.Some? ==> SpanIn(b, sp.value, lo, hi)
  }

  ghost predicate AttributeIn(b: Str, a: AttributeSpans, lo: nat, hi: nat) {
    SpanIn(b, a.name, lo, hi) && SpanIn(b, a.value, lo, hi)
  }

  ghost predicate AttributesIn(b: Str, attributes: seq<AttributeSpans>, lo: nat, hi: nat) {
    forall k :: 0 <= k < |attributes| ==> AttributeIn(b, attributes[k], lo, hi)
  }

  /** Every name and value below n is zero-terminated inside lo..hi. */
  ghost predicate NodeIn(b: Str, n: NodeSpans, lo: nat, hi: nat) {
    match n
    case ElementSpans(name, value, attributes, children) =>
      && SpanIn(b, name, lo, hi)
      && ValueIn(b, value, lo, hi)
      && AttributesIn(b, attributes, lo, hi)
      && forall k :: 0 <= k < |children| ==> NodeIn(b, children[k], lo, hi)
    case DataSpan(text) => SpanIn(b, text, lo, hi)
    case CdataSpan(text) => SpanIn(b, text, lo, hi)
  }

  ghost predicate NodesIn(b: Str, ns: seq<NodeSpans>, lo: nat, hi: nat) {
    forall k :: 0 <= k < |ns| ==> NodeIn(b, ns[k], lo, hi)
  }

  /** b' agrees with b between lo and hi. */
  ghost predicate Agrees(b: Str, b': Str, lo: nat, hi: nat) {
    |b'| == |b| && forall k :: lo <= k < hi && k < |b| ==> b'[k] == b[k]
  }

  lemma SpanFrame(b: Str, b': Str, sp: Span, lo: nat, hi: nat, lo': nat, hi': nat)
    requires SpanIn(b, sp, lo, hi) && Agrees(b, b', lo, hi) && lo' <= lo && hi <= hi' <= |b|
    ensures SpanIn(b', sp, lo', hi') && ReadSpan(b', sp) == ReadSpan(b, sp)
  {
  }

  lemma AttributesFrame(b: Str, b': Str, attributes: seq<AttributeSpans>, lo: nat, hi: nat, lo': nat, hi': nat)
    requires AttributesIn(b, attributes, lo, hi) && Agrees(b, b', lo, hi) && lo' <= lo && hi <= hi' <= |b|
    ensures AttributesIn(b', attributes, lo', hi')
    ensures ReadAttributes(b', attributes) == ReadAttributes(b, attributes)
  {
    forall k | 0 <= k < |attributes|
      ensures AttributeIn(b', attributes[k], lo', hi') && ReadAttribute(b', attributes[k]) == ReadAttribute(b, attributes[k])
    {
      SpanFrame(b, b', attributes[k].name, lo, hi, lo', hi');
      SpanFrame(b, b', attributes[k].value, lo, hi, lo', hi');
    }
  }

  /** Writing outside lo..hi changes no name or value inside it. */
  lemma {:induction false} NodeFrame(b: Str, b': Str, n: NodeSpans, lo: nat, hi: nat, lo': nat, hi': nat)
    requires NodeIn(b, n, lo, hi) && Agrees(b, b', lo, hi) && lo' <= lo && hi <= hi' <= |b|
    ensures NodeIn(b', n, lo', hi') && ReadNode(b', n) == ReadNode(b, n)
  {
    match n
    case ElementSpans(name, value, attributes, children) =>
      SpanFrame(b, b', name, lo, hi, lo', hi');
      if value.Some? {
        SpanFrame(b, b', value.value, lo, hi, lo', hi');
      }
      AttributesFrame(b, b', attributes, lo, hi, lo', hi');
      forall k | 0 <= k < |children|
        ensures NodeIn(b', children[k], lo', hi') && ReadNode(b', children[k]) == ReadNode(b, children[k])
      {
        NodeFrame(b, b', children[k], lo, hi, lo', hi');
      }
    case DataSpan(text) => SpanFrame(b, b', text, lo, hi, lo', hi');
    case CdataSpan(text) => SpanFrame(b, b', text, lo, hi, lo', hi');
  }

  lemma NodesFrame(b: Str, b': Str, ns: seq<NodeSpans>, lo: nat, hi: nat, lo': nat, hi': nat)
    requires NodesIn(b, ns, lo, hi) && Agrees(b, b', lo, hi) && lo' <= lo && hi <= hi' <= |b|
    ensures NodesIn(b', ns, lo', hi') && ReadNodes(b', ns) == ReadNodes(b, ns)
  {
    forall k | 0 <= k < |ns|
      ensures NodeIn(b', ns[k], lo', hi') && ReadNode(b', ns[k]) == ReadNode(b, ns[k])
    {
      NodeFrame(b, b', ns[k], lo, hi, lo', hi');
    }
  }
}
