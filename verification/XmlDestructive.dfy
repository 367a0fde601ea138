/** The destructive parser: the same branches as the pure one, on a buffer. What it returns, read back
    from the final buffer, is what the pure parser finds in the original text. */
module XmlDestructive {
  import opened XmlText
  import opened XmlReferences
  import opened XmlParser
  import opened XmlSpans
  import opened XmlInPlace

  // ----- Single writes ---------------------------------------------------------------------------------

  /** b' is b but for a zero at k. */
  ghost predicate Zeroed(b: Str, b': Str, k: nat) {
    k < |b| == |b'| && b'[k] == NUL && forall j :: 0 <= j < |b| && j != k ==> b'[j] == b[j]
  }

  /** Placing a terminating zero. */
  method Terminate(buf: array<Ch>, k: nat)
    requires k < buf.Length
    modifies buf
    ensures Zeroed(old(buf[..]), buf[..], k)
  {
    buf[k] := NUL;
  }

  lemma {:induction false} ZeroedAhead(b: Str, b': Str, s: Str, k: nat, pos: nat)
    requires Zeroed(b, b', k) && Ahead(b, s, pos) && k < pos
    ensures Ahead(b', s, pos)
  {
    assert b'[pos..] == b[pos..];
  }

  lemma {:induction false} PrefixAgrees(b: Str, b': Str, k: nat)
    requires |b| == |b'| && k <= |b| && b[..k] == b'[..k]
    ensures Agrees(b, b', 0, k)
  {
    forall j | 0 <= j < k ensures b[j] == b'[j] {
      assert b[..k][j] == b'[..k][j];
    }
  }

  lemma {:induction false} AgreesChain(b: Str, b': Str, b'': Str, k: nat, k': nat)
    requires Agrees(b, b', 0, k) && Agrees(b', b'', 0, k') && k <= k'
    ensures Agrees(b, b'', 0, k)
  {
  }

  /** A stretch of the text that has just been passed over, once it is terminated. */
  lemma {:induction false} TerminatedSpan(b: Str, b': Str, s: Str, start: nat, end: nat, hi: nat)
    requires Ahead(b, s, start) && Zeroed(b, b', end) && start <= end < hi <= |s|
    ensures SpanIn(b', Span(start, end - start), start, hi)
    ensures ReadSpan(b', Span(start, end - start)) == s[start..end]
    ensures Agrees(b, b', 0, end)
  {
    forall k | start <= k < end ensures b'[k] == s[k] {
      AheadAt(b, s, start, k);
    }
    assert b'[start..end] == s[start..end];
  }

  // ----- Attributes --------------------------------------------------------------------------------------

  /** Lines 2242-2264. */
  method ParseAttributeName(buf: array<Ch>, text: nat, ghost s: Str) returns (r: Res<Span>)
    requires ZeroEnded(s) && text < |s| && Ahead(buf[..], s, text) && AttributeName.Test(s[text])
    modifies buf
    ensures buf.Length == |s| && Agrees(old(buf[..]), buf[..], 0, text)
    ensures match AttributeNameAt(s, text)
            case Bad(what, at) => r == Bad(what, at)
            case Ok(name, next) =>
              && r.Ok? && r.next == next
              && ReadSpan(buf[..], r.value) == name && SpanIn(buf[..], r.value, text, next)
              && Ahead(buf[..], s, next)
  {
    hide Skip;
    ghost var b := buf[..];
    AheadAt(b, s, text, text + 1);
    var end := SkipTable(buf, text + 1, AttributeName, s);
    var equals := SkipTable(buf, end, Whitespace, s);
    if buf[equals] != '=' {
      return Bad(EXPECTED_EQUALS, equals);
    }
    AheadAt(b, s, equals, equals + 1);
    Terminate(buf, end);
    ZeroedAhead(b, buf[..], s, end, equals + 1);
    TerminatedSpan(b, buf[..], s, text, end, equals + 1);
    r := Ok(Span(text, end - text), equals + 1);
  }

  /** Lines 2276-2296. */
  method ParseQuoted(buf: array<Ch>, text: nat, quote: Ch, ghost s: Str) returns (r: Res<Span>)
    requires ZeroEnded(s) && text < |s| && Ahead(buf[..], s, text) && (quote == '\'' || quote == '"')
    modifies buf
    ensures buf.Length == |s| && Agrees(old(buf[..]), buf[..], 0, text)
    ensures match QuotedAt(s, text, quote)
            case Bad(what, at) => r == Bad(what, at)
            case Ok(value, next) =>
              && r.Ok? && r.next == next
              && ReadSpan(buf[..], r.value) == value && SpanIn(buf[..], r.value, text, next)
              && Ahead(buf[..], s, next)
  {
    hide Skip, Expand, Zeroed, SpanIn, ReadSpan, Ahead, Agrees;
    ghost var b0 := buf[..];
    var v := SkipAndExpand(buf, text, AttributeValue(quote), s);
    ghost var b1 := buf[..];
    PrefixAgrees(b0, b1, text);
    if v.Bad? {
      return Bad(v.what, v.at);
    }
    AheadAt(b1, s, v.next, v.next);
    if buf[v.next] != quote {
      return Bad(EXPECTED_QUOTE, v.next);
    }
    AheadAt(b1, s, v.next, v.next + 1);
    Terminate(buf, v.value);
    ghost var b2 := buf[..];
    ZeroedAhead(b1, b2, s, v.value, v.next + 1);
    var next := SkipTable(buf, v.next + 1, Whitespace, s);
    ZeroedSpan(b1, b2, text, v.value, next);
    AgreesChain(b0, b1, b2, text, v.value);
    r := Ok(Span(text, v.value - text), next);
  }

  /** A stretch of the buffer, once it is terminated. */
  lemma {:induction false} ZeroedSpan(b: Str, b': Str, start: nat, end: nat, hi: nat)
    requires Zeroed(b, b', end) && start <= end < hi <= |b|
    ensures SpanIn(b', Span(start, end - start), start, hi)
    ensures ReadSpan(b', Span(start, end - start)) == b[start..end]
    ensures Agrees(b, b', 0, end)
  {
    assert b'[start..end] == b[start..end];
  }

  /** Lines 2267-2273. */
  method ParseAttributeValue(buf: array<Ch>, text: nat, ghost s: Str) returns (r: Res<Span>)
    requires ZeroEnded(s) && text < |s| && Ahead(buf[..], s, text)
    modifies buf
    ensures buf.Length == |s| && Agrees(old(buf[..]), buf[..], 0, text)
    ensures match AttributeValueAt(s, text)
            case Bad(what, at) => r == Bad(what, at)
            case Ok(value, next) =>
              && r.Ok? && r.next == next
              && ReadSpan(buf[..], r.value) == value && SpanIn(buf[..], r.value, text, next)
              && Ahead(buf[..], s, next)
  {
    hide Skip, QuotedAt;
    var open := SkipTable(buf, text, Whitespace, s);
    var quote := buf[open];
    if quote != '\'' && quote != '"' {
      return Bad(EXPECTED_QUOTE, open);
    }
    AheadAt(buf[..], s, open, open + 1);
    r := ParseQuoted(buf, open + 1, quote, s);
  }

  /** One round of `parse_node_attributes`. */
  method ParseAttribute(buf: array<Ch>, text: nat, ghost s: Str) returns (r: Res<AttributeSpans>)
    requires ZeroEnded(s) && text < |s| && Ahead(buf[..], s, text) && AttributeName.Test(s[text])
    modifies buf
    ensures buf.Length == |s| && Agrees(old(buf[..]), buf[..], 0, text)
    ensures match OneAttribute(s, text)
            case Bad(what, at) => r == Bad(what, at)
            case Ok(a, next) =>
              && r.Ok? && r.next == next
              && ReadAttribute(buf[..], r.value) == a && AttributeIn(buf[..], r.value, text, next)
              && Ahead(buf[..], s, next)
  {
    hide AttributeNameAt, AttributeValueAt;
    var name := ParseAttributeName(buf, text, s);
    if name.Bad? {
      return Bad(name.what, name.at);
    }
    ghost var b := buf[..];
    var value := ParseAttributeValue(buf, name.next, s);
    if value.Bad? {
      return Bad(value.what, value.at);
    }
    SpanFrame(b, buf[..], name.value, text, name.next, text, value.next);
    r := Ok(AttributeSpans(name.value, value.value), value.next);
  }

  /** `parse_node_attributes` */
  method ParseAttributes(buf: array<Ch>, text: nat, ghost s: Str) returns (r: Res<seq<AttributeSpans>>)
    requires ZeroEnded(s) && text < |s| && Ahead(buf[..], s, text)
    modifies buf
    ensures buf.Length == |s| && Agrees(old(buf[..]), buf[..], 0, text)
    ensures match Attributes(s, text)
            case Bad(what, at) => r == Bad(what, at)
            case Ok(attributes, next) =>
              && r.Ok? && r.next == next
              && ReadAttributes(buf[..], r.value) == attributes && AttributesIn(buf[..], r.value, text, next)
              && Ahead(buf[..], s, next)
  {
    hide OneAttribute, ReadAttributes, ReadAttribute, AttributeIn;
    var attributes, at := [], text;
    AheadAt(buf[..], s, text, text);
    ReadNoAttributes(buf[..]);
    JoinNothing(Attributes(s, text));
    while AttributeName.Test(buf[at])
      invariant text <= at < |s| == buf.Length && Ahead(buf[..], s, at) && buf[at] == s[at]
      invariant Agrees(old(buf[..]), buf[..], 0, text)
      invariant AttributesIn(buf[..], attributes, text, at)
      invariant Attributes(s, text) == Join(ReadAttributes(buf[..], attributes), Attributes(s, at))
      decreases |s| - at
    {
      ghost var b := buf[..];
      var one := ParseAttribute(buf, at, s);
      if one.Bad? {
        return Bad(one.what, one.at);
      }
      AttributesGrow(b, buf[..], attributes, one.value, text, at, one.next);
      ReadAttributesSnoc(buf[..], attributes, one.value);
      JoinAssociates(ReadAttributes(buf[..], attributes), [ReadAttribute(buf[..], one.value)], Attributes(s, one.next));
      attributes, at := attributes + [one.value], one.next;
      AheadAt(buf[..], s, at, at);
    }
    r := Ok(attributes, at);
    JoinEnd(ReadAttributes(buf[..], attributes), at);
  }

  lemma {:induction false} AttributesGrow(b: Str, b': Str, attributes: seq<AttributeSpans>, a: AttributeSpans,
                                          lo: nat, at: nat, next: nat)
    requires AttributesIn(b, attributes, lo, at) && Agrees(b, b', 0, at) && lo <= at <= next <= |b|
    requires AttributeIn(b', a, at, next)
    ensures AttributesIn(b', attributes + [a], lo, next)
    ensures ReadAttributes(b', attributes) == ReadAttributes(b, attributes)
  {
    AttributesFrame(b, b', attributes, lo, at, lo, next);
  }

  lemma {:induction false} ReadNoAttributes(b: Str)
    ensures ReadAttributes(b, []) == []
  {
  }

  lemma {:induction false} JoinEnd<T>(front: seq<T>, next: nat)
    ensures Join(front, Ok([], next)) == Ok(front, next)
  {
    assert front + [] == front;
  }

  // ----- Markup that produces no node ----------------------------------------------------------------

  /** The loops that look for "?>", "-->", "]]>" or ">". */
  method SkipMark(buf: array<Ch>, text: nat, mark: Str, ghost s: Str) returns (r: Res<()>)
    requires ZeroEnded(s) && text < |s| && Ahead(buf[..], s, text) && |mark| > 0 && NUL !in mark
    ensures r == SkipPast(s, text, mark)
  {
    var at := text;
    AheadAt(buf[..], s, text, text);
    var same := Reads(buf, at, mark, s);
    while !same
      invariant text <= at < |s| && Ahead(buf[..], s, at) && buf[at] == s[at]
      invariant same <==> At(s, at, mark)
      invariant SkipPast(s, text, mark) == SkipPast(s, at, mark)
      decreases |s| - at
    {
      if buf[at] == NUL {
        return Bad(END_OF_DATA, at);
      }
      AheadAt(buf[..], s, at, at + 1);
      at := at + 1;
      same := Reads(buf, at, mark, s);
    }
    r := Ok((), at + |mark|);
  }

  /** `parse_doctype` */
  method SkipDocumentType(buf: array<Ch>, text: nat, ghost s: Str) returns (r: Res<()>)
    requires ZeroEnded(s) && text < |s| && Ahead(buf[..], s, text)
    ensures r == SkipDoctype(s, text)
  {
    var at := text;
    AheadAt(buf[..], s, text, text);
    assert buf.Length == |s|;
    hide Ahead;
    while buf[at] != '>'
      invariant text <= at < |s| == buf.Length && Ahead(buf[..], s, at) && buf[at] == s[at]
      invariant SkipDoctype(s, text) == SkipDoctype(s, at)
      decreases |s| - at
    {
      AheadAt(buf[..], s, at, at + 1);
      if buf[at] == '[' {
        ghost var start := at + 1;
        at := at + 1;
        var depth: nat := 1;
        AheadAt(buf[..], s, at, at);
        while depth > 0
          invariant start <= at < |s| == buf.Length && Ahead(buf[..], s, at) && buf[at] == s[at]
          invariant SkipBrackets(s, start, 1) == SkipBrackets(s, at, depth)
          decreases |s| - at
        {
          if buf[at] == '[' {
            depth := depth + 1;
          } else if buf[at] == ']' {
            depth := depth - 1;
          } else if buf[at] == NUL {
            return Bad(END_OF_DATA, at);
          }
          AheadAt(buf[..], s, at, at + 1);
          at := at + 1;
        }
      } else if buf[at] == NUL {
        return Bad(END_OF_DATA, at);
      } else {
        at := at + 1;
      }
    }
    r := Ok((), at + 1);
  }

  // ----- Nodes -------------------------------------------------------------------------------------------

  /** `parse_cdata` */
  method ParseCdata(buf: array<Ch>, text: nat, ghost s: Str) returns (r: Res<Option<NodeSpans>>)
    requires ZeroEnded(s) && text < |s| && Ahead(buf[..], s, text)
    modifies buf
    ensures buf.Length == |s| && Agrees(old(buf[..]), buf[..], 0, text)
    ensures NodeParsed(CdataNode(s, text), r, buf[..], s, text)
  {
    var end := SkipMark(buf, text, "]]>", s);
    if end.Bad? {
      return Bad(end.what, end.at);
    }
    SkipPastMark(s, text, "]]>");
    ghost var b := buf[..];
    AheadAt(b, s, text, end.next);
    Terminate(buf, end.next - 3);
    ZeroedAhead(b, buf[..], s, end.next - 3, end.next);
    TerminatedSpan(b, buf[..], s, text, end.next - 3, end.next);
    r := Ok(Some(CdataSpan(Span(text, end.next - 3 - text))), end.next);
  }

  /** The destructive result r stands for the pure result p. */
  ghost predicate NodeParsed(p: Res<Option<Node>>, r: Res<Option<NodeSpans>>, b: Str, s: Str, lo: nat) {
    match p
    case Bad(what, at) => r == Bad(what, at)
    case Ok(node, next) =>
      && r.Ok? && r.next == next
      && Ahead(b, s, next)
      && match node
         case None => r.value.None?
         case Some(n) => r.value.Some? && ReadNode(b, r.value.value) == n && NodeIn(b, r.value.value, lo, next)
  }

  /** The children and the value of an element. */
  datatype Content = Content(children: seq<NodeSpans>, value: Option<Span>)

  ghost predicate ContentParsed(p: Res<seq<Node>>, r: Res<Content>, b: Str, s: Str, lo: nat) {
    match p
    case Bad(what, at) => r == Bad(what, at)
    case Ok(children, next) =>
      && r.Ok? && r.next == next
      && Ahead(b, s, next)
      && ContentHolds(b, r.value, children, lo, next)
  }

  ghost predicate ContentHolds(b: Str, c: Content, children: seq<Node>, lo: nat, hi: nat) {
    && ReadNodes(b, c.children) == children && NodesIn(b, c.children, lo, hi)
    && ReadValue(b, c.value) == ElementValue([], children) && ValueIn(b, c.value, lo, hi)
  }

  lemma {:induction false} ContentFrame(b: Str, b': Str, c: Content, children: seq<Node>, lo: nat, hi: nat, lo': nat,
                                        hi': nat)
    requires ContentHolds(b, c, children, lo, hi) && Agrees(b, b', lo, hi) && lo' <= lo && hi <= hi' <= |b|
    ensures ContentHolds(b', c, children, lo', hi')
  {
    NodesFrame(b, b', c.children, lo, hi, lo', hi');
    if c.value.Some? {
      SpanFrame(b, b', c.value.value, lo, hi, lo', hi');
    }
  }

  lemma {:induction false} ElementValueSnoc(v: Str, children: seq<Node>, n: Node)
    ensures ElementValue(v, children + [n])
         == if n.Data? then Adopt(ElementValue(v, children), n.value) else ElementValue(v, children)
    decreases |children|
  {
    if children == [] {
      assert [n][1..] == [];
    } else {
      var v' := if children[0].Data? then Adopt(v, children[0].value) else v;
      assert (children + [n])[1..] == children[1..] + [n];
      ElementValueSnoc(v', children[1..], n);
    }
  }

  /** A child that is not data is appended. */
  lemma {:induction false} ChildAdded(b: Str, b': Str, c: Content, children: seq<Node>, n: NodeSpans, lo: nat,
                                      mid: nat, hi: nat)
    requires ContentHolds(b, c, children, lo, mid) && Agrees(b, b', 0, mid) && lo <= mid <= hi <= |b|
    requires NodeIn(b', n, mid, hi) && !n.DataSpan?
    ensures ContentHolds(b', Content(c.children + [n], c.value), children + [ReadNode(b', n)], lo, hi)
  {
    ContentFrame(b, b', c, children, lo, mid, lo, hi);
    NodeFrame(b', b', n, mid, hi, lo, hi);
    ReadNodesSnoc(b', c.children, n);
    ElementValueSnoc([], children, ReadNode(b', n));
  }

  /** Lines 1980-1982: does the element still lack a value? */
  predicate Lacks(b: Str, value: Option<Span>) {
    value == None || value.value.start >= |b| || b[value.value.start] == NUL
  }

  /** Data is appended, and adopted as the value if the element has none yet. */
  lemma {:induction false} DataAdded(b: Str, b': Str, c: Content, children: seq<Node>, sp: Span, lo: nat, mid: nat,
                                     hi: nat)
    requires ContentHolds(b, c, children, lo, mid) && Agrees(b, b', 0, mid) && lo <= mid <= hi <= |b|
    requires SpanIn(b', sp, mid, hi)
    ensures var value := if Lacks(b, c.value) then Some(sp) else c.value;
            ContentHolds(b', Content(c.children + [DataSpan(sp)], value), children + [Data(ReadSpan(b', sp))], lo, hi)
  {
    hide Lacks, ElementValue, ReadSpan, SpanIn;
    ContentFrame(b, b', c, children, lo, mid, lo, hi);
    SpanFrame(b', b', sp, mid, hi, lo, hi);
    ReadNodesSnoc(b', c.children, DataSpan(sp));
    ElementValueSnoc([], children, Data(ReadSpan(b', sp)));
    ValueLacks(b, c.value, lo, mid);
  }

  /** Looking at the first character tells whether there is a value to keep. */
  lemma {:induction false} ValueLacks(b: Str, value: Option<Span>, lo: nat, hi: nat)
    requires ValueIn(b, value, lo, hi)
    ensures Lacks(b, value) <==> ReadValue(b, value) == [] || ReadValue(b, value)[0] == NUL
  {
    if value.Some? {
      var v := value.value;
      assert v.size == 0 ==> ReadSpan(b, v) == [];
      assert v.size > 0 ==> ReadSpan(b, v)[0] == b[v.start];
    }
  }

  /** `parse_and_append_data`: also returns the character that ends the data, which the terminating
      zero may have just overwritten. */
  method ParseAndAppendData(buf: array<Ch>, text: nat, content: Content, ghost found: seq<Node>, ghost lo: nat,
                            ghost s: Str)
    returns (r: Res<Content>, ch: Ch)
    requires ZeroEnded(s) && lo <= text < |s| && Ahead(buf[..], s, text) && Text.Test(s[text])
    requires ContentHolds(buf[..], content, found, lo, text)
    modifies buf
    ensures buf.Length == |s| && Agrees(old(buf[..]), buf[..], 0, text)
    ensures match Expand(s, text, text, Text)
            case Bad(what, at) => r == Bad(what, at)
            case Ok(value, next) =>
              && r.Ok? && r.next == next && next < |s| && ch == s[next]
              && Ahead(buf[..], s, next + 1)
              && ContentHolds(buf[..], r.value, found + [Data(value)], lo, next + 1)
  {
    hide Expand, ContentHolds;
    ghost var b0 := buf[..];
    ch := NUL;
    var end := SkipAndExpand(buf, text, Text, s);
    ghost var b1 := buf[..];
    PrefixAgrees(b0, b1, text);
    if end.Bad? {
      return Bad(end.what, end.at), ch;
    }
    AheadAt(b1, s, end.next, end.next + 1);
    ContentValueIn(b0, b1, content, found, lo, text);
    var value := if content.value == None || buf[content.value.value.start] == NUL
                 then Some(Span(text, end.value - text)) else content.value;
    AheadAt(b1, s, end.next, end.next);
    ch := buf[end.next];
    Terminate(buf, end.value);
    ghost var b2 := buf[..];
    ZeroedAhead(b1, b2, s, end.value, end.next + 1);
    var sp := Span(text, end.value - text);
    ZeroedSpan(b1, b2, text, end.value, end.next + 1);
    DataAdded(b0, b2, content, found, sp, lo, text, end.next + 1);
    r := Ok(Content(content.children + [DataSpan(sp)], value), end.next);
  }

  lemma {:induction false} ContentValueIn(b: Str, b': Str, c: Content, found: seq<Node>, lo: nat, hi: nat)
    requires ContentHolds(b, c, found, lo, hi) && Agrees(b, b', 0, hi) && lo <= hi <= |b|
    ensures c.value.Some? ==> c.value.value.start < |b'| == |b| && b'[c.value.value.start] == b[c.value.value.start]
  {
  }

  /** What the loop of `parse_node_contents` knows: the children found so far, in front of what the
      pure parser finds from here on. After data the current character may have been overwritten; it
      is then kept in nextChar. */
  ghost predicate InContents(b: Str, s: Str, start: nat, text: nat, afterData: bool, nextChar: Ch,
                             content: Content, found: seq<Node>)
    requires ZeroEnded(s)
  {
    && start <= text < |s|
    && Contents(s, start) == Join(found, Contents(s, text))
    && if afterData then
         && nextChar == s[text] && (nextChar == '<' || nextChar == NUL)
         && Ahead(b, s, text + 1) && ContentHolds(b, content, found, start, text + 1)
       else
         Ahead(b, s, text) && ContentHolds(b, content, found, start, text)
  }

  /** The character that decides what comes next; after data it is not read from the buffer. */
  method NextChar(buf: array<Ch>, from: nat, afterData: bool, held: Ch, ghost start: nat, ghost content: Content,
                  ghost found: seq<Node>, ghost s: Str)
    returns (at: nat, ch: Ch)
    requires ZeroEnded(s) && InContents(buf[..], s, start, from, afterData, held, content, found)
    ensures from <= at < |s| && at == Skip(s, from, Whitespace) && ch == s[at]
    ensures ch == '<' ==> at + 1 < |s| && Ahead(buf[..], s, at + 1) && buf[at + 1] == s[at + 1]
    ensures ch == '<' ==> ContentHolds(buf[..], content, found, start, at + 1)
    ensures ch != '<' && ch != NUL ==> Ahead(buf[..], s, from) && ContentHolds(buf[..], content, found, start, from)
  {
    hide ContentHolds, Contents;
    if afterData {
      at, ch := from, held;
      SkipIs(s, from, Whitespace, from);
    } else {
      at := SkipTable(buf, from, Whitespace, s);
      ch := buf[at];
      if ch == '<' {
        AheadAt(buf[..], s, at, at + 1);
        ContentFrame(buf[..], buf[..], content, found, start, from, start, at + 1);
      }
    }
    if ch == '<' {
      AheadAt(buf[..], s, at + 1, at + 1);
    }
  }

  /** Lines 2212-2218: a child node. */
  method AppendChild(buf: array<Ch>, text: nat, content: Content, ghost found: seq<Node>, ghost lo: nat, ghost s: Str)
    returns (r: Res<Content>)
    requires ZeroEnded(s) && lo <= text < |s| && Ahead(buf[..], s, text)
    requires ContentHolds(buf[..], content, found, lo, text)
    modifies buf
    ensures buf.Length == |s| && Agrees(old(buf[..]), buf[..], 0, text)
    ensures match NodeAt(s, text)
            case Bad(what, at) => r == Bad(what, at)
            case Ok(node, next) =>
              && r.Ok? && r.next == next
              && Ahead(buf[..], s, next)
              && ContentHolds(buf[..], r.value, found + Listed(node), lo, next)
    decreases |s| - text, 3
  {
    hide ContentHolds, NodeAt, ReadNode, NodeIn;
    ghost var b := buf[..];
    var child := ParseNode(buf, text, s);
    if child.Bad? {
      return Bad(child.what, child.at);
    }
    ChildParsed(b, buf[..], s, lo, text, content, found, child);
    r := Ok(WithChild(content, child.value), child.next);
  }

  /** The pure parser's result, once more children are found. */
  lemma {:induction false} FoundMore(s: Str, start: nat, from: nat, found: seq<Node>, more: seq<Node>, next: nat)
    requires ZeroEnded(s) && start < |s| && from < |s| && next < |s|
    requires Contents(s, start) == Join(found, Contents(s, from))
    requires Contents(s, from) == Join(more, Contents(s, next))
    ensures Contents(s, start) == Join(found + more, Contents(s, next))
  {
    hide Contents;
    JoinAssociates(found, more, Contents(s, next));
  }

  /** `parse_node_contents` */
  method ParseContents(buf: array<Ch>, start: nat, ghost s: Str) returns (r: Res<Content>)
    requires ZeroEnded(s) && start < |s| && Ahead(buf[..], s, start)
    modifies buf
    ensures buf.Length == |s| && Agrees(old(buf[..]), buf[..], 0, start)
    ensures ContentParsed(Contents(s, start), r, buf[..], s, start)
    decreases |s| - start, 0
  {
    hide Contents, ContentHolds, NodeAt, Skip, Closing, Expand;
    var text, afterData, held, content := start, false, NUL, Content([], None);
    ghost var found: seq<Node> := [];
    EmptyContent(buf[..], start, start);
    JoinNothing(Contents(s, start));
    while true
      invariant buf.Length == |s| && Agrees(old(buf[..]), buf[..], 0, start)
      invariant InContents(buf[..], s, start, text, afterData, held, content, found)
      decreases |s| - text
    {
      var from := text;
      ContentsCases(s, from);
      var at, ch := NextChar(buf, from, afterData, held, start, content, found, s);
      if ch == '<' {
        if buf[at + 1] == '/' {
          AheadAt(buf[..], s, at + 1, at + 2);
          r := CloseContents(buf, at + 2, content, found, start, at + 1, s);
          return;
        }
        ghost var node := NodeAt(s, at + 1);
        var child := AppendChild(buf, at + 1, content, found, start, s);
        if child.Bad? {
          return Bad(child.what, child.at);
        }
        FoundMore(s, start, from, found, Listed(node.value), child.next);
        content, text, afterData := child.value, child.next, false;
        found := found + Listed(node.value);
      } else if ch == NUL {
        return Bad(END_OF_DATA, at);
      } else {
        ghost var data := Expand(s, from, from, Text);
        var added;
        added, held := ParseAndAppendData(buf, from, content, found, start, s);
        if added.Bad? {
          return Bad(added.what, added.at);
        }
        FoundMore(s, start, from, found, [Data(data.value)], added.next);
        content, text, afterData := added.value, added.next, true;
        found := found + [Data(data.value)];
      }
    }
  }

  function WithChild(c: Content, child: Option<NodeSpans>): Content {
    match child
    case None => c
    case Some(n) => Content(c.children + [n], c.value)
  }

  lemma {:induction false} EmptyContent(b: Str, lo: nat, hi: nat)
    ensures ContentHolds(b, Content([], None), [], lo, hi)
  {
  }

  /** One round of the pure parser. */
  lemma {:induction false} ContentsCases(s: Str, pos: nat)
    requires ZeroEnded(s) && pos < |s|
    ensures var at := Skip(s, pos, Whitespace);
            && (s[at] == '<' ==> at + 1 < |s|)
            && (s[at] == '<' && s[at + 1] == '/' ==> at + 2 < |s| && Contents(s, pos) == Closing(s, at + 2))
            && (s[at] == '<' && s[at + 1] != '/' ==>
                  match NodeAt(s, at + 1)
                  case Bad(what, where) => Contents(s, pos) == Bad(what, where)
                  case Ok(node, next) => Contents(s, pos) == Join(Listed(node), Contents(s, next)))
            && (s[at] == NUL ==> Contents(s, pos) == Bad(END_OF_DATA, at))
            && (s[at] != '<' && s[at] != NUL ==>
                  && Text.Test(s[pos])
                  && match Expand(s, pos, pos, Text)
                     case Bad(what, where) => Contents(s, pos) == Bad(what, where)
                     case Ok(value, next) => Contents(s, pos) == Join([Data(value)], Contents(s, next)))
  {
    hide Expand, NodeAt, Closing;
  }

  /** What a parsed child adds. */
  lemma {:induction false} ChildParsed(b: Str, b': Str, s: Str, lo: nat, pos: nat, content: Content, found: seq<Node>,
                    child: Res<Option<NodeSpans>>)
    requires ZeroEnded(s) && lo <= pos < |s| == |b|
    requires ContentHolds(b, content, found, lo, pos) && Agrees(b, b', 0, pos)
    requires child.Ok? && NodeParsed(NodeAt(s, pos), child, b', s, pos)
    ensures child.next <= |b| && NodeAt(s, pos).Ok?
    ensures ContentHolds(b', WithChild(content, child.value), found + Listed(NodeAt(s, pos).value), lo, child.next)
  {
    hide NodeAt;
    if child.value.Some? {
      ChildAdded(b, b', content, found, child.value.value, lo, pos, child.next);
    } else {
      assert found + [] == found;
      ContentFrame(b, b', content, found, lo, pos, lo, child.next);
    }
  }

  /** Lines 2192-2211. */
  method CloseContents(buf: array<Ch>, text: nat, content: Content, ghost found: seq<Node>, ghost lo: nat,
                       ghost mid: nat,
                       ghost s: Str)
    returns (r: Res<Content>)
    requires ZeroEnded(s) && lo <= mid <= text < |s| && Ahead(buf[..], s, text)
    requires ContentHolds(buf[..], content, found, lo, mid)
    ensures ContentParsed(Join(found, Closing(s, text)), r, buf[..], s, lo)
  {
    hide ContentHolds, Skip;
    var nameEnd := SkipTable(buf, text, NodeName, s);
    var end := SkipTable(buf, nameEnd, Whitespace, s);
    if buf[end] != '>' {
      return Bad(EXPECTED_GREATER, end);
    }
    AheadAt(buf[..], s, end, end + 1);
    ContentFrame(buf[..], buf[..], content, found, lo, mid, lo, end + 1);
    JoinEnd(found, end + 1);
    r := Ok(content, end + 1);
  }

  /** `parse_node` */
  method ParseNode(buf: array<Ch>, text: nat, ghost s: Str) returns (r: Res<Option<NodeSpans>>)
    requires ZeroEnded(s) && text < |s| && Ahead(buf[..], s, text)
    modifies buf
    ensures buf.Length == |s| && Agrees(old(buf[..]), buf[..], 0, text)
    ensures NodeParsed(NodeAt(s, text), r, buf[..], s, text)
    decreases |s| - text, 2
  {
    hide ElementAt, InstructionAt, DeclaredAt, ReadNode, NodeIn;
    AheadAt(buf[..], s, text, text);
    if buf[text] == '?' {
      AheadAt(buf[..], s, text, text + 1);
      r := ParseInstruction(buf, text + 1, s);
    } else if buf[text] == '!' {
      r := ParseDeclared(buf, text, s);
    } else {
      var element := ParseElement(buf, text, s);
      if element.Bad? {
        r := Bad(element.what, element.at);
      } else {
        r := Ok(Some(element.value), element.next);
      }
    }
  }

  /** Lines 2094-2108; declarations and instructions are skipped under the default flags. */
  method ParseInstruction(buf: array<Ch>, text: nat, ghost s: Str) returns (r: Res<Option<NodeSpans>>)
    requires ZeroEnded(s) && text < |s| && Ahead(buf[..], s, text)
    ensures NodeParsed(InstructionAt(s, text), r, buf[..], s, text)
  {
    hide SkipPast;
    var declaration := ReadsDeclaration(buf, text, s);
    var from := if declaration then text + 4 else text;
    AheadAt(buf[..], s, text, from);
    var skipped := SkipMark(buf, from, "?>", s);
    r := NoNode(skipped);
    if skipped.Ok? {
      AheadAt(buf[..], s, text, skipped.next);
    }
  }

  function NoNode(r: Res<()>): Res<Option<NodeSpans>> {
    match r
    case Ok(_, next) => Ok(None, next)
    case Bad(what, at) => Bad(what, at)
  }

  method ReadsDeclaration(buf: array<Ch>, text: nat, ghost s: Str) returns (yes: bool)
    requires ZeroEnded(s) && text < |s| && Ahead(buf[..], s, text)
    ensures yes <==> IsDeclaration(s, text)
  {
    AheadAt(buf[..], s, text, text);
    yes := false;
    if buf[text] == 'x' || buf[text] == 'X' {
      AheadAt(buf[..], s, text, text + 1);
      if buf[text + 1] == 'm' || buf[text + 1] == 'M' {
        AheadAt(buf[..], s, text, text + 2);
        if buf[text + 2] == 'l' || buf[text + 2] == 'L' {
          AheadAt(buf[..], s, text, text + 3);
          yes := Whitespace.Test(buf[text + 3]);
        }
      }
    }
  }

  /** Lines 2111-2160. */
  method ParseDeclared(buf: array<Ch>, text: nat, ghost s: Str) returns (r: Res<Option<NodeSpans>>)
    requires ZeroEnded(s) && text < |s| && Ahead(buf[..], s, text) && s[text] == '!'
    modifies buf
    ensures buf.Length == |s| && Agrees(old(buf[..]), buf[..], 0, text)
    ensures NodeParsed(DeclaredAt(s, text), r, buf[..], s, text)
  {
    hide SkipPast, SkipDoctype, CdataNode, NodeIn, ReadNode;
    AheadAt(buf[..], s, text, text + 1);
    var skipped: Res<()>;
    var same := Reads(buf, text + 1, "--", s);
    if same {
      AtIndex(s, text + 1, "--", 1);
      AheadAt(buf[..], s, text, text + 3);
      skipped := SkipMark(buf, text + 3, "-->", s);
    } else {
      same := Reads(buf, text + 1, "[CDATA[", s);
      if same {
        AtIndex(s, text + 1, "[CDATA[", 6);
        AheadAt(buf[..], s, text, text + 8);
        r := ParseCdata(buf, text + 8, s);
        if r.Ok? && r.value.Some? {
          NodeFrame(buf[..], buf[..], r.value.value, text + 8, r.next, text, r.next);
        }
        return;
      }
      same := ReadsDoctype(buf, text, s);
      if same {
        AheadAt(buf[..], s, text, text + 9);
        skipped := SkipDocumentType(buf, text + 9, s);
      } else {
        skipped := SkipMark(buf, text + 1, ">", s);
      }
    }
    r := NoNode(skipped);
    if skipped.Ok? {
      AheadAt(buf[..], s, text, skipped.next);
    }
  }

  method ReadsDoctype(buf: array<Ch>, text: nat, ghost s: Str) returns (yes: bool)
    requires ZeroEnded(s) && text + 1 < |s| && Ahead(buf[..], s, text)
    ensures yes <==> IsDoctype(s, text)
  {
    AheadAt(buf[..], s, text, text + 1);
    yes := Reads(buf, text + 1, "DOCTYPE", s);
    if yes {
      AtIndex(s, text + 1, "DOCTYPE", 6);
      AheadAt(buf[..], s, text, text + 8);
      yes := Whitespace.Test(buf[text + 8]);
    }
  }

  /** `parse_element`: the zero after the name is written last, over a character passed long ago. */
  method ParseElement(buf: array<Ch>, text: nat, ghost s: Str) returns (r: Res<NodeSpans>)
    requires ZeroEnded(s) && text < |s| && Ahead(buf[..], s, text)
    modifies buf
    ensures buf.Length == |s| && Agrees(old(buf[..]), buf[..], 0, text)
    ensures ElementParsed(ElementAt(s, text), r, buf[..], s, text)
    decreases |s| - text, 1
  {
    hide Body, Attributes, Skip, ReadNode, NodeIn, ContentHolds;
    ghost var b0 := buf[..];
    var nameEnd := SkipTable(buf, text, NodeName, s);
    if nameEnd == text {
      return Bad(EXPECTED_NAME, text);
    }
    var start := SkipTable(buf, nameEnd, Whitespace, s);
    var attributes := ParseAttributes(buf, start, s);
    if attributes.Bad? {
      return Bad(attributes.what, attributes.at);
    }
    ghost var b1 := buf[..];
    var body := ParseBody(buf, attributes.next, s);
    if body.Bad? {
      return Bad(body.what, body.at);
    }
    ghost var b2 := buf[..];
    BareName(s, text);
    Terminate(buf, nameEnd);
    ZeroedAhead(b2, buf[..], s, nameEnd, body.next);
    r := Ok(ElementSpans(Span(text, nameEnd - text), body.value.value, attributes.value, body.value.children), body.next);
    ElementDone(b0, b1, b2, buf[..], s, text, nameEnd, start, attributes.value, attributes.next,
                body.value, Body(s, attributes.next).value, body.next);
  }

  ghost predicate ElementParsed(p: Res<Node>, r: Res<NodeSpans>, b: Str, s: Str, lo: nat) {
    match p
    case Bad(what, at) => r == Bad(what, at)
    case Ok(node, next) =>
      && r.Ok? && r.next == next
      && Ahead(b, s, next)
      && ReadNode(b, r.value) == node && NodeIn(b, r.value, lo, next)
  }

  /** Lines 2055-2069. */
  method ParseBody(buf: array<Ch>, text: nat, ghost s: Str) returns (r: Res<Content>)
    requires ZeroEnded(s) && text < |s| && Ahead(buf[..], s, text)
    modifies buf
    ensures buf.Length == |s| && Agrees(old(buf[..]), buf[..], 0, text + 1)
    ensures ContentParsed(Body(s, text), r, buf[..], s, text + 1)
    decreases |s| - text, 1
  {
    hide Contents, ContentHolds;
    AheadAt(buf[..], s, text, text);
    if buf[text] == '>' {
      AheadAt(buf[..], s, text, text + 1);
      r := ParseContents(buf, text + 1, s);
    } else if buf[text] == '/' {
      AheadAt(buf[..], s, text, text + 1);
      if buf[text + 1] != '>' {
        return Bad(EXPECTED_GREATER, text + 1);
      }
      AheadAt(buf[..], s, text, text + 2);
      EmptyContent(buf[..], text + 1, text + 2);
      r := Ok(Content([], None), text + 2);
    } else {
      r := Bad(EXPECTED_GREATER, text);
    }
  }

  /** With no white space after the name there are no attributes. */
  lemma {:induction false} BareName(s: Str, text: nat)
    requires ZeroEnded(s) && text < |s|
    ensures var end := Skip(s, text, NodeName);
            Skip(s, end, Whitespace) == end ==> Attributes(s, end) == Ok([], end)
  {
    hide OneAttribute, Join;
    var end := Skip(s, text, NodeName);
    assert !NodeName.Test(s[end]) && !Whitespace.Test(s[Skip(s, end, Whitespace)]);
  }

  /** The name, the attributes and the content all survive to the end of the element. */
  lemma {:induction false} ElementDone(b0: Str, b1: Str, b2: Str, b3: Str, s: Str, text: nat, nameEnd: nat, start: nat,
                    attributes: seq<AttributeSpans>, mid: nat, content: Content, children: seq<Node>, next: nat)
    requires text < nameEnd <= start <= mid < next <= |s| && Ahead(b0, s, text)
    requires nameEnd == start ==> attributes == []
    requires Agrees(b0, b1, 0, start) && Agrees(b1, b2, 0, mid) && Zeroed(b2, b3, nameEnd)
    requires AttributesIn(b1, attributes, start, mid)
    requires ContentHolds(b2, content, children, mid + 1, next)
    ensures var r := ElementSpans(Span(text, nameEnd - text), content.value, attributes, content.children);
            && NodeIn(b3, r, text, next)
            && ReadNode(b3, r) == Element(s[text..nameEnd], ElementValue([], children), ReadAttributes(b1, attributes), children)
  {
    hide ReadAttributes, Zeroed, AttributesIn, ContentHolds;
    NameSurvives(b0, b1, b2, b3, s, text, nameEnd, start, mid, next);
    ZeroedBeside(b2, b3, nameEnd, mid + 1, next);
    ContentFrame(b2, b3, content, children, mid + 1, next, text, next);
    ContentRead(b3, content, children, text, next);
    if nameEnd < start {
      ZeroedBeside(b2, b3, nameEnd, start, mid);
      AttributesFrame(b1, b3, attributes, start, mid, text, next);
    } else {
      NoAttributes(b1, b3, text, next);
    }
  }

  lemma {:induction false} ContentRead(b: Str, c: Content, children: seq<Node>, lo: nat, hi: nat)
    requires ContentHolds(b, c, children, lo, hi)
    ensures ReadNodes(b, c.children) == children && ReadValue(b, c.value) == ElementValue([], children)
    ensures ValueIn(b, c.value, lo, hi)
    ensures forall k :: 0 <= k < |c.children| ==> NodeIn(b, c.children[k], lo, hi)
  {
  }

  lemma {:induction false} ZeroedBeside(b: Str, b': Str, k: nat, lo: nat, hi: nat)
    requires Zeroed(b, b', k) && k < lo
    ensures Agrees(b, b', lo, hi)
  {
  }

  lemma {:induction false} NoAttributes(b: Str, b': Str, lo: nat, hi: nat)
    ensures ReadAttributes(b, []) == ReadAttributes(b', []) && AttributesIn(b', [], lo, hi)
  {
  }

  lemma {:induction false} NameSurvives(b0: Str, b1: Str, b2: Str, b3: Str, s: Str, text: nat, nameEnd: nat,
                                        start: nat, mid: nat, next: nat)
    requires text < nameEnd <= start <= mid < next <= |s| && Ahead(b0, s, text)
    requires Agrees(b0, b1, 0, start) && Agrees(b1, b2, 0, mid) && Zeroed(b2, b3, nameEnd)
    ensures SpanIn(b3, Span(text, nameEnd - text), text, next)
    ensures ReadSpan(b3, Span(text, nameEnd - text)) == s[text..nameEnd]
  {
    forall k | text <= k < nameEnd ensures b3[k] == s[k] {
      AheadAt(b0, s, text, k);
    }
    assert b3[text..nameEnd] == s[text..nameEnd];
  }

  // ----- Documents ---------------------------------------------------------------------------------------

  /** `parse_bom` */
  method ParseBom(buf: array<Ch>, ghost s: Str) returns (text: nat)
    requires ZeroEnded(s) && buf[..] == s
    ensures text == SkipBom(s) && Ahead(buf[..], s, text)
  {
    text := 0;
    var bom := Reads(buf, 0, [Byte(0xEF), Byte(0xBB), Byte(0xBF)], s);
    if bom {
      text := 3;
    }
  }

  /** What the loop of `xml_document::parse` knows. */
  ghost predicate InDocument(b: Str, s: Str, first: nat, text: nat, nodes: seq<NodeSpans>, found: seq<Node>)
    requires ZeroEnded(s)
  {
    && first <= text < |s| && Ahead(b, s, text)
    && TopNodes(s, first) == Join(found, TopNodes(s, text))
    && ReadNodes(b, nodes) == found && NodesIn(b, nodes, first, text)
  }

  /** One round of the pure parser at the top level. */
  lemma {:induction false} TopCases(s: Str, pos: nat)
    requires ZeroEnded(s) && pos < |s|
    ensures var at := Skip(s, pos, Whitespace);
            && (s[at] == NUL ==> TopNodes(s, pos) == Ok([], at))
            && (s[at] != NUL && s[at] != '<' ==> TopNodes(s, pos) == Bad(EXPECTED_LESS, at))
            && (s[at] == '<' ==>
                  && at + 1 < |s|
                  && match NodeAt(s, at + 1)
                     case Bad(what, where) => TopNodes(s, pos) == Bad(what, where)
                     case Ok(node, next) => TopNodes(s, pos) == Join(Listed(node), TopNodes(s, next)))
  {
    hide NodeAt;
  }

  lemma {:induction false} TopStart(b: Str, s: Str, first: nat)
    requires ZeroEnded(s) && first < |s| && Ahead(b, s, first)
    ensures InDocument(b, s, first, first, [], [])
  {
    hide TopNodes;
    JoinNothing(TopNodes(s, first));
  }

  lemma {:induction false} TopNodeParsed(b: Str, b': Str, s: Str, first: nat, from: nat, pos: nat,
                                         nodes: seq<NodeSpans>, found: seq<Node>,
                      child: Res<Option<NodeSpans>>)
    requires ZeroEnded(s) && from <= pos < |s| == |b| && Agrees(b, b', 0, pos)
    requires InDocument(b, s, first, from, nodes, found)
    requires child.Ok? && child.next < |s| && NodeParsed(NodeAt(s, pos), child, b', s, pos) && pos <= child.next
    requires TopNodes(s, from) == Join(Listed(NodeAt(s, pos).value), TopNodes(s, child.next))
    ensures InDocument(b', s, first, child.next, nodes + NodeListed(child.value), found + Listed(NodeAt(s, pos).value))
  {
    hide NodeAt, TopNodes, NodeIn, ReadNode;
    var more := Listed(NodeAt(s, pos).value);
    JoinAssociates(found, more, TopNodes(s, child.next));
    NodesFrame(b, b', nodes, first, from, first, child.next);
    if child.value.Some? {
      var n := child.value.value;
      NodeFrame(b', b', n, pos, child.next, first, child.next);
      ReadNodesSnoc(b', nodes, n);
    } else {
      assert nodes + [] == nodes && found + [] == found;
    }
  }

  function NodeListed(n: Option<NodeSpans>): seq<NodeSpans> {
    if n.Some? then [n.value] else []
  }

  /** `xml_document::parse`, on a buffer that starts out as any zero-ended text: what is read from the
      buffer afterwards is what the pure parser finds in the text that was there before. */
  method Parse(buf: array<Ch>) returns (r: Res<seq<NodeSpans>>)
    requires ZeroEnded(buf[..])
    modifies buf
    ensures match Document(old(buf[..]))
            case Bad(what, at) => r == Bad(what, at)
            case Ok(nodes, end) =>
              && r.Ok? && r.next == end
              && ReadNodes(buf[..], r.value) == nodes
              && NodesIn(buf[..], r.value, 0, end)
              && end < buf.Length && buf[end..] == old(buf[end..])
  {
    hide TopNodes, NodeAt, NodeIn, ReadNode, Skip;
    ghost var s := buf[..];
    var first := ParseBom(buf, s);
    var text, nodes := first, [];
    ghost var found: seq<Node> := [];
    TopStart(buf[..], s, first);
    while true
      invariant buf.Length == |s| && InDocument(buf[..], s, first, text, nodes, found)
      decreases |s| - text
    {
      ghost var b, from := buf[..], text;
      TopCases(s, from);
      text := SkipTable(buf, text, Whitespace, s);
      if buf[text] == NUL {
        JoinEnd(found, text);
        NodesFrame(b, b, nodes, first, from, 0, text);
        return Ok(nodes, text);
      }
      if buf[text] != '<' {
        return Bad(EXPECTED_LESS, text);
      }
      AheadAt(b, s, text, text + 1);
      ghost var node := NodeAt(s, text + 1);
      var child := ParseNode(buf, text + 1, s);
      if child.Bad? {
        return Bad(child.what, child.at);
      }
      TopNodeParsed(b, buf[..], s, first, from, text + 1, nodes, found, child);
      text, nodes, found := child.next, nodes + NodeListed(child.value), found + Listed(node.value);
    }
  }
}
