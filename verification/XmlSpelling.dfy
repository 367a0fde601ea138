/** The texts that stand for a document: white space around names and equals signs, either kind of quotes,
    characters spelled as references, markup without a node between the nodes, and a byte order mark.
    However a document is spelled, parsing finds it. */
module XmlSpelling {
  import opened XmlText
  import opened XmlReferences
  import opened XmlNumerals
  import opened XmlParser
  import opened XmlPrinter
  import opened XmlRoundTrip

  const BLANKS: string := " \t\n\r"
  const ENDS_NAME: string := " \t\n\r/>?"
  const ENDS_ATTRIBUTE_NAME: string := " \t\n\r/<>=?!"

  predicate Blank(w: Str) {
    forall k :: 0 <= k < |w| ==> w[k] in BLANKS
  }

  predicate Avoids(w: Str, chars: string) {
    forall k :: 0 <= k < |w| ==> w[k] != NUL && w[k] !in chars
  }

  /** What these strings have to do with the tables of the parser. */
  lemma TablesAre(w: Str)
    ensures Blank(w) <==> All(w, Whitespace)
    ensures Avoids(w, ENDS_NAME) <==> All(w, NodeName)
    ensures Avoids(w, ENDS_ATTRIBUTE_NAME) <==> All(w, AttributeName)
  {
    BlankTable(w);
    NameTable(w);
    AttributeNameTable(w);
  }

  lemma BlankTable(w: Str)
    ensures Blank(w) <==> All(w, Whitespace)
  {
    forall c: Ch ensures c in BLANKS <==> Whitespace.Test(c) {
    }
  }

  lemma NameTable(w: Str)
    ensures Avoids(w, ENDS_NAME) <==> All(w, NodeName)
  {
    forall c: Ch ensures c != NUL && c !in ENDS_NAME <==> NodeName.Test(c) {
    }
  }

  lemma AttributeNameTable(w: Str)
    ensures Avoids(w, ENDS_ATTRIBUTE_NAME) <==> All(w, AttributeName)
  {
    forall c: Ch ensures c != NUL && c !in ENDS_ATTRIBUTE_NAME <==> AttributeName.Test(c) {
    }
  }

  // ----- Characters --------------------------------------------------------------------------------------------

  datatype Piece =
    | Plain(c: Ch)
    | Named(c: Ch)                 // one of the five entities
    | Numeric(w: Str, hex: bool)

  /** c ends the text: a '<' ends data, the quote a value. */
  predicate Ends(c: Ch, stop: Table) {
    (stop == Text && c == '<') || (stop.AttributeValue? && c == stop.quote)
  }

  /** In a decimal reference too any hexadecimal digits are taken, and there may be none; a code has 64
      bits. */
  ghost predicate PieceOk(p: Piece, stop: Table) {
    match p
    case Plain(c) => c != NUL && !Ends(c, stop)
    case Named(c) => c == '<' || c == '>' || c == '\'' || c == '"' || c == '&'
    case Numeric(w, hex) => Digits(w) && CodeOf(w, hex) < 0x110000
  }

  function PieceText(p: Piece): Str {
    match p
    case Plain(c) => [c]
    case Named(c) => EscapeChar(c, NUL)
    case Numeric(w, hex) => Reference(w, hex)
  }

  ghost function PieceMeaning(p: Piece): Str {
    match p
    case Plain(c) => [c]
    case Named(c) => [c]
    case Numeric(w, hex) => if CodeOf(w, hex) < 0x110000 then Encode(CodeOf(w, hex)).value else []
  }

  /** Behind an ampersand w would be taken for a reference. */
  predicate StartsReference(w: Str) {
    At(w, 0, "amp;") || At(w, 0, "apos;") || At(w, 0, "quot;") || At(w, 0, "gt;") || At(w, 0, "lt;") || (w != [] && w[0] == '#')
  }

  /** An ampersand may stand for itself if what follows does not make it a reference. */
  ghost predicate PiecesOk(ps: seq<Piece>, stop: Table) {
    ps == [] || (PieceOk(ps[0], stop) && (ps[0] == Plain('&') ==> !StartsReference(PiecesText(ps[1..]))) && PiecesOk(ps[1..], stop))
  }

  function PiecesText(ps: seq<Piece>): Str {
    if ps == [] then [] else PieceText(ps[0]) + PiecesText(ps[1..])
  }

  ghost function PiecesMeaning(ps: seq<Piece>): Str {
    if ps == [] then [] else PieceMeaning(ps[0]) + PiecesMeaning(ps[1..])
  }

  predicate TextTable(stop: Table) {
    stop == Text || stop == AttributeValue('\'') || stop == AttributeValue('"')
  }

  /** What ends a text ends a word too: whether the word stands here is settled within the text. */
  lemma {:induction false} StartsWithin(s: Str, pos: nat, w: Str, word: Str)
    requires At(s, pos, w) && pos + |w| < |s| && s[pos + |w|] !in word
    ensures At(s, pos, word) <==> At(w, 0, word)
  {
    AtAll(s, pos, word);
    if |word| <= |w| {
      Within(s, pos, w, 0, word);
    } else {
      assert word[|w|] in word;
    }
  }

  lemma {:induction false} Within(s: Str, pos: nat, all: Str, k: nat, mark: Str)
    requires At(s, pos, all) && k + |mark| <= |all|
    ensures At(s, pos + k, mark) <==> At(all, k, mark)
  {
    var m := k + |mark|;
    assert all == all[..k] + all[k..] && all[k..] == all[k..m] + all[m..];
    AtSplit(s, pos, all[..k], all[k..]);
    AtSplit(s, pos + k, all[k..m], all[m..]);
  }

  /** An ampersand that starts no reference. */
  lemma {:induction false} AmpersandStep(s: Str, pos: nat, dest: nat, rest: Str)
    requires ZeroEnded(s) && pos + 1 < |s| && s[pos] == '&' && At(s, pos + 1, rest) && !StartsReference(rest)
    requires var end := pos + 1 + |rest|;
             end < |s| && (s[end] == '<' || s[end] == '\'' || s[end] == '"' || s[end] == NUL)
    ensures StepAt(s, pos, dest) == Ok(['&'], pos + 1)
  {
    hide At, NumericAt;
    StartsWithin(s, pos + 1, rest, "amp;");
    StartsWithin(s, pos + 1, rest, "apos;");
    StartsWithin(s, pos + 1, rest, "quot;");
    StartsWithin(s, pos + 1, rest, "gt;");
    StartsWithin(s, pos + 1, rest, "lt;");
    if rest != [] {
      AtIndex(s, pos + 1, rest, 0);
    }
  }

  lemma {:induction false} PieceStep(s: Str, pos: nat, dest: nat, p: Piece, stop: Table, rest: Str)
    requires ZeroEnded(s) && PieceOk(p, stop) && TextTable(stop) && At(s, pos, PieceText(p))
    requires p == Plain('&') ==> At(s, pos + 1, rest) && !StartsReference(rest)
    requires p == Plain('&') ==> pos + 1 + |rest| < |s| && !stop.Test(s[pos + 1 + |rest|])
    ensures var next := pos + |PieceText(p)|;
            && next < |s| && s[pos] != NUL && stop.Test(s[pos])
            && StepAt(s, pos, dest) == Ok(PieceMeaning(p), next)
  {
    hide At, StepAt, EscapeChar, Encode, Digits, Value, StartsReference;
    match p
    case Plain(c) =>
      AtIndex(s, pos, [c], 0);
      if c == '&' {
        AmpersandStep(s, pos, dest, rest);
      } else {
        PlainStep(s, pos, dest);
      }
    case Named(c) =>
      CharBack(s, pos, c, NUL, dest);
      NamedStarts(c, stop);
    case Numeric(w, hex) =>
      HasBytes(CodeOf(w, hex));
      ReferenceStep(s, pos, dest, w, hex);
  }

  lemma HasBytes(n: nat)
    requires n < 0x110000
    ensures Encode(n).Some?
  {
  }

  lemma PlainStep(s: Str, pos: nat, dest: nat)
    requires ZeroEnded(s) && pos < |s| && s[pos] != NUL && s[pos] != '&'
    ensures StepAt(s, pos, dest) == Ok([s[pos]], pos + 1) && pos + 1 < |s|
  {
  }

  lemma NamedStarts(c: Ch, stop: Table)
    requires PieceOk(Named(c), stop)
    ensures EscapeChar(c, NUL)[0] == '&'
  {
  }

  /** Spelled characters are translated to what they stand for. */
  lemma {:induction false} PiecesEnd(s: Str, pos: nat, dest: nat, ps: seq<Piece>, stop: Table)
    requires ZeroEnded(s) && pos < |s| && PiecesOk(ps, stop) && TextTable(stop) && At(s, pos, PiecesText(ps))
    requires pos + |PiecesText(ps)| < |s| && !stop.Test(s[pos + |PiecesText(ps)|])
    ensures Expand(s, pos, dest, stop) == Ok(PiecesMeaning(ps), pos + |PiecesText(ps)|)
    decreases |ps|
  {
    hide At, Expand, StepAt, PieceText, PieceMeaning, PieceOk, StartsReference;
    ExpandStep(s, pos, dest, stop);
    if ps != [] {
      var p, rest := ps[0], ps[1..];
      AtSplit(s, pos, PieceText(p), PiecesText(rest));
      PlainText(p);
      PieceStep(s, pos, dest, p, stop, PiecesText(rest));
      PiecesEnd(s, pos + |PieceText(p)|, dest + |PieceMeaning(p)|, rest, stop);
    }
  }

  lemma PlainText(p: Piece)
    ensures p.Plain? ==> PieceText(p) == [p.c]
  {
  }

  // ----- Attributes --------------------------------------------------------------------------------------------

  /** before and after the equals sign, and behind the value, there may be white space. */
  datatype AttributeSpelling =
    AttributeSpelling(name: Str, before: Str, after: Str, quote: Ch, value: seq<Piece>, behind: Str)

  ghost predicate AttributeOk(a: AttributeSpelling) {
    && a.name != [] && Avoids(a.name, ENDS_ATTRIBUTE_NAME)
    && Blank(a.before) && Blank(a.after) && Blank(a.behind)
    && (a.quote == '\'' || a.quote == '"')
    && PiecesOk(a.value, AttributeValue(a.quote))
  }

  function Quoted(a: AttributeSpelling): Str {
    [a.quote] + (PiecesText(a.value) + ([a.quote] + a.behind))
  }

  function AttributeSpelled(a: AttributeSpelling): Str {
    a.name + (a.before + ("=" + (a.after + Quoted(a))))
  }

  ghost function AttributeMeaning(a: AttributeSpelling): Attribute {
    Attribute(a.name, PiecesMeaning(a.value))
  }

  ghost predicate AttributesOk(list: seq<AttributeSpelling>) {
    forall k :: 0 <= k < |list| ==> AttributeOk(list[k])
  }

  function AttributesSpelled(list: seq<AttributeSpelling>): Str {
    if list == [] then [] else AttributeSpelled(list[0]) + AttributesSpelled(list[1..])
  }

  ghost function AttributesMeaning(list: seq<AttributeSpelling>): seq<Attribute> {
    if list == [] then [] else [AttributeMeaning(list[0])] + AttributesMeaning(list[1..])
  }

  lemma {:induction false} BlankSkipped(s: Str, pos: nat, w: Str)
    requires ZeroEnded(s) && Blank(w) && At(s, pos, w) && pos + |w| < |s| && !Whitespace.Test(s[pos + |w|])
    ensures Skip(s, pos, Whitespace) == pos + |w|
  {
    hide At, Skip;
    TablesAre(w);
    NameBack(s, pos, w, Whitespace);
  }

  /** A name with white space and an equals sign behind it. */
  lemma {:induction false} NameSpelled(s: Str, pos: nat, name: Str, before: Str)
    requires ZeroEnded(s) && name != [] && Avoids(name, ENDS_ATTRIBUTE_NAME) && Blank(before)
    requires At(s, pos, name + (before + "=")) && pos + |name| + |before| + 1 < |s|
    ensures AttributeName.Test(s[pos]) && AttributeNameAt(s, pos) == Ok(name, pos + |name| + |before| + 1)
  {
    hide At, Skip, Avoids, Blank, All;
    AtSplit(s, pos, name, before + "=");
    AtSplit(s, pos + |name|, before, "=");
    AtIndex(s, pos, name, 0);
    AtIndex(s, pos + |name| + |before|, "=", 0);
    if before != [] {
      AtIndex(s, pos + |name|, before, 0);
      BlankEndsName(before);
    }
    BlankSkipped(s, pos + |name|, before);
    TablesAre(name);
    NameBack(s, pos, name, AttributeName);
    NameFirst(name);
  }

  lemma {:induction false} ValueSplit(s: Str, pos: nat, a: AttributeSpelling)
    requires At(s, pos, a.after + Quoted(a))
    ensures var open, text := pos + |a.after|, PiecesText(a.value);
            && |Quoted(a)| == 2 + |text| + |a.behind| && open + |Quoted(a)| <= |s|
            && At(s, pos, a.after) && At(s, open + 1, text) && At(s, open + 2 + |text|, a.behind)
            && s[open] == a.quote && s[open + 1 + |text|] == a.quote
  {
    hide At, PiecesText;
    var q, text := [a.quote], PiecesText(a.value);
    var open := pos + |a.after|;
    AtSplit(s, pos, a.after, Quoted(a));
    AtSplit(s, open, q, text + (q + a.behind));
    AtSplit(s, open + 1, text, q + a.behind);
    AtSplit(s, open + 1 + |text|, q, a.behind);
    AtIndex(s, open, q, 0);
    AtIndex(s, open + 1 + |text|, q, 0);
  }

  lemma {:induction false} QuotesFound(s: Str, pos: nat, open: nat, value: Str, mid: nat, end: nat)
    requires ZeroEnded(s) && pos < |s| && open < mid < |s| && mid + 1 < |s| && (s[open] == '\'' || s[open] == '"') && s[mid] == s[open]
    requires Skip(s, pos, Whitespace) == open && Skip(s, mid + 1, Whitespace) == end
    requires Expand(s, open + 1, open + 1, AttributeValue(s[open])) == Ok(value, mid)
    ensures AttributeValueAt(s, pos) == Ok(value, end)
  {
    hide Skip, Expand;
  }

  /** The quoted value and the white space around it. */
  lemma {:induction false} ValueSpelled(s: Str, pos: nat, a: AttributeSpelling)
    requires ZeroEnded(s) && AttributeOk(a) && At(s, pos, a.after + Quoted(a))
    requires var end := pos + |a.after| + |Quoted(a)|; end < |s| && !Whitespace.Test(s[end])
    ensures AttributeValueAt(s, pos) == Ok(PiecesMeaning(a.value), pos + |a.after| + |Quoted(a)|)
  {
    hide At, Skip, Expand, PiecesText, PiecesMeaning, PiecesOk, Blank, Avoids, Quoted, AttributeValueAt;
    ValueSplit(s, pos, a);
    var open, mid := pos + |a.after|, pos + |a.after| + 1 + |PiecesText(a.value)|;
    BlankSkipped(s, pos, a.after);
    PiecesEnd(s, open + 1, open + 1, a.value, AttributeValue(a.quote));
    BlankSkipped(s, mid + 1, a.behind);
    QuotesFound(s, pos, open, PiecesMeaning(a.value), mid, mid + 1 + |a.behind|);
  }

  lemma {:induction false} AttributeFound(s: Str, pos: nat, a: AttributeSpelling)
    requires ZeroEnded(s) && AttributeOk(a) && At(s, pos, AttributeSpelled(a))
    requires var end := pos + |AttributeSpelled(a)|; end < |s| && !Whitespace.Test(s[end])
    ensures AttributeName.Test(s[pos]) && OneAttribute(s, pos) == Ok(AttributeMeaning(a), pos + |AttributeSpelled(a)|)
  {
    hide At, Quoted, AttributeNameAt, AttributeValueAt, Avoids, PiecesOk, PiecesMeaning;
    var value := a.after + Quoted(a);
    assert AttributeSpelled(a) == (a.name + (a.before + "=")) + value by { Nested(a.name, a.before, "=", value); }
    AtSplit(s, pos, a.name + (a.before + "="), value);
    NameSpelled(s, pos, a.name, a.before);
    ValueSpelled(s, pos + |a.name| + |a.before| + 1, a);
  }

  lemma {:induction false} Nested(a: Str, b: Str, c: Str, d: Str)
    ensures a + (b + (c + d)) == (a + (b + c)) + d
  {
    Regroup(b, c, d);
    Regroup(a, b + c, d);
  }

  lemma {:induction false} AttributesFound(s: Str, pos: nat, list: seq<AttributeSpelling>)
    requires ZeroEnded(s) && AttributesOk(list) && At(s, pos, AttributesSpelled(list))
    requires var end := pos + |AttributesSpelled(list)|; end < |s| && (s[end] == '/' || s[end] == '>')
    ensures Attributes(s, pos) == Ok(AttributesMeaning(list), pos + |AttributesSpelled(list)|)
    ensures list != [] ==> AttributeName.Test(s[pos])
    decreases |list|
  {
    hide At, AttributeSpelled, AttributeOk, OneAttribute, AttributeMeaning;
    if list != [] {
      var a, rest := list[0], list[1..];
      var next := pos + |AttributeSpelled(a)|;
      AtSplit(s, pos, AttributeSpelled(a), AttributesSpelled(rest));
      AttributesFound(s, next, rest);
      NoBlank(s, next);
      AttributeFound(s, pos, a);
    }
  }

  lemma NoBlank(s: Str, pos: nat)
    requires pos < |s|
    ensures AttributeName.Test(s[pos]) || s[pos] == '/' || s[pos] == '>' || s[pos] == '<' ==> !Whitespace.Test(s[pos])
  {
  }

  // ----- Markup without a node ---------------------------------------------------------------------------------

  /** A part of a document type: at the top any characters but '[' and '>', in brackets any but brackets. */
  datatype Sub = Chars(w: Str) | Group(subs: seq<Sub>)

  datatype Markup =
    | Comment(w: Str)
    | Instruction(w: Str)          // an XML declaration is one of them
    | Doctype(space: Ch, subs: seq<Sub>)
    | Unknown(w: Str)

  predicate SubOk(sub: Sub, inside: bool) {
    match sub
    case Chars(w) => NUL !in w && '[' !in w && if inside then ']' !in w else '>' !in w
    case Group(subs) => forall k :: 0 <= k < |subs| ==> SubOk(subs[k], true)
  }

  predicate SubsOk(subs: seq<Sub>, inside: bool) {
    forall k :: 0 <= k < |subs| ==> SubOk(subs[k], inside)
  }

  function SubText(sub: Sub): Str
    decreases sub, 1
  {
    match sub
    case Chars(w) => w
    case Group(subs) => "[" + (SubsText(subs) + "]")
  }

  function SubsText(subs: seq<Sub>): Str
    decreases subs, 0
  {
    if subs == [] then [] else SubText(subs[0]) + SubsText(subs[1..])
  }

  predicate MarkupOk(m: Markup) {
    match m
    case Comment(w) => NUL !in w && Without(w, "-->")
    case Instruction(w) => NUL !in w && Without(w, "?>")
    case Doctype(space, subs) => Whitespace.Test(space) && SubsOk(subs, false)
    case Unknown(w) =>
      && NUL !in w && '>' !in w
      && !At(w, 0, "--") && !At(w, 0, "[CDATA[")
      && !(At(w, 0, "DOCTYPE") && |w| > 7 && Whitespace.Test(w[7]))
  }

  function MarkupText(m: Markup): Str {
    match m
    case Comment(w) => "<!--" + (w + "-->")
    case Instruction(w) => "<?" + (w + "?>")
    case Doctype(space, subs) => "<!DOCTYPE" + ([space] + (SubsText(subs) + ">"))
    case Unknown(w) => "<!" + (w + ">")
  }

  /** A mark whose last character is unlike the others. */
  predicate EndMark(mark: Str) {
    mark != [] && NUL !in mark && forall k :: 0 <= k < |mark| - 1 ==> mark[k] != mark[|mark| - 1]
  }

  lemma {:induction false} NoMarkBefore(w: Str, mark: Str, k: nat)
    requires EndMark(mark) && Without(w, mark) && k < |w|
    ensures !At(w + mark, k, mark)
  {
    var all, n := w + mark, |mark|;
    AtAll(all, k, mark);
    assert !At(w, k, mark);
    if k + n <= |w| {
      assert all[k..k + n] == w[k..k + n];
    } else if k + n <= |all| {
      var j := k + n - 1 - |w|;
      assert all[k + (n - 1)] == mark[j] != mark[n - 1];
    }
  }

  /** Before the mark behind w there is none. */
  lemma {:induction false} MarkIsAhead(s: Str, pos: nat, w: Str, mark: Str)
    requires ZeroEnded(s) && EndMark(mark) && NUL !in w && Without(w, mark) && At(s, pos, w + mark)
    ensures pos + |w| + |mark| < |s| && At(s, pos + |w|, mark)
    ensures forall q :: pos <= q < pos + |w| ==> !At(s, q, mark) && s[q] != NUL
  {
    AtSplit(s, pos, w, mark);
    AtIndex(s, pos + |w|, mark, |mark| - 1);
    forall q | pos <= q < pos + |w| ensures !At(s, q, mark) && s[q] != NUL {
      NoMarkBefore(w, mark, q - pos);
      AtIndex(s, pos, w, q - pos);
      Within(s, pos, w + mark, q - pos, mark);
    }
  }

  /** The first mark behind w is the one that stands there. */
  lemma {:induction false} MarkIsFirst(s: Str, pos: nat, w: Str, mark: Str)
    requires ZeroEnded(s) && EndMark(mark) && NUL !in w && Without(w, mark) && At(s, pos, w + mark)
    ensures pos + |w| + |mark| < |s| && SkipPast(s, pos, mark) == Ok((), pos + |w| + |mark|)
  {
    hide At, Without;
    MarkIsAhead(s, pos, w, mark);
    SkipTo(s, pos, pos + |w|, mark);
  }

  lemma {:induction false} SkipTo(s: Str, pos: nat, end: nat, mark: Str)
    requires ZeroEnded(s) && EndMark(mark) && pos <= end < |s| && At(s, end, mark)
    requires forall q :: pos <= q < end ==> !At(s, q, mark) && s[q] != NUL
    ensures SkipPast(s, pos, mark) == Ok((), end + |mark|)
    decreases end - pos
  {
    hide At;
    if pos < end {
      SkipTo(s, pos + 1, end, mark);
    }
  }

  // ----- Reading the markup -----------------------------------------------------------------------------------

  /** Whatever the depth inside brackets, it is the same behind balanced text. */
  lemma {:induction false} BracketsSkipped(s: Str, pos: nat, subs: seq<Sub>, depth: nat)
    requires ZeroEnded(s) && SubsOk(subs, true) && At(s, pos, SubsText(subs)) && pos + |SubsText(subs)| < |s| && depth > 0
    ensures SkipBrackets(s, pos, depth) == SkipBrackets(s, pos + |SubsText(subs)|, depth)
    decreases subs, 0
  {
    hide At, SubText, SkipBrackets, SubOk;
    if subs != [] {
      var rest := subs[1..];
      AtSplit(s, pos, SubText(subs[0]), SubsText(rest));
      BracketSkipped(s, pos, subs[0], depth);
      BracketsSkipped(s, pos + |SubText(subs[0])|, rest, depth);
    }
  }

  lemma {:induction false} BracketSkipped(s: Str, pos: nat, sub: Sub, depth: nat)
    requires ZeroEnded(s) && SubOk(sub, true) && At(s, pos, SubText(sub)) && pos + |SubText(sub)| < |s| && depth > 0
    ensures SkipBrackets(s, pos, depth) == SkipBrackets(s, pos + |SubText(sub)|, depth)
    decreases sub, 1
  {
    hide At, SkipBrackets, SubsText;
    match sub
    case Chars(w) =>
      CharsSkipped(s, pos, w, depth);
    case Group(subs) =>
      var text := SubsText(subs);
      AtSplit(s, pos, "[", text + "]");
      AtSplit(s, pos + 1, text, "]");
      AtIndex(s, pos, "[", 0);
      AtIndex(s, pos + 1 + |text|, "]", 0);
      BracketStep(s, pos, depth);
      BracketsSkipped(s, pos + 1, subs, depth + 1);
      BracketStep(s, pos + 1 + |text|, depth + 1);
  }

  lemma {:induction false} CharsSkipped(s: Str, pos: nat, w: Str, depth: nat)
    requires ZeroEnded(s) && At(s, pos, w) && pos + |w| < |s| && depth > 0
    requires NUL !in w && '[' !in w && ']' !in w
    ensures SkipBrackets(s, pos, depth) == SkipBrackets(s, pos + |w|, depth)
    decreases |w|
  {
    hide At, SkipBrackets;
    if w != [] {
      assert w == [w[0]] + w[1..];
      AtSplit(s, pos, [w[0]], w[1..]);
      AtIndex(s, pos, [w[0]], 0);
      BracketStep(s, pos, depth);
      CharsSkipped(s, pos + 1, w[1..], depth);
    }
  }

  lemma {:induction false} BracketStep(s: Str, pos: nat, depth: nat)
    requires ZeroEnded(s) && pos < |s| && depth > 0 && s[pos] != NUL
    ensures pos + 1 < |s|
    ensures SkipBrackets(s, pos, depth) ==
            SkipBrackets(s, pos + 1, if s[pos] == '[' then depth + 1 else if s[pos] == ']' then depth - 1 else depth)
  {
  }

  lemma {:induction false} NoDepth(s: Str, pos: nat)
    requires ZeroEnded(s) && pos < |s|
    ensures SkipBrackets(s, pos, 0) == Ok((), pos)
  {
  }

  lemma {:induction false} DoctypeStep(s: Str, pos: nat)
    requires ZeroEnded(s) && pos < |s|
    ensures s[pos] == '>' ==> SkipDoctype(s, pos) == Ok((), pos + 1)
    ensures s[pos] == '[' && SkipBrackets(s, pos + 1, 1).Ok? ==>
              SkipDoctype(s, pos) == SkipDoctype(s, SkipBrackets(s, pos + 1, 1).next)
    ensures s[pos] != '>' && s[pos] != '[' && s[pos] != NUL ==>
              pos + 1 < |s| && SkipDoctype(s, pos) == SkipDoctype(s, pos + 1)
  {
    hide SkipBrackets;
  }

  lemma {:induction false} OuterCharsSkipped(s: Str, pos: nat, w: Str)
    requires ZeroEnded(s) && At(s, pos, w) && pos + |w| < |s|
    requires NUL !in w && '[' !in w && '>' !in w
    ensures SkipDoctype(s, pos) == SkipDoctype(s, pos + |w|)
    decreases |w|
  {
    hide At, SkipDoctype;
    if w != [] {
      assert w == [w[0]] + w[1..];
      AtSplit(s, pos, [w[0]], w[1..]);
      AtIndex(s, pos, [w[0]], 0);
      DoctypeStep(s, pos);
      OuterCharsSkipped(s, pos + 1, w[1..]);
    }
  }

  lemma {:induction false} GroupSkipped(s: Str, pos: nat, subs: seq<Sub>)
    requires ZeroEnded(s) && SubOk(Group(subs), false) && At(s, pos, SubText(Group(subs)))
    requires pos + |SubText(Group(subs))| < |s|
    ensures SkipDoctype(s, pos) == SkipDoctype(s, pos + |SubText(Group(subs))|)
  {
    hide At, SkipDoctype, SkipBrackets, SubsText;
    var text := SubsText(subs);
    AtSplit(s, pos, "[", text + "]");
    AtSplit(s, pos + 1, text, "]");
    AtIndex(s, pos, "[", 0);
    AtIndex(s, pos + 1 + |text|, "]", 0);
    BracketsSkipped(s, pos + 1, subs, 1);
    BracketStep(s, pos + 1 + |text|, 1);
    NoDepth(s, pos + 2 + |text|);
    DoctypeStep(s, pos);
  }

  lemma {:induction false} DoctypeSkipped(s: Str, pos: nat, subs: seq<Sub>)
    requires ZeroEnded(s) && SubsOk(subs, false) && At(s, pos, SubsText(subs) + ">")
    ensures pos + |SubsText(subs)| + 1 < |s| && SkipDoctype(s, pos) == Ok((), pos + |SubsText(subs)| + 1)
    decreases |subs|
  {
    hide At, SkipDoctype, SubText, SubOk;
    AtSplit(s, pos, SubsText(subs), ">");
    AtIndex(s, pos + |SubsText(subs)|, ">", 0);
    if subs == [] {
      DoctypeStep(s, pos);
    } else {
      var sub, rest := subs[0], subs[1..];
      Regroup(SubText(sub), SubsText(rest), ">");
      AtSplit(s, pos, SubText(sub), SubsText(rest) + ">");
      DoctypeSkipped(s, pos + |SubText(sub)|, rest);
      SubSkipped(s, pos, sub);
    }
  }

  lemma {:induction false} SubSkipped(s: Str, pos: nat, sub: Sub)
    requires ZeroEnded(s) && SubOk(sub, false) && At(s, pos, SubText(sub)) && pos + |SubText(sub)| < |s|
    ensures SkipDoctype(s, pos) == SkipDoctype(s, pos + |SubText(sub)|)
  {
    hide At, SkipDoctype;
    match sub
    case Chars(w) => OuterCharsSkipped(s, pos, w);
    case Group(subs) => GroupSkipped(s, pos, subs);
  }

  // What DeclaredAt and InstructionAt do with each kind of markup, from the '!' or behind the '?' on.

  lemma {:induction false} DeclaredComment(s: Str, pos: nat, end: nat)
    requires ZeroEnded(s) && pos + 3 < |s| && s[pos] == '!' && At(s, pos + 1, "--") && SkipPast(s, pos + 3, "-->") == Ok((), end)
    ensures DeclaredAt(s, pos) == Ok(None, end)
  {
    hide At, SkipPast, SkipDoctype, CdataNode;
  }

  lemma {:induction false} DeclaredDoctype(s: Str, pos: nat, end: nat)
    requires ZeroEnded(s) && pos + 9 < |s| && s[pos] == '!' && s[pos + 1] == 'D'
    requires At(s, pos + 1, "DOCTYPE") && Whitespace.Test(s[pos + 8]) && SkipDoctype(s, pos + 9) == Ok((), end)
    ensures DeclaredAt(s, pos) == Ok(None, end)
  {
    hide At, SkipPast, SkipDoctype, CdataNode;
    NoDashes(s, pos + 1);
    NoCdata(s, pos + 1);
  }

  lemma {:induction false} NoDashes(s: Str, pos: nat)
    requires pos < |s| && s[pos] != '-'
    ensures !At(s, pos, "--")
  {
    var dashes: Str := "--";
    AtAll(s, pos, dashes);
    assert s[pos + 0] == s[pos] && dashes[0] == '-';
  }

  lemma {:induction false} NoCdata(s: Str, pos: nat)
    requires pos < |s| && s[pos] != '['
    ensures !At(s, pos, "[CDATA[")
  {
    var cdata: Str := "[CDATA[";
    AtAll(s, pos, cdata);
    assert s[pos + 0] == s[pos] && cdata[0] == '[';
  }

  lemma {:induction false} DeclaredUnknown(s: Str, pos: nat, end: nat)
    requires ZeroEnded(s) && pos + 1 < |s| && s[pos] == '!' && SkipPast(s, pos + 1, ">") == Ok((), end)
    requires !At(s, pos + 1, "--") && !At(s, pos + 1, "[CDATA[") && !IsDoctype(s, pos)
    ensures DeclaredAt(s, pos) == Ok(None, end)
  {
    hide At, SkipPast, SkipDoctype, CdataNode, IsDoctype;
  }

  lemma {:induction false} CommentSkipped(s: Str, pos: nat, w: Str)
    requires ZeroEnded(s) && NUL !in w && Without(w, "-->") && At(s, pos, "<!--" + (w + "-->"))
    ensures var end := pos + |w| + 7;
            end < |s| && s[pos] == '<' && s[pos + 1] == '!' && DeclaredAt(s, pos + 1) == Ok(None, end)
  {
    hide At, SkipPast, DeclaredAt, Without;
    var mark: Str := "-->";
    assert "<!--" == "<!" + "--";
    AtSplit(s, pos, "<!--", w + mark);
    AtSplit(s, pos, "<!", "--");
    AtIndex(s, pos, "<!", 0);
    AtIndex(s, pos, "<!", 1);
    MarkIsFirst(s, pos + 4, w, mark);
    DeclaredComment(s, pos + 1, pos + |w| + 7);
  }

  lemma {:induction false} DoctypeMarkup(s: Str, pos: nat, space: Ch, subs: seq<Sub>)
    requires ZeroEnded(s) && Whitespace.Test(space) && SubsOk(subs, false)
    requires At(s, pos, "<!DOCTYPE" + ([space] + (SubsText(subs) + ">")))
    ensures var end := pos + |SubsText(subs)| + 11;
            end < |s| && s[pos] == '<' && s[pos + 1] == '!' && DeclaredAt(s, pos + 1) == Ok(None, end)
  {
    hide At, DeclaredAt, SkipDoctype, SubsText, SubsOk;
    assert "<!DOCTYPE" == "<!" + "DOCTYPE";
    AtSplit(s, pos, "<!DOCTYPE", [space] + (SubsText(subs) + ">"));
    AtSplit(s, pos + 9, [space], SubsText(subs) + ">");
    AtSplit(s, pos, "<!", "DOCTYPE");
    AtIndex(s, pos, "<!", 0);
    AtIndex(s, pos, "<!", 1);
    AtIndex(s, pos + 2, "DOCTYPE", 0);
    AtIndex(s, pos + 9, [space], 0);
    DoctypeSkipped(s, pos + 10, subs);
    DeclaredDoctype(s, pos + 1, pos + |SubsText(subs)| + 11);
  }

  lemma {:induction false} UnknownIsNoDoctype(s: Str, pos: nat, w: Str)
    requires ZeroEnded(s) && 0 < pos && At(s, pos, w + ">") && MarkupOk(Unknown(w))
    ensures pos + |w| + 1 < |s| && !IsDoctype(s, pos - 1)
  {
    hide At;
    AtSplit(s, pos, w, ">");
    AtIndex(s, pos + |w|, ">", 0);
    StartsWithin(s, pos, w, "DOCTYPE");
    if At(s, pos, "DOCTYPE") {
      AtAll(w, 0, "DOCTYPE");
      if |w| > 7 {
        AtIndex(s, pos, w, 7);
      }
    }
  }

  lemma {:induction false} UnknownMarkup(s: Str, pos: nat, w: Str)
    requires ZeroEnded(s) && MarkupOk(Unknown(w)) && At(s, pos, "<!" + (w + ">"))
    ensures var end := pos + |w| + 3;
            end < |s| && s[pos] == '<' && s[pos + 1] == '!' && DeclaredAt(s, pos + 1) == Ok(None, end)
  {
    hide At, SkipPast, DeclaredAt, IsDoctype;
    AtSplit(s, pos, "<!", w + ">");
    AtSplit(s, pos + 2, w, ">");
    AtIndex(s, pos + 2 + |w|, ">", 0);
    AtIndex(s, pos, "<!", 0);
    AtIndex(s, pos, "<!", 1);
    StartsWithin(s, pos + 2, w, "--");
    StartsWithin(s, pos + 2, w, "[CDATA[");
    UnknownIsNoDoctype(s, pos + 2, w);
    NoGreater(w);
    MarkIsFirst(s, pos + 2, w, ">");
    DeclaredUnknown(s, pos + 1, pos + |w| + 3);
  }

  lemma {:induction false} NoGreater(w: Str)
    requires '>' !in w
    ensures Without(w, ">")
  {
    forall k | 0 <= k < |w| ensures !At(w, k, ">") {
      var mark: Str := ">";
      AtAll(w, k, mark);
      assert w[k] in w && w[k + 0] == w[k] != mark[0];
    }
  }

  lemma {:induction false} InstructionEnds(s: Str, pos: nat, end: nat)
    requires ZeroEnded(s) && pos < |s| && (if IsDeclaration(s, pos) then SkipPast(s, pos + 4, "?>") else SkipPast(s, pos, "?>")) == Ok((), end)
    ensures InstructionAt(s, pos) == Ok(None, end)
  {
    hide SkipPast, IsDeclaration;
  }

  /** A declaration is no shorter than its first four characters. */
  lemma {:induction false} DeclarationIsLong(s: Str, pos: nat, n: nat)
    requires ZeroEnded(s) && pos + n < |s| && s[pos + n] == '?' && IsDeclaration(s, pos)
    ensures n >= 4
  {
  }

  lemma {:induction false} InstructionSkipped(s: Str, pos: nat, w: Str)
    requires ZeroEnded(s) && NUL !in w && Without(w, "?>") && At(s, pos, "<?" + (w + "?>"))
    ensures var end := pos + |w| + 4;
            end < |s| && s[pos] == '<' && s[pos + 1] == '?' && InstructionAt(s, pos + 2) == Ok(None, end)
  {
    hide At, SkipPast, Without, InstructionAt, IsDeclaration;
    var mark: Str := "?>";
    AtSplit(s, pos, "<?", w + mark);
    AtIndex(s, pos, "<?", 0);
    AtIndex(s, pos, "<?", 1);
    MarkIsAhead(s, pos + 2, w, mark);
    AtIndex(s, pos + 2 + |w|, mark, 0);
    if IsDeclaration(s, pos + 2) {
      DeclarationIsLong(s, pos + 2, |w|);
      SkipTo(s, pos + 6, pos + 2 + |w|, mark);
    } else {
      SkipTo(s, pos + 2, pos + 2 + |w|, mark);
    }
    InstructionEnds(s, pos + 2, pos + |w| + 4);
  }

  /** Markup without a node is found and skipped. */
  lemma {:induction false} MarkupSkipped(s: Str, pos: nat, m: Markup)
    requires ZeroEnded(s) && MarkupOk(m) && At(s, pos, MarkupText(m))
    ensures var end := pos + |MarkupText(m)|;
            end < |s| && s[pos] == '<' && s[pos + 1] != '/' && NodeAt(s, pos + 1) == Ok(None, end)
  {
    hide At, Without, InstructionAt, DeclaredAt, SubsText, SubsOk;
    match m
    case Comment(w) => CommentSkipped(s, pos, w);
    case Instruction(w) => InstructionSkipped(s, pos, w);
    case Doctype(space, subs) => DoctypeMarkup(s, pos, space, subs);
    case Unknown(w) => UnknownMarkup(s, pos, w);
  }

  // ----- Contents ----------------------------------------------------------------------------------------------

  /** The name in a closing tag is not compared. */
  datatype Part =
    | Words(ps: seq<Piece>)
    | Characters(value: Str)
    | Aside(m: Markup)
    | Empty(name: Str, space: Str, attributes: seq<AttributeSpelling>)
    | Tag(name: Str, space: Str, attributes: seq<AttributeSpelling>, parts: seq<Part>, closing: Str, closingSpace: Str)

  predicate NameOk(name: Str) {
    name != [] && name[0] != '!' && Avoids(name, ENDS_NAME)
  }

  ghost predicate HeadOk(name: Str, space: Str, attributes: seq<AttributeSpelling>) {
    NameOk(name) && Blank(space) && AttributesOk(attributes) && (attributes != [] ==> space != [])
  }

  ghost predicate PartOk(p: Part) {
    match p
    case Words(ps) => PiecesOk(ps, Text)
    case Characters(value) => NUL !in value && Without(value, CDATA_CLOSE)
    case Aside(m) => MarkupOk(m)
    case Empty(name, space, attributes) => HeadOk(name, space, attributes)
    case Tag(name, space, attributes, parts, closing, closingSpace) =>
      && HeadOk(name, space, attributes)
      && Avoids(closing, ENDS_NAME) && Blank(closingSpace)
      && (forall k :: 0 <= k < |parts| ==> PartOk(parts[k]))
      && OneRun(parts)
  }

  /** Neighbouring words are written as one. */
  predicate OneRun(parts: seq<Part>) {
    forall k :: 0 < k < |parts| ==> !(parts[k - 1].Words? && parts[k].Words?)
  }

  ghost predicate PartsOk(parts: seq<Part>) {
    (forall k :: 0 <= k < |parts| ==> PartOk(parts[k])) && OneRun(parts)
  }

  function HeadSpelled(name: Str, space: Str, attributes: seq<AttributeSpelling>): Str {
    "<" + (name + (space + AttributesSpelled(attributes)))
  }

  function ClosingSpelled(closing: Str, closingSpace: Str): Str {
    "</" + (closing + (closingSpace + ">"))
  }

  function PartText(p: Part): Str
    decreases p, 1
  {
    match p
    case Words(ps) => PiecesText(ps)
    case Characters(value) => NodeText(Cdata(value))
    case Aside(m) => MarkupText(m)
    case Empty(name, space, attributes) => HeadSpelled(name, space, attributes) + "/>"
    case Tag(name, space, attributes, parts, closing, closingSpace) =>
      HeadSpelled(name, space, attributes) + (">" + (PartsText(parts) + ClosingSpelled(closing, closingSpace)))
  }

  function PartsText(parts: seq<Part>): Str
    decreases parts, 0
  {
    if parts == [] then [] else PartText(parts[0]) + PartsText(parts[1..])
  }

  /** Words are a data node unless they are written as nothing but white space. */
  ghost function WordsMeaning(ps: seq<Piece>): seq<Node> {
    if Blank(PiecesText(ps)) then [] else [Data(PiecesMeaning(ps))]
  }

  ghost function PartMeaning(p: Part): seq<Node>
    decreases p, 1
  {
    match p
    case Words(ps) => WordsMeaning(ps)
    case Characters(value) => [Cdata(value)]
    case Aside(_) => []
    case Empty(name, _, attributes) => [Element(name, [], AttributesMeaning(attributes), [])]
    case Tag(name, _, attributes, parts, _, _) =>
      var children := PartsMeaning(parts);
      [Element(name, ElementValue([], children), AttributesMeaning(attributes), children)]
  }

  ghost function PartsMeaning(parts: seq<Part>): seq<Node>
    decreases parts, 0
  {
    if parts == [] then [] else PartMeaning(parts[0]) + PartsMeaning(parts[1..])
  }

  // ----- Words -------------------------------------------------------------------------------------------------

  lemma {:induction false} DigitsAreText(w: Str)
    requires Digits(w)
    ensures All(w, Text)
  {
    forall k | 0 <= k < |w| ensures Text.Test(w[k]) {
      assert AnyDigit(w[k]);
    }
  }

  lemma {:induction false} AllBoth(a: Str, b: Str, table: Table)
    requires All(a, table) && All(b, table)
    ensures All(a + b, table)
  {
  }

  lemma {:induction false} PieceChars(p: Piece)
    requires PieceOk(p, Text)
    ensures All(PieceText(p), Text)
  {
    hide Digits, Value;
    if p.Numeric? {
      DigitsAreText(p.w);
      AllBoth(p.w, ";", Text);
      AllBoth(if p.hex then "&#x" else "&#", p.w + ";", Text);
    }
  }

  lemma {:induction false} PiecesChars(ps: seq<Piece>)
    requires PiecesOk(ps, Text)
    ensures All(PiecesText(ps), Text)
  {
    hide PieceText, PieceOk;
    if ps != [] {
      PieceChars(ps[0]);
      PiecesChars(ps[1..]);
      AllBoth(PieceText(ps[0]), PiecesText(ps[1..]), Text);
    }
  }

  lemma {:induction false} SkipStaysInside(s: Str, pos: nat, w: Str)
    requires ZeroEnded(s) && At(s, pos, w) && !Blank(w) && All(w, Text)
    ensures pos < |s| && s[Skip(s, pos, Whitespace)] != '<' && s[Skip(s, pos, Whitespace)] != NUL
  {
    hide Skip;
    TablesAre(w);
    var k :| 0 <= k < |w| && !Whitespace.Test(w[k]);
    AtAll(s, pos, w);
    assert s[pos + k] == w[k];
    var end := Skip(s, pos, Whitespace);
    assert end <= pos + k;
    assert s[pos + (end - pos)] == w[end - pos];
  }

  /** Words in front of a '<'. */
  lemma {:induction false} WordsFound(s: Str, pos: nat, ps: seq<Piece>, rest: seq<Node>, next: nat)
    requires ZeroEnded(s) && PiecesOk(ps, Text) && At(s, pos, PiecesText(ps))
    requires var end := pos + |PiecesText(ps)|; end < |s| && s[end] == '<' && Contents(s, end) == Ok(rest, next)
    ensures Contents(s, pos) == Ok(WordsMeaning(ps) + rest, next)
  {
    hide At, PiecesText, PiecesMeaning, PiecesOk, Contents, Expand, Skip, All;
    var text := PiecesText(ps);
    TablesAre(text);
    if Blank(text) {
      BlankBack(s, pos, text);
      assert [] + rest == rest;
    } else {
      PiecesChars(ps);
      SkipStaysInside(s, pos, text);
      PiecesEnd(s, pos, pos, ps, Text);
      DataStep(s, pos, PiecesMeaning(ps), pos + |text|, rest, next);
    }
  }

  lemma {:induction false} DataStep(s: Str, pos: nat, value: Str, mid: nat, rest: seq<Node>, next: nat)
    requires ZeroEnded(s) && pos < |s| && s[Skip(s, pos, Whitespace)] != '<' && s[Skip(s, pos, Whitespace)] != NUL
    requires Expand(s, pos, pos, Text) == Ok(value, mid) && mid < |s| && Contents(s, mid) == Ok(rest, next) && pos < mid
    ensures Contents(s, pos) == Ok([Data(value)] + rest, next)
  {
    hide NodeAt, Expand, Closing, Skip;
  }

  // ----- Tags --------------------------------------------------------------------------------------------------

  /** A name and the white space behind it. */
  lemma {:induction false} NameAndBlank(s: Str, pos: nat, name: Str, space: Str)
    requires ZeroEnded(s) && Avoids(name, ENDS_NAME) && Blank(space) && At(s, pos, name) && At(s, pos + |name|, space)
    requires var end := pos + |name| + |space|;
             end < |s| && !Whitespace.Test(s[end]) && (space == [] ==> !NodeName.Test(s[end]))
    ensures Skip(s, pos, NodeName) == pos + |name| && s[pos..pos + |name|] == name
    ensures Skip(s, pos + |name|, Whitespace) == pos + |name| + |space|
  {
    hide At, Skip, All, Avoids;
    BlankSkipped(s, pos + |name|, space);
    if space != [] {
      AtIndex(s, pos + |name|, space, 0);
      BlankEndsName(space);
    }
    TablesAre(name);
    NameBack(s, pos, name, NodeName);
  }

  lemma {:induction false} HeadFound(s: Str, pos: nat, name: Str, space: Str, attributes: seq<AttributeSpelling>)
    requires ZeroEnded(s) && HeadOk(name, space, attributes) && At(s, pos, HeadSpelled(name, space, attributes))
    requires var mid := pos + |HeadSpelled(name, space, attributes)|; mid < |s| && (s[mid] == '/' || s[mid] == '>')
    ensures s[pos] == '<' && s[pos + 1] == name[0]
    ensures var end := pos + 1 + |name|;
            && end < |s| && Skip(s, pos + 1, NodeName) == end && s[pos + 1..end] == name
            && Attributes(s, Skip(s, end, Whitespace))
               == Ok(AttributesMeaning(attributes), pos + |HeadSpelled(name, space, attributes)|)
  {
    hide At, Skip, Attributes, AttributesSpelled, AttributesMeaning, AttributesOk, All, Blank, Avoids, HeadSpelled;
    HeadSplit(s, pos, name, space, attributes);
    var start := pos + 1 + |name| + |space|;
    AttributesFound(s, start, attributes);
    NoAttributes(attributes);
    NoBlank(s, start);
    NameAndBlank(s, pos + 1, name, space);
  }

  lemma {:induction false} HeadSplit(s: Str, pos: nat, name: Str, space: Str, attributes: seq<AttributeSpelling>)
    requires At(s, pos, HeadSpelled(name, space, attributes)) && name != []
    ensures var list := AttributesSpelled(attributes);
            && |HeadSpelled(name, space, attributes)| == 1 + |name| + |space| + |list|
            && pos + 1 + |name| + |space| + |list| <= |s|
            && At(s, pos + 1, name) && At(s, pos + 1 + |name|, space) && At(s, pos + 1 + |name| + |space|, list)
            && s[pos] == '<' && s[pos + 1] == name[0]
  {
    hide At, AttributesSpelled;
    var list := AttributesSpelled(attributes);
    AtSplit(s, pos, "<", name + (space + list));
    AtSplit(s, pos + 1, name, space + list);
    AtSplit(s, pos + 1 + |name|, space, list);
    AtIndex(s, pos, "<", 0);
    AtIndex(s, pos + 1, name, 0);
  }

  lemma BlankEndsName(space: Str)
    requires Blank(space) && space != []
    ensures !NodeName.Test(space[0]) && !AttributeName.Test(space[0])
  {
  }

  lemma NameFirst(name: Str)
    requires Avoids(name, ENDS_ATTRIBUTE_NAME) && name != []
    ensures AttributeName.Test(name[0])
  {
  }

  lemma {:induction false} NoAttributes(attributes: seq<AttributeSpelling>)
    ensures attributes == [] ==> AttributesSpelled(attributes) == []
  {
  }

  lemma {:induction false} ClosingFound(s: Str, pos: nat, closing: Str, space: Str)
    requires ZeroEnded(s) && Avoids(closing, ENDS_NAME) && Blank(space) && At(s, pos, ClosingSpelled(closing, space))
    ensures var end := pos + |ClosingSpelled(closing, space)|;
            end < |s| && s[pos] == '<' && Contents(s, pos) == Ok([], end)
  {
    hide At, Skip, NodeAt, Expand, All;
    AtSplit(s, pos, "</", closing + (space + ">"));
    AtSplit(s, pos + 2, closing, space + ">");
    var mid := pos + 2 + |closing|;
    AtSplit(s, mid, space, ">");
    AtIndex(s, pos, "</", 0);
    AtIndex(s, pos, "</", 1);
    AtIndex(s, mid + |space|, ">", 0);
    NameAndBlank(s, pos + 2, closing, space);
    ClosingStep(s, pos, mid, mid + |space|);
  }

  lemma {:induction false} ClosingStep(s: Str, pos: nat, mid: nat, end: nat)
    requires ZeroEnded(s) && pos + 2 < |s| && s[pos] == '<' && s[pos + 1] == '/' && end < |s| && s[end] == '>'
    requires Skip(s, pos + 2, NodeName) == mid && Skip(s, mid, Whitespace) == end
    ensures end + 1 < |s| && Contents(s, pos) == Ok([], end + 1)
  {
    hide Skip, NodeAt, Expand;
    NoSkip(s, pos);
  }

  /** What starts with a '<' and is no closing tag. */
  lemma {:induction false} ContentsStep(s: Str, pos: nat, node: Option<Node>, next: nat)
    requires ZeroEnded(s) && pos + 1 < |s| && s[pos] == '<' && s[pos + 1] != '/' && NodeAt(s, pos + 1) == Ok(node, next)
    ensures next < |s|
    ensures Contents(s, pos) == Join(Listed(node), Contents(s, next))
    ensures TopNodes(s, pos) == Join(Listed(node), TopNodes(s, next))
  {
    hide NodeAt, Skip, Expand, Closing;
    NoSkip(s, pos);
  }

  /** A part that is not words, from its '<' on. */
  lemma {:induction false} PartFound(s: Str, pos: nat, p: Part)
    requires ZeroEnded(s) && PartOk(p) && !p.Words? && At(s, pos, PartText(p))
    ensures var end := pos + |PartText(p)|;
            && end < |s| && s[pos] == '<'
            && Contents(s, pos) == Join(PartMeaning(p), Contents(s, end))
            && TopNodes(s, pos) == Join(PartMeaning(p), TopNodes(s, end))
    decreases p, 1
  {
    hide At, NodeAt, Contents, TopNodes, HeadSpelled, HeadOk, MarkupOk, MarkupText, NodeText, PartText, Without, Lexical;
    match p
    case Words(_) =>
    case Characters(value) =>
      CharactersFound(s, pos, value);
      ContentsStep(s, pos, Some(Cdata(value)), pos + |PartText(p)|);
    case Aside(m) =>
      AsideText(m);
      MarkupSkipped(s, pos, m);
      ContentsStep(s, pos, None, pos + |PartText(p)|);
    case Empty(name, space, attributes) =>
      EmptyFound(s, pos, name, space, attributes);
      ContentsStep(s, pos, Some(PartMeaning(p)[0]), pos + |PartText(p)|);
    case Tag(_, _, _, _, _, _) =>
      TagFound(s, pos, p);
      ContentsStep(s, pos, Some(PartMeaning(p)[0]), pos + |PartText(p)|);
  }

  lemma {:induction false} AsideText(m: Markup)
    ensures PartText(Aside(m)) == MarkupText(m)
  {
  }

  lemma {:induction false} CharactersFound(s: Str, pos: nat, value: Str)
    requires ZeroEnded(s) && PartOk(Characters(value)) && At(s, pos, PartText(Characters(value)))
    ensures var end := pos + |PartText(Characters(value))|;
            end < |s| && s[pos] == '<' && s[pos + 1] == '!' && NodeAt(s, pos + 1) == Ok(Some(Cdata(value)), end)
  {
    hide At, NodeAt, NodeText, Without;
    CdataBack(s, pos, value);
  }

  lemma {:induction false} NotSlash(name: Str)
    requires NameOk(name)
    ensures name[0] != '/' && PrintableName(name)
  {
    TablesAre(name);
  }

  lemma {:induction false} EmptyFound(s: Str, pos: nat, name: Str, space: Str, attributes: seq<AttributeSpelling>)
    requires ZeroEnded(s) && HeadOk(name, space, attributes) && At(s, pos, PartText(Empty(name, space, attributes)))
    ensures var end := pos + |PartText(Empty(name, space, attributes))|;
            && end < |s| && s[pos] == '<' && s[pos + 1] != '/'
            && NodeAt(s, pos + 1) == Ok(Some(Element(name, [], AttributesMeaning(attributes), [])), end)
  {
    hide At, Skip, Attributes, NodeAt, HeadSpelled, AttributesOk, PrintableName, AttributesMeaning, Body;
    var mid := pos + |HeadSpelled(name, space, attributes)|;
    AtSplit(s, pos, HeadSpelled(name, space, attributes), "/>");
    AtIndex(s, mid, "/>", 0);
    AtIndex(s, mid, "/>", 1);
    HeadFound(s, pos, name, space, attributes);
    NotSlash(name);
    EmptyValue();
    NoBody(s, mid);
    ElementFound(s, pos + 1, name, AttributesMeaning(attributes), mid, [], mid + 2);
  }

  lemma {:induction false} TagParts(p: Part)
    requires p.Tag? && PartOk(p)
    ensures HeadOk(p.name, p.space, p.attributes) && Avoids(p.closing, ENDS_NAME) && Blank(p.closingSpace) && PartsOk(p.parts)
    ensures PartText(p) == HeadSpelled(p.name, p.space, p.attributes) + (">" + (PartsText(p.parts) + ClosingSpelled(p.closing, p.closingSpace)))
  {
    hide HeadOk, HeadSpelled, PartsText, ClosingSpelled;
  }

  lemma {:induction false} TagFound(s: Str, pos: nat, p: Part)
    requires ZeroEnded(s) && p.Tag? && PartOk(p) && At(s, pos, PartText(p))
    ensures var end := pos + |PartText(p)|;
            && end < |s| && s[pos] == '<' && s[pos + 1] != '/'
            && NodeAt(s, pos + 1) == Ok(Some(PartMeaning(p)[0]), end)
    decreases p, 0
  {
    hide At, Skip, Attributes, NodeAt, HeadSpelled, AttributesOk, PrintableName, AttributesMeaning, Contents, PartText;
    hide PartsText, ClosingSpelled, PartsOk, PartOk, PartsMeaning, ElementValue;
    TagParts(p);
    var head, inner := HeadSpelled(p.name, p.space, p.attributes), PartsText(p.parts) + ClosingSpelled(p.closing, p.closingSpace);
    var mid := pos + |head|;
    AtSplit(s, pos, head, ">" + inner);
    AtSplit(s, mid, ">", inner);
    AtIndex(s, mid, ">", 0);
    PartsFound(s, mid + 1, p.parts, p.closing, p.closingSpace);
    HeadFound(s, pos, p.name, p.space, p.attributes);
    NotSlash(p.name);
    ElementFound(s, pos + 1, p.name, AttributesMeaning(p.attributes), mid, PartsMeaning(p.parts), mid + 1 + |inner|);
  }

  lemma {:induction false} PartsRest(parts: seq<Part>)
    requires PartsOk(parts) && parts != []
    ensures PartOk(parts[0]) && PartsOk(parts[1..])
    ensures parts[0].Words? && |parts| > 1 ==> !parts[1..][0].Words?
  {
    hide PartOk;
  }

  /** The contents of an element and its closing tag. */
  lemma {:induction false} PartsFound(s: Str, pos: nat, parts: seq<Part>, closing: Str, space: Str)
    requires ZeroEnded(s) && PartsOk(parts) && Avoids(closing, ENDS_NAME) && Blank(space)
    requires At(s, pos, PartsText(parts) + ClosingSpelled(closing, space))
    ensures var end := pos + |PartsText(parts)| + |ClosingSpelled(closing, space)|;
            end < |s| && Contents(s, pos) == Ok(PartsMeaning(parts), end)
    ensures parts == [] || !parts[0].Words? ==> s[pos] == '<'
    decreases parts, 2
  {
    hide At, Contents, PartText, ClosingSpelled, PartOk, PartsOk, PartMeaning, Avoids, WordsMeaning, PiecesText, PiecesOk;
    hide PartsText, PartsMeaning, Blank;
    var close := ClosingSpelled(closing, space);
    if parts == [] {
      NoParts(close);
      ClosingFound(s, pos, closing, space);
    } else {
      var p, rest := parts[0], parts[1..];
      var after := PartsText(rest) + close;
      FirstPart(parts, close);
      AtSplit(s, pos, PartText(p), after);
      PartsRest(parts);
      PartsFound(s, pos + |PartText(p)|, rest, closing, space);
      PartThenRest(s, pos, p, PartsMeaning(rest), pos + |PartText(p)| + |after|);
    }
  }

  lemma {:induction false} PartThenRest(s: Str, pos: nat, p: Part, rest: seq<Node>, next: nat)
    requires ZeroEnded(s) && PartOk(p) && At(s, pos, PartText(p))
    requires var mid := pos + |PartText(p)|; mid < |s| && Contents(s, mid) == Ok(rest, next) && (p.Words? ==> s[mid] == '<')
    ensures Contents(s, pos) == Ok(PartMeaning(p) + rest, next)
    ensures !p.Words? ==> s[pos] == '<'
    decreases p, 3
  {
    hide At, Contents, PartText, PartOk, PartMeaning, WordsMeaning, PiecesText, PiecesOk;
    if p.Words? {
      WordsPart(p);
      WordsFound(s, pos, p.ps, rest, next);
    } else {
      PartFound(s, pos, p);
    }
  }

  lemma {:induction false} NoParts(close: Str)
    ensures PartsText([]) + close == close && |PartsText([])| == 0 && PartsMeaning([]) == []
  {
  }

  lemma {:induction false} FirstPart(parts: seq<Part>, close: Str)
    requires parts != []
    ensures PartsText(parts) + close == PartText(parts[0]) + (PartsText(parts[1..]) + close)
    ensures |PartsText(parts)| == |PartText(parts[0])| + |PartsText(parts[1..])|
    ensures PartsMeaning(parts) == PartMeaning(parts[0]) + PartsMeaning(parts[1..])
  {
    hide PartText, PartMeaning;
    Regroup(PartText(parts[0]), PartsText(parts[1..]), close);
  }

  lemma {:induction false} WordsPart(p: Part)
    requires p.Words? && PartOk(p)
    ensures PiecesOk(p.ps, Text) && PartText(p) == PiecesText(p.ps) && PartMeaning(p) == WordsMeaning(p.ps)
  {
  }

  // ----- Documents ---------------------------------------------------------------------------------------------

  /** At the top words are only white space. */
  ghost predicate TopOk(parts: seq<Part>) {
    PartsOk(parts) && forall k :: 0 <= k < |parts| && parts[k].Words? ==> Blank(PiecesText(parts[k].ps))
  }

  lemma {:induction false} TopBlank(s: Str, pos: nat, w: Str)
    requires ZeroEnded(s) && Blank(w) && At(s, pos, w) && pos + |w| < |s| && !Whitespace.Test(s[pos + |w|])
    ensures TopNodes(s, pos) == TopNodes(s, pos + |w|)
  {
    hide At, NodeAt, Skip, Blank;
    BlankSkipped(s, pos, w);
    NoSkip(s, pos + |w|);
  }

  lemma {:induction false} TopEnd(s: Str, pos: nat)
    requires ZeroEnded(s) && pos < |s| && s[pos] == NUL
    ensures TopNodes(s, pos) == Ok([], pos)
  {
    NoSkip(s, pos);
  }

  lemma Unended(w: Str)
    ensures w + [] == w
  {
  }

  lemma TopRest(parts: seq<Part>)
    requires TopOk(parts) && parts != []
    ensures PartOk(parts[0]) && TopOk(parts[1..]) && (parts[0].Words? ==> Blank(PiecesText(parts[0].ps)))
    ensures parts[0].Words? && |parts| > 1 ==> !parts[1..][0].Words?
  {
    hide PartOk, PiecesText, Blank;
    PartsRest(parts);
  }

  lemma {:induction false} TopFound(s: Str, pos: nat, parts: seq<Part>)
    requires ZeroEnded(s) && TopOk(parts) && At(s, pos, PartsText(parts))
    requires pos + |PartsText(parts)| < |s| && s[pos + |PartsText(parts)|] == NUL
    ensures TopNodes(s, pos) == Ok(PartsMeaning(parts), pos + |PartsText(parts)|)
    ensures if parts == [] then s[pos] == NUL else if parts[0].Words? then true else s[pos] == '<'
    ensures s[pos] as int < 0x80
    decreases |parts|
  {
    hide At, TopNodes, PartText, PartOk, PartsOk, PartMeaning, PiecesText, PiecesOk, Blank;
    hide PartsText, PartsMeaning, TopOk;
    if parts == [] {
      NoParts([]);
      TopEnd(s, pos);
    } else {
      var p, rest := parts[0], parts[1..];
      FirstPart(parts, []);
      Unended(PartsText(parts));
      Unended(PartsText(rest));
      AtSplit(s, pos, PartText(p), PartsText(rest));
      TopRest(parts);
      TopFound(s, pos + |PartText(p)|, rest);
      if p.Words? {
        WordsPart(p);
        TopWords(s, pos, PiecesText(p.ps), rest);
        assert [] + PartsMeaning(rest) == PartsMeaning(rest);
      } else {
        PartFound(s, pos, p);
      }
    }
  }

  lemma {:induction false} BlankStart(s: Str, pos: nat, w: Str)
    requires Blank(w) && At(s, pos, w) && pos + |w| < |s| && s[pos + |w|] as int < 0x80
    ensures s[pos] as int < 0x80
  {
    if w != [] {
      AtIndex(s, pos, w, 0);
    }
  }

  /** White space at the top, and what comes behind it. */
  lemma {:induction false} TopWords(s: Str, pos: nat, w: Str, rest: seq<Part>)
    requires ZeroEnded(s) && Blank(w) && At(s, pos, w) && pos + |w| < |s| && s[pos + |w|] as int < 0x80
    requires s[pos + |w|] == if rest == [] then NUL else '<'
    ensures TopNodes(s, pos) == TopNodes(s, pos + |w|) && s[pos] as int < 0x80
  {
    hide TopNodes, Blank, At;
    TopBlank(s, pos, w);
    BlankStart(s, pos, w);
  }

  const MARK: Str := [Byte(0xEF), Byte(0xBB), Byte(0xBF)]

  /** The text of a document. */
  function Spelled(parts: seq<Part>, bom: bool): Str {
    (if bom then MARK else []) + PartsText(parts)
  }

  /** However a document is spelled, with or without a byte order mark, parsing finds what it means. The
      document ends at the first zero. */
  lemma {:induction false} SpelledIsFound(s: Str, parts: seq<Part>, bom: bool)
    requires ZeroEnded(s) && TopOk(parts) && At(s, 0, Spelled(parts, bom))
    requires |Spelled(parts, bom)| < |s| && s[|Spelled(parts, bom)|] == NUL
    ensures Document(s) == Ok(PartsMeaning(parts), |Spelled(parts, bom)|)
  {
    hide TopNodes, PartsText, TopOk, PartsMeaning, At;
    var front, body := if bom then MARK else [], PartsText(parts);
    AtSplit(s, 0, front, body);
    TopFound(s, |front|, parts);
    if !bom {
      AtAll(s, 0, MARK);
      assert MARK[0] == Byte(0xEF) && s[0 + 0] == s[0];
    }
  }
}
