/** Nothing is accepted that is not spelled as a document: whatever text the parser takes, it is one of the
    texts of XmlSpelling, and the result is what that text means. */
module XmlAccepted {
  import opened XmlText
  import opened XmlReferences
  import opened XmlNumerals
  import opened XmlParser
  import opened XmlPrinter
  import opened XmlRoundTrip
  import opened XmlSpelling

  lemma {:induction false} AtBoth(s: Str, pos: nat, a: Str, b: Str)
    requires At(s, pos, a) && At(s, pos + |a|, b)
    ensures At(s, pos, a + b)
  {
    assert s[pos..pos + |a + b|] == s[pos..pos + |a|] + s[pos + |a|..pos + |a| + |b|];
  }

  lemma {:induction false} AtOne(s: Str, pos: nat)
    requires pos < |s|
    ensures At(s, pos, [s[pos]])
  {
  }

  // ----- Characters ----------------------------------------------------------------------------------------------

  /** The digits that are read. */
  lemma {:induction false} NumberIsDigits(s: Str, pos: nat, hex: bool, code: nat)
    requires ZeroEnded(s) && pos < |s| && code < ULONG
    ensures var end := Number(s, pos, hex, code).1; pos <= end < |s| && At(s, pos, s[pos..end]) && Digits(s[pos..end])
  {
    var end := Number(s, pos, hex, code).1;
    forall k | 0 <= k < end - pos ensures AnyDigit(s[pos..end][k]) {
      assert Digit(s[pos + k]) != 255;
      DigitValueIs(s[pos + k]);
    }
  }

  lemma {:induction false} NumericOut(s: Str, pos: nat, hex: bool, dest: nat) returns (w: Str)
    requires ZeroEnded(s) && pos < |s| && NumericAt(s, pos, hex, dest).Ok?
    ensures At(s, pos, w + ";") && Digits(w) && CodeOf(w, hex) < 0x110000
    ensures NumericAt(s, pos, hex, dest) == Ok(Encode(CodeOf(w, hex)).value, pos + |w| + 1)
  {
    hide Number, Value;
    var end := Number(s, pos, hex, 0).1;
    w := s[pos..end];
    NumberIsDigits(s, pos, hex, 0);
    AtOne(s, end);
    AtBoth(s, pos, w, ";");
    NumberIsValue(s, pos, hex, w);
  }

  lemma {:induction false} EntityOut(s: Str, src: nat)
    requires ZeroEnded(s) && src < |s| && s[src] == '&' && EntityAt(s, src).Some?
    ensures var e := EntityAt(s, src).value; PieceOk(Named(e.0), Text) && At(s, src, EscapeChar(e.0, NUL)) && e.1 == |EscapeChar(e.0, NUL)|
  {
    hide At;
    AtOne(s, src);
    assert "&" + "amp;" == "&amp;" && "&" + "apos;" == "&apos;" && "&" + "quot;" == "&quot;";
    assert "&" + "gt;" == "&gt;" && "&" + "lt;" == "&lt;";
    if Matches(s, src + 1, "amp;") {
      AtBoth(s, src, "&", "amp;");
    } else if Matches(s, src + 1, "apos;") {
      AtBoth(s, src, "&", "apos;");
    } else if Matches(s, src + 1, "quot;") {
      AtBoth(s, src, "&", "quot;");
    } else if Matches(s, src + 1, "gt;") {
      AtBoth(s, src, "&", "gt;");
    } else {
      AtBoth(s, src, "&", "lt;");
    }
  }

  /** One step of the translation is one piece. */
  lemma {:induction false} StepOut(s: Str, src: nat, dest: nat, stop: Table) returns (p: Piece)
    requires ZeroEnded(s) && src < |s| && s[src] != NUL && StepAt(s, src, dest).Ok? && TextTable(stop) && stop.Test(s[src])
    ensures PieceOk(p, stop) && At(s, src, PieceText(p))
    ensures StepAt(s, src, dest) == Ok(PieceMeaning(p), src + |PieceText(p)|)
    ensures p == Plain('&') ==> s[src] == '&' && EntityAt(s, src).None? && s[src + 1] != '#'
  {
    hide At, EntityAt, NumericAt, Encode, Value, Digits, EscapeChar;
    AtOne(s, src);
    if s[src] != '&' {
      p := Plain(s[src]);
    } else if EntityAt(s, src).Some? {
      EntityOut(s, src);
      p := Named(EntityAt(s, src).value.0);
    } else if s[src + 1] != '#' {
      p := Plain('&');
    } else {
      AtOne(s, src + 1);
      AtBoth(s, src, "&", "#");
      if s[src + 2] == 'x' {
        AtOne(s, src + 2);
        AtBoth(s, src, "&#", "x");
        var w := NumericOut(s, src + 3, true, dest);
        AtBoth(s, src, "&#x", w + ";");
        p := Numeric(w, true);
      } else {
        var w := NumericOut(s, src + 2, false, dest);
        AtBoth(s, src, "&#", w + ";");
        p := Numeric(w, false);
      }
    }
  }

  /** No reference starts here, so none starts in the part of the text that is taken. */
  lemma {:induction false} NoReferenceHere(s: Str, pos: nat, rest: Str)
    requires ZeroEnded(s) && pos + 1 < |s| && s[pos] == '&' && EntityAt(s, pos).None? && s[pos + 1] != '#'
    requires At(s, pos + 1, rest)
    ensures !StartsReference(rest)
  {
    hide At;
    NotHere(s, pos + 1, rest, "amp;");
    NotHere(s, pos + 1, rest, "apos;");
    NotHere(s, pos + 1, rest, "quot;");
    NotHere(s, pos + 1, rest, "gt;");
    NotHere(s, pos + 1, rest, "lt;");
    if rest != [] {
      AtIndex(s, pos + 1, rest, 0);
    }
  }

  lemma {:induction false} NotHere(s: Str, pos: nat, rest: Str, word: Str)
    requires At(s, pos, rest)
    ensures At(rest, 0, word) ==> At(s, pos, word)
  {
    if At(rest, 0, word) {
      Within(s, pos, rest, 0, word);
    }
  }

  /** Translated text is spelled by pieces. */
  lemma {:induction false} ExpandOut(s: Str, src: nat, dest: nat, stop: Table) returns (ps: seq<Piece>)
    requires ZeroEnded(s) && src < |s| && TextTable(stop) && Expand(s, src, dest, stop).Ok?
    ensures PiecesOk(ps, stop) && At(s, src, PiecesText(ps))
    ensures Expand(s, src, dest, stop) == Ok(PiecesMeaning(ps), src + |PiecesText(ps)|)
    decreases |s| - src
  {
    hide At, StepAt, Expand, PieceText, PieceMeaning, PieceOk, EntityAt, StartsReference;
    ExpandStep(s, src, dest, stop);
    if !stop.Test(s[src]) {
      ps := [];
      AtNothing(s, src);
    } else {
      var step := StepAt(s, src, dest);
      var p := StepOut(s, src, dest, stop);
      var rest := ExpandOut(s, step.next, dest + |step.value|, stop);
      ps := [p] + rest;
      assert ps[1..] == rest;
      AtBoth(s, src, PieceText(p), PiecesText(rest));
      if p == Plain('&') {
        PlainText(p);
        NoReferenceHere(s, src, PiecesText(rest));
      }
    }
  }

  lemma AtNothing(s: Str, pos: nat)
    requires pos <= |s|
    ensures At(s, pos, [])
  {
  }

  // ----- Names and blanks ----------------------------------------------------------------------------------------

  lemma {:induction false} SkipOut(s: Str, pos: nat, table: Table)
    requires ZeroEnded(s) && pos < |s|
    ensures var end := Skip(s, pos, table); At(s, pos, s[pos..end]) && All(s[pos..end], table)
  {
  }

  lemma {:induction false} BlankOut(s: Str, pos: nat)
    requires ZeroEnded(s) && pos < |s|
    ensures var w := s[pos..Skip(s, pos, Whitespace)]; At(s, pos, w) && Blank(w)
  {
    SkipOut(s, pos, Whitespace);
    TablesAre(s[pos..Skip(s, pos, Whitespace)]);
  }

  // ----- Attributes ----------------------------------------------------------------------------------------------

  lemma {:induction false} AttributeNameOut(s: Str, pos: nat) returns (before: Str)
    requires ZeroEnded(s) && pos < |s| && AttributeName.Test(s[pos]) && AttributeNameAt(s, pos).Ok?
    ensures var r := AttributeNameAt(s, pos);
            && r.value != [] && Avoids(r.value, ENDS_ATTRIBUTE_NAME) && Blank(before)
            && At(s, pos, r.value + (before + "=")) && r.next == pos + |r.value| + |before| + 1
  {
    hide At, Skip;
    var end := Skip(s, pos + 1, AttributeName);
    var name := s[pos..end];
    SkipOut(s, pos + 1, AttributeName);
    assert name == [s[pos]] + s[pos + 1..end];
    AtOne(s, pos);
    AtBoth(s, pos, [s[pos]], s[pos + 1..end]);
    AllFirst(s[pos], s[pos + 1..end], AttributeName);
    TablesAre(name);
    BlankOut(s, end);
    var equals := Skip(s, end, Whitespace);
    before := s[end..equals];
    AtOne(s, equals);
    AtBoth(s, end, before, "=");
    AtBoth(s, pos, name, before + "=");
  }

  lemma AllFirst(c: Ch, w: Str, table: Table)
    requires table.Test(c) && All(w, table)
    ensures All([c] + w, table)
  {
  }

  lemma {:induction false} AttributeValueOut(s: Str, pos: nat, name: Str, before: Str) returns (a: AttributeSpelling)
    requires ZeroEnded(s) && pos < |s| && AttributeValueAt(s, pos).Ok?
    requires name != [] && Avoids(name, ENDS_ATTRIBUTE_NAME) && Blank(before)
    ensures a.name == name && a.before == before && AttributeOk(a)
    ensures var r := AttributeValueAt(s, pos);
            && At(s, pos, a.after + Quoted(a)) && r == Ok(PiecesMeaning(a.value), pos + |a.after| + |Quoted(a)|)
  {
    hide At, Skip, Expand, PiecesOk, PiecesMeaning, PiecesText, Blank, Avoids, Quoted;
    var open := Skip(s, pos, Whitespace);
    BlankOut(s, pos);
    var q := s[open];
    var ps := ExpandOut(s, open + 1, open + 1, AttributeValue(q));
    var text := PiecesText(ps);
    var mid := open + 1 + |text|;
    BlankOut(s, mid + 1);
    a := AttributeSpelling(name, before, s[pos..open], q, ps, s[mid + 1..Skip(s, mid + 1, Whitespace)]);
    ValueJoin(s, pos, a);
  }

  lemma {:induction false} ValueJoin(s: Str, pos: nat, a: AttributeSpelling)
    requires At(s, pos, a.after)
    requires var open, text := pos + |a.after|, PiecesText(a.value);
             && open + 1 + |text| < |s| && s[open] == a.quote && s[open + 1 + |text|] == a.quote
             && At(s, open + 1, text) && At(s, open + 2 + |text|, a.behind)
    ensures At(s, pos, a.after + Quoted(a)) && |Quoted(a)| == 2 + |PiecesText(a.value)| + |a.behind|
  {
    hide At, PiecesText;
    var open, text, q := pos + |a.after|, PiecesText(a.value), [a.quote];
    AtOne(s, open);
    AtOne(s, open + 1 + |text|);
    AtBoth(s, open + 1 + |text|, q, a.behind);
    AtBoth(s, open + 1, text, q + a.behind);
    AtBoth(s, open, q, text + (q + a.behind));
    AtBoth(s, pos, a.after, Quoted(a));
  }

  lemma {:induction false} OneAttributeOut(s: Str, pos: nat) returns (a: AttributeSpelling)
    requires ZeroEnded(s) && pos < |s| && AttributeName.Test(s[pos]) && OneAttribute(s, pos).Ok?
    ensures AttributeOk(a) && At(s, pos, AttributeSpelled(a))
    ensures OneAttribute(s, pos) == Ok(AttributeMeaning(a), pos + |AttributeSpelled(a)|)
  {
    hide At, AttributeNameAt, AttributeValueAt, AttributeOk, Quoted, PiecesMeaning, Avoids, Blank;
    var name := AttributeNameAt(s, pos);
    var before := AttributeNameOut(s, pos);
    a := AttributeValueOut(s, name.next, name.value, before);
    AtBoth(s, pos, name.value + (before + "="), a.after + Quoted(a));
    Nested(a.name, a.before, "=", a.after + Quoted(a));
  }

  lemma {:induction false} AttributesOut(s: Str, pos: nat) returns (list: seq<AttributeSpelling>)
    requires ZeroEnded(s) && pos < |s| && Attributes(s, pos).Ok?
    ensures AttributesOk(list) && At(s, pos, AttributesSpelled(list))
    ensures Attributes(s, pos) == Ok(AttributesMeaning(list), pos + |AttributesSpelled(list)|)
    ensures list != [] ==> AttributeName.Test(s[pos])
    decreases |s| - pos
  {
    hide At, OneAttribute, AttributeOk, AttributeSpelled, AttributeMeaning;
    if !AttributeName.Test(s[pos]) {
      list := [];
      AtNothing(s, pos);
    } else {
      var a := OneAttributeOut(s, pos);
      var rest := AttributesOut(s, OneAttribute(s, pos).next);
      list := [a] + rest;
      assert list[1..] == rest;
      AtBoth(s, pos, AttributeSpelled(a), AttributesSpelled(rest));
    }
  }

  // ----- Markup without a node -----------------------------------------------------------------------------------

  /** What is skipped up to a mark. */
  lemma {:induction false} SkipPastOut(s: Str, pos: nat, mark: Str) returns (w: Str)
    requires ZeroEnded(s) && pos < |s| && EndMark(mark) && SkipPast(s, pos, mark).Ok?
    ensures NUL !in w && Without(w, mark) && At(s, pos, w + mark)
    ensures SkipPast(s, pos, mark) == Ok((), pos + |w| + |mark|)
    decreases |s| - pos
  {
    hide At;
    if At(s, pos, mark) {
      w := [];
      assert w + mark == mark;
    } else {
      var rest := SkipPastOut(s, pos + 1, mark);
      w := [s[pos]] + rest;
      AtOne(s, pos);
      AtBoth(s, pos, [s[pos]], rest + mark);
      assert w + mark == [s[pos]] + (rest + mark);
      WithoutFirst(s, pos, rest, mark);
    }
  }

  lemma {:induction false} WithoutFirst(s: Str, pos: nat, rest: Str, mark: Str)
    requires pos < |s| && Without(rest, mark) && At(s, pos, [s[pos]] + (rest + mark)) && !At(s, pos, mark)
    ensures Without([s[pos]] + rest, mark)
  {
    var w := [s[pos]] + rest;
    assert [s[pos]] + (rest + mark) == w + mark;
    AtSplit(s, pos, w, mark);
    NotHere(s, pos, w, mark);
    forall k | 0 <= k < |w| ensures !At(w, k, mark) {
      if k > 0 {
        assert !At(rest, k - 1, mark);
        assert k + |mark| <= |w| ==> w[k..k + |mark|] == rest[k - 1..k - 1 + |mark|];
      }
    }
  }

  /** What is skipped in brackets, up to the one that closes the innermost. */
  lemma {:induction false} BracketsOut(s: Str, pos: nat, depth: nat) returns (subs: seq<Sub>, mid: nat)
    requires ZeroEnded(s) && pos < |s| && depth > 0 && SkipBrackets(s, pos, depth).Ok?
    ensures SubsOk(subs, true) && At(s, pos, SubsText(subs) + "]") && mid == pos + |SubsText(subs)| + 1 && mid < |s|
    ensures SkipBrackets(s, pos, depth) == SkipBrackets(s, mid, depth - 1)
    decreases |s| - pos
  {
    hide At, SubText, SubOk;
    AtOne(s, pos);
    if s[pos] == ']' {
      subs, mid := [], pos + 1;
      assert [] + "]" == "]";
    } else if s[pos] == '[' {
      var inner, m := BracketsOut(s, pos + 1, depth + 1);
      var rest;
      rest, mid := BracketsOut(s, m, depth);
      subs := [Group(inner)] + rest;
      GroupText(inner);
      AtBoth(s, pos, "[", SubsText(inner) + "]");
      FirstSub(s, pos, Group(inner), rest, "]");
    } else {
      var rest;
      rest, mid := BracketsOut(s, pos + 1, depth);
      subs := [Chars([s[pos]])] + rest;
      CharsText([s[pos]]);
      FirstSub(s, pos, Chars([s[pos]]), rest, "]");
    }
  }

  lemma GroupText(subs: seq<Sub>)
    ensures SubText(Group(subs)) == "[" + (SubsText(subs) + "]")
    ensures SubsOk(subs, true) ==> SubOk(Group(subs), true) && SubOk(Group(subs), false)
  {
    hide SubsText;
  }

  lemma CharsText(w: Str)
    ensures SubText(Chars(w)) == w
    ensures NUL !in w && '[' !in w && ']' !in w ==> SubOk(Chars(w), true)
    ensures NUL !in w && '[' !in w && '>' !in w ==> SubOk(Chars(w), false)
  {
  }

  lemma {:induction false} FirstSub(s: Str, pos: nat, sub: Sub, rest: seq<Sub>, end: Str)
    requires At(s, pos, SubText(sub)) && At(s, pos + |SubText(sub)|, SubsText(rest) + end)
    ensures At(s, pos, SubsText([sub] + rest) + end) && |SubsText([sub] + rest)| == |SubText(sub)| + |SubsText(rest)|
  {
    hide At, SubText;
    AtBoth(s, pos, SubText(sub), SubsText(rest) + end);
    assert ([sub] + rest)[1..] == rest;
    Regroup(SubText(sub), SubsText(rest), end);
  }

  lemma {:induction false} DoctypeOut(s: Str, pos: nat) returns (subs: seq<Sub>)
    requires ZeroEnded(s) && pos < |s| && SkipDoctype(s, pos).Ok?
    ensures SubsOk(subs, false) && At(s, pos, SubsText(subs) + ">")
    ensures SkipDoctype(s, pos) == Ok((), pos + |SubsText(subs)| + 1)
    decreases |s| - pos
  {
    hide At, SubText, SubOk, SkipBrackets;
    AtOne(s, pos);
    if s[pos] == '>' {
      subs := [];
      assert [] + ">" == ">";
    } else if s[pos] == '[' {
      var inner, mid := BracketsOut(s, pos + 1, 1);
      NoDepth(s, mid);
      var rest := DoctypeOut(s, mid);
      subs := [Group(inner)] + rest;
      GroupText(inner);
      AtBoth(s, pos, "[", SubsText(inner) + "]");
      FirstSub(s, pos, Group(inner), rest, ">");
    } else {
      var rest := DoctypeOut(s, pos + 1);
      subs := [Chars([s[pos]])] + rest;
      CharsText([s[pos]]);
      FirstSub(s, pos, Chars([s[pos]]), rest, ">");
    }
  }

  lemma {:induction false} TwoChars(s: Str, pos: nat)
    requires pos + 1 < |s|
    ensures At(s, pos, [s[pos], s[pos + 1]])
  {
    assert s[pos..pos + 2] == [s[pos], s[pos + 1]];
  }

  lemma {:induction false} InstructionOut(s: Str, start: nat) returns (w: Str)
    requires ZeroEnded(s) && start + 2 < |s| && s[start] == '<' && s[start + 1] == '?' && InstructionAt(s, start + 2).Ok?
    ensures MarkupOk(Instruction(w)) && At(s, start, MarkupText(Instruction(w)))
    ensures InstructionAt(s, start + 2) == Ok(None, start + |MarkupText(Instruction(w))|)
  {
    hide At, SkipPast, Without, IsDeclaration;
    var mark: Str := "?>";
    TwoChars(s, start);
    if IsDeclaration(s, start + 2) {
      var rest := SkipPastOut(s, start + 6, mark);
      w := DeclarationText(s, start + 2, rest, mark);
    } else {
      w := SkipPastOut(s, start + 2, mark);
    }
    AtBoth(s, start, "<?", w + mark);
  }

  lemma NotQuestion(s: Str, pos: nat, k: nat)
    requires ZeroEnded(s) && pos + 4 < |s| && IsDeclaration(s, pos) && k < 4
    ensures s[pos + k] != '?'
  {
  }

  /** The first characters of a declaration hold no mark. */
  lemma {:induction false} DeclarationText(s: Str, pos: nat, rest: Str, mark: Str) returns (w: Str)
    requires ZeroEnded(s) && pos + 4 < |s| && IsDeclaration(s, pos) && mark == "?>"
    requires NUL !in rest && Without(rest, mark) && At(s, pos + 4, rest + mark)
    ensures NUL !in w && Without(w, mark) && At(s, pos, w + mark) && |w| == 4 + |rest|
  {
    var head := s[pos..pos + 4];
    w := head + rest;
    AtBoth(s, pos, head, rest + mark);
    Regroup(head, rest, mark);
    forall k | 0 <= k < |w| ensures !At(w, k, mark) {
      if k < 4 {
        AtAll(w, k, mark);
        NotQuestion(s, pos, k);
        assert w[k + 0] == s[pos + k] && mark[0] == '?';
      } else {
        assert !At(rest, k - 4, mark);
        assert k + |mark| <= |w| ==> w[k..k + |mark|] == rest[k - 4..k - 4 + |mark|];
      }
    }
  }

  ghost predicate PartOut(s: Str, start: nat, p: Part, node: Option<Node>, next: nat) {
    PartOk(p) && !p.Words? && At(s, start, PartText(p)) && PartMeaning(p) == Listed(node) && next == start + |PartText(p)|
  }

  lemma {:induction false} CommentOut(s: Str, start: nat) returns (w: Str)
    requires ZeroEnded(s) && start + 4 < |s| && s[start] == '<' && s[start + 1] == '!' && At(s, start + 2, "--")
    requires SkipPast(s, start + 4, "-->").Ok?
    ensures MarkupOk(Comment(w)) && At(s, start, MarkupText(Comment(w)))
    ensures SkipPast(s, start + 4, "-->").next == start + |MarkupText(Comment(w))|
  {
    hide At, SkipPast, Without;
    TwoChars(s, start);
    AtBoth(s, start, "<!", "--");
    assert "<!" + "--" == "<!--";
    w := SkipPastOut(s, start + 4, "-->");
    AtBoth(s, start, "<!--", w + "-->");
  }

  lemma {:induction false} CharactersOut(s: Str, start: nat) returns (w: Str)
    requires ZeroEnded(s) && start + 9 < |s| && s[start] == '<' && s[start + 1] == '!' && At(s, start + 2, "[CDATA[")
    requires CdataNode(s, start + 9).Ok?
    ensures PartOut(s, start, Characters(w), CdataNode(s, start + 9).value, CdataNode(s, start + 9).next)
  {
    hide At, SkipPast, Without, CdataNode;
    TwoChars(s, start);
    AtBoth(s, start, "<!", "[CDATA[");
    assert "<!" + "[CDATA[" == CDATA_OPEN;
    w := ValueOut(s, start + 9);
    CharactersAre(s, start, w);
  }

  lemma {:induction false} ValueOut(s: Str, pos: nat) returns (w: Str)
    requires ZeroEnded(s) && pos < |s| && CdataNode(s, pos).Ok?
    ensures NUL !in w && Without(w, CDATA_CLOSE) && At(s, pos, w + CDATA_CLOSE)
    ensures CdataNode(s, pos) == Ok(Some(Cdata(w)), pos + |w| + |CDATA_CLOSE|)
  {
    hide At, SkipPast, Without;
    w := SkipPastOut(s, pos, CDATA_CLOSE);
    AtSplit(s, pos, w, CDATA_CLOSE);
    AtSlice(s, pos, w);
  }

  lemma {:induction false} CharactersAre(s: Str, start: nat, w: Str)
    requires NUL !in w && Without(w, CDATA_CLOSE)
    requires At(s, start, CDATA_OPEN) && At(s, start + |CDATA_OPEN|, w + CDATA_CLOSE)
    ensures PartOut(s, start, Characters(w), Some(Cdata(w)), start + |CDATA_OPEN| + |w| + |CDATA_CLOSE|)
  {
    hide At, Without;
    AtBoth(s, start, CDATA_OPEN, w + CDATA_CLOSE);
    Regroup(CDATA_OPEN, w, CDATA_CLOSE);
  }

  lemma {:induction false} DoctypeMarkupOut(s: Str, start: nat) returns (m: Markup)
    requires ZeroEnded(s) && start + 10 < |s| && s[start] == '<' && s[start + 1] == '!' && At(s, start + 2, "DOCTYPE")
    requires Whitespace.Test(s[start + 9]) && SkipDoctype(s, start + 10).Ok?
    ensures MarkupOk(m) && At(s, start, MarkupText(m)) && SkipDoctype(s, start + 10).next == start + |MarkupText(m)|
  {
    hide At, SkipDoctype, SubsText, SubsOk;
    TwoChars(s, start);
    AtBoth(s, start, "<!", "DOCTYPE");
    assert "<!" + "DOCTYPE" == "<!DOCTYPE";
    AtOne(s, start + 9);
    var subs := DoctypeOut(s, start + 10);
    m := Doctype(s[start + 9], subs);
    AtBoth(s, start + 9, [s[start + 9]], SubsText(subs) + ">");
    AtBoth(s, start, "<!DOCTYPE", [s[start + 9]] + (SubsText(subs) + ">"));
  }

  lemma {:induction false} UnknownOut(s: Str, start: nat) returns (w: Str)
    requires ZeroEnded(s) && start + 2 < |s| && s[start] == '<' && s[start + 1] == '!' && SkipPast(s, start + 2, ">").Ok?
    requires !At(s, start + 2, "--") && !At(s, start + 2, "[CDATA[") && !IsDoctype(s, start + 1)
    ensures MarkupOk(Unknown(w)) && At(s, start, MarkupText(Unknown(w)))
    ensures SkipPast(s, start + 2, ">").next == start + |MarkupText(Unknown(w))|
  {
    hide At, SkipPast, Without;
    TwoChars(s, start);
    w := SkipPastOut(s, start + 2, ">");
    NoneInside(w);
    AtBoth(s, start, "<!", w + ">");
    AtSplit(s, start + 2, w, ">");
    NotHere(s, start + 2, w, "--");
    NotHere(s, start + 2, w, "[CDATA[");
    NotHere(s, start + 2, w, "DOCTYPE");
    if |w| > 7 {
      AtIndex(s, start + 2, w, 7);
    }
  }

  lemma {:induction false} NoneInside(w: Str)
    requires Without(w, ">")
    ensures '>' !in w
  {
    forall k | 0 <= k < |w| ensures w[k] != '>' {
      assert !At(w, k, ">");
      assert w[k..k + 1] == [w[k]];
    }
  }

  lemma MarkupPart(s: Str, start: nat, m: Markup)
    requires MarkupOk(m) && At(s, start, MarkupText(m))
    ensures PartOut(s, start, Aside(m), None, start + |MarkupText(m)|)
  {
  }

  /** What "<!" starts. */
  lemma {:induction false} DeclaredOut(s: Str, start: nat) returns (p: Part)
    requires ZeroEnded(s) && start + 1 < |s| && s[start] == '<' && s[start + 1] == '!' && DeclaredAt(s, start + 1).Ok?
    ensures PartOut(s, start, p, DeclaredAt(s, start + 1).value, DeclaredAt(s, start + 1).next)
  {
    hide At, SkipPast, CdataNode, SkipDoctype, MarkupOk, MarkupText, PartOut;
    if At(s, start + 2, "--") {
      AtIndex(s, start + 2, "--", 1);
      var w := CommentOut(s, start);
      p := Aside(Comment(w));
      MarkupPart(s, start, p.m);
    } else if At(s, start + 2, "[CDATA[") {
      AtIndex(s, start + 2, "[CDATA[", 6);
      var w := CharactersOut(s, start);
      p := Characters(w);
    } else if IsDoctype(s, start + 1) {
      var m := DoctypeMarkupOut(s, start);
      p := Aside(m);
      MarkupPart(s, start, m);
    } else {
      var w := UnknownOut(s, start);
      p := Aside(Unknown(w));
      MarkupPart(s, start, p.m);
    }
  }

  // ----- Nodes ---------------------------------------------------------------------------------------------------

  /** White space as words. */
  function BlankPieces(w: Str): seq<Piece> {
    if w == [] then [] else [Plain(w[0])] + BlankPieces(w[1..])
  }

  lemma {:induction false} BlankIsSpelled(w: Str)
    requires Blank(w)
    ensures PiecesText(BlankPieces(w)) == w && PiecesOk(BlankPieces(w), Text)
  {
    hide Digits, CodeOf, Encode, EscapeChar, StartsReference;
    if w != [] {
      assert w[0] in BLANKS;
      assert Blank(w[1..]) by {
        forall k | 0 <= k < |w[1..]| ensures w[1..][k] in BLANKS {
          assert w[1..][k] == w[k + 1];
        }
      }
      BlankIsSpelled(w[1..]);
      var ps := BlankPieces(w);
      assert ps[1..] == BlankPieces(w[1..]) && PieceText(ps[0]) == [w[0]];
      assert w == [w[0]] + w[1..];
    }
  }

  function Lead(w: Str, parts: seq<Part>): seq<Part> {
    if w == [] then parts else [Words(BlankPieces(w))] + parts
  }

  /** White space in front of parts that do not start with words. */
  lemma {:induction false} LeadIsSpelled(s: Str, pos: nat, w: Str, parts: seq<Part>, tail: Str)
    requires Blank(w) && At(s, pos, w) && At(s, pos + |w|, PartsText(parts) + tail)
    requires PartsOk(parts) && (parts != [] ==> !parts[0].Words?)
    ensures PartsOk(Lead(w, parts)) && At(s, pos, PartsText(Lead(w, parts)) + tail)
    ensures PartsMeaning(Lead(w, parts)) == PartsMeaning(parts) && |PartsText(Lead(w, parts))| == |w| + |PartsText(parts)|
    ensures Lead(w, parts) != [] && Lead(w, parts)[0].Words? ==> w != [] && Lead(w, parts)[0] == Words(BlankPieces(w))
  {
    hide At, PiecesText, PiecesOk, PartText, PartMeaning, Blank, PartOk;
    if w != [] {
      var p := Words(BlankPieces(w));
      var all := [p] + parts;
      BlankIsSpelled(w);
      WordsAre(p);
      assert all[1..] == parts;
      AtBoth(s, pos, w, PartsText(parts) + tail);
      FirstPart(all, tail);
      assert WordsMeaning(p.ps) == [];
      assert [] + PartsMeaning(parts) == PartsMeaning(parts);
    }
  }

  lemma {:induction false} WordsAre(p: Part)
    requires p.Words?
    ensures PartOk(p) <==> PiecesOk(p.ps, Text)
    ensures PartText(p) == PiecesText(p.ps) && PartMeaning(p) == WordsMeaning(p.ps)
  {
  }

  lemma {:induction false} FirstPartOut(s: Str, pos: nat, p: Part, parts: seq<Part>, tail: Str)
    requires PartOk(p) && PartsOk(parts) && (p.Words? && parts != [] ==> !parts[0].Words?)
    requires At(s, pos, PartText(p)) && At(s, pos + |PartText(p)|, PartsText(parts) + tail)
    ensures PartsOk([p] + parts) && At(s, pos, PartsText([p] + parts) + tail)
    ensures PartsMeaning([p] + parts) == PartMeaning(p) + PartsMeaning(parts)
    ensures |PartsText([p] + parts)| == |PartText(p)| + |PartsText(parts)|
  {
    hide At, PartText, PartMeaning, PartOk;
    var all := [p] + parts;
    assert all[1..] == parts;
    AtBoth(s, pos, PartText(p), PartsText(parts) + tail);
    FirstPart(all, tail);
  }

  lemma {:induction false} HeadOut(s: Str, start: nat) returns (space: Str, list: seq<AttributeSpelling>)
    requires ZeroEnded(s) && start + 1 < |s| && s[start] == '<' && s[start + 1] != '!'
    requires var end := Skip(s, start + 1, NodeName); end > start + 1 && Attributes(s, Skip(s, end, Whitespace)).Ok?
    ensures var end := Skip(s, start + 1, NodeName);
            var name := s[start + 1..end];
            && HeadOk(name, space, list) && At(s, start, HeadSpelled(name, space, list))
            && Attributes(s, Skip(s, end, Whitespace)) == Ok(AttributesMeaning(list), start + |HeadSpelled(name, space, list)|)
  {
    hide At, Skip, Attributes, AttributesOk, AttributesMeaning, AttributesSpelled, Blank, Avoids, All, NameOk, HeadSpelled;
    var end := Skip(s, start + 1, NodeName);
    var name := s[start + 1..end];
    var from := Skip(s, end, Whitespace);
    SkipOut(s, start + 1, NodeName);
    TablesAre(name);
    BlankOut(s, end);
    space := s[end..from];
    list := AttributesOut(s, from);
    NameStops(s, end);
    NameIsOk(s, start + 1, end);
    HeadJoin(s, start, name, space, list);
  }

  lemma NameIsOk(s: Str, from: nat, end: nat)
    requires from < end <= |s| && s[from] != '!' && Avoids(s[from..end], ENDS_NAME)
    ensures NameOk(s[from..end])
  {
  }

  lemma {:induction false} HeadJoin(s: Str, start: nat, name: Str, space: Str, list: seq<AttributeSpelling>)
    requires start < |s| && s[start] == '<' && At(s, start + 1, name) && At(s, start + 1 + |name|, space)
    requires At(s, start + 1 + |name| + |space|, AttributesSpelled(list))
    ensures At(s, start, HeadSpelled(name, space, list))
    ensures |HeadSpelled(name, space, list)| == 1 + |name| + |space| + |AttributesSpelled(list)|
  {
    hide At, AttributesSpelled;
    var text := AttributesSpelled(list);
    AtOne(s, start);
    AtBoth(s, start + 1 + |name|, space, text);
    AtBoth(s, start + 1, name, space + text);
    AtBoth(s, start, "<", name + (space + text));
  }

  lemma NameStops(s: Str, end: nat)
    requires end < |s|
    ensures AttributeName.Test(s[end]) ==> NodeName.Test(s[end])
  {
  }

  lemma {:induction false} EmptyOut(s: Str, start: nat, name: Str, space: Str, list: seq<AttributeSpelling>) returns (p: Part)
    requires HeadOk(name, space, list) && At(s, start, HeadSpelled(name, space, list))
    requires var mid := start + |HeadSpelled(name, space, list)|; mid + 1 < |s| && s[mid] == '/' && s[mid + 1] == '>'
    ensures PartOut(s, start, p, Some(Element(name, [], AttributesMeaning(list), [])), start + |HeadSpelled(name, space, list)| + 2)
  {
    hide At, HeadOk, HeadSpelled, AttributesMeaning;
    p := Empty(name, space, list);
    TwoChars(s, start + |HeadSpelled(name, space, list)|);
    AtBoth(s, start, HeadSpelled(name, space, list), "/>");
  }

  lemma {:induction false} TagOut(s: Str, start: nat, name: Str, space: Str, list: seq<AttributeSpelling>,
                                  parts: seq<Part>, closing: Str, closingSpace: Str) returns (p: Part)
    requires HeadOk(name, space, list) && At(s, start, HeadSpelled(name, space, list))
    requires PartsOk(parts) && Avoids(closing, ENDS_NAME) && Blank(closingSpace)
    requires var mid := start + |HeadSpelled(name, space, list)|;
             mid < |s| && s[mid] == '>' && At(s, mid + 1, PartsText(parts) + ClosingSpelled(closing, closingSpace))
    ensures var children := PartsMeaning(parts);
            PartOut(s, start, p, Some(Element(name, ElementValue([], children), AttributesMeaning(list), children)),
                    start + |HeadSpelled(name, space, list)| + 1 + |PartsText(parts)| + |ClosingSpelled(closing, closingSpace)|)
  {
    hide At, HeadOk, HeadSpelled, AttributesMeaning, PartsText, PartsMeaning, ClosingSpelled, ElementValue, Avoids, Blank;
    p := Tag(name, space, list, parts, closing, closingSpace);
    var mid, inner := start + |HeadSpelled(name, space, list)|, PartsText(parts) + ClosingSpelled(closing, closingSpace);
    AtOne(s, mid);
    AtBoth(s, mid, ">", inner);
    AtBoth(s, start, HeadSpelled(name, space, list), ">" + inner);
  }

  lemma SpelledParts(s: Str, pos: nat, parts: seq<Part>, closing: Str, space: Str)
    requires ContentsSpelled(s, pos, parts, closing, space)
    ensures PartsOk(parts) && Avoids(closing, ENDS_NAME) && Blank(space)
    ensures At(s, pos, PartsText(parts) + ClosingSpelled(closing, space))
    ensures Contents(s, pos) == Ok(PartsMeaning(parts), pos + |PartsText(parts)| + |ClosingSpelled(closing, space)|)
  {
  }

  lemma {:induction false} ElementOut(s: Str, start: nat) returns (p: Part)
    requires ZeroEnded(s) && start + 1 < |s| && s[start] == '<' && s[start + 1] != '!' && ElementAt(s, start + 1).Ok?
    ensures PartOut(s, start, p, Some(ElementAt(s, start + 1).value), ElementAt(s, start + 1).next)
    decreases |s| - start - 1, 1
  {
    hide At, Skip, Attributes, Contents, PartOut, HeadOk, HeadSpelled, ElementValue, AttributesMeaning, PartsOk, ContentsSpelled;
    var end := Skip(s, start + 1, NodeName);
    var name := s[start + 1..end];
    var space, list := HeadOut(s, start);
    var mid := start + |HeadSpelled(name, space, list)|;
    if s[mid] == '>' {
      var parts, closing, closingSpace := ContentsOut(s, mid + 1);
      SpelledParts(s, mid + 1, parts, closing, closingSpace);
      p := TagOut(s, start, name, space, list, parts, closing, closingSpace);
    } else {
      EmptyValue();
      p := EmptyOut(s, start, name, space, list);
    }
  }

  /** What a '<' starts that is no closing tag. */
  lemma {:induction false} NodeOut(s: Str, start: nat) returns (p: Part)
    requires ZeroEnded(s) && start + 1 < |s| && s[start] == '<' && NodeAt(s, start + 1).Ok?
    ensures PartOut(s, start, p, NodeAt(s, start + 1).value, NodeAt(s, start + 1).next)
    decreases |s| - start - 1, 2
  {
    hide At, InstructionAt, DeclaredAt, ElementAt, PartOut, MarkupOk, MarkupText;
    if s[start + 1] == '?' {
      var w := InstructionOut(s, start);
      p := Aside(Instruction(w));
      MarkupPart(s, start, p.m);
    } else if s[start + 1] == '!' {
      p := DeclaredOut(s, start);
    } else {
      p := ElementOut(s, start);
    }
  }

  lemma {:induction false} ClosingOut(s: Str, start: nat) returns (closing: Str, space: Str)
    requires ZeroEnded(s) && start + 2 < |s| && s[start] == '<' && s[start + 1] == '/' && Closing(s, start + 2).Ok?
    ensures Avoids(closing, ENDS_NAME) && Blank(space) && At(s, start, ClosingSpelled(closing, space))
    ensures Closing(s, start + 2) == Ok([], start + |ClosingSpelled(closing, space)|)
  {
    hide At, Skip, Blank, Avoids, All;
    var end := Skip(s, start + 2, NodeName);
    var last := Skip(s, end, Whitespace);
    SkipOut(s, start + 2, NodeName);
    closing := s[start + 2..end];
    TablesAre(closing);
    BlankOut(s, end);
    space := s[end..last];
    TwoChars(s, start);
    AtOne(s, last);
    AtBoth(s, end, space, ">");
    AtBoth(s, start + 2, closing, space + ">");
    AtBoth(s, start, "</", closing + (space + ">"));
  }

  /** Words that are not only white space. */
  lemma {:induction false} WordsOut(s: Str, pos: nat) returns (ps: seq<Piece>)
    requires ZeroEnded(s) && pos < |s| && Expand(s, pos, pos, Text).Ok?
    requires s[Skip(s, pos, Whitespace)] != '<' && s[Skip(s, pos, Whitespace)] != NUL
    ensures PiecesOk(ps, Text) && At(s, pos, PiecesText(ps)) && WordsMeaning(ps) == [Data(PiecesMeaning(ps))]
    ensures Expand(s, pos, pos, Text) == Ok(PiecesMeaning(ps), pos + |PiecesText(ps)|)
  {
    hide Skip, Expand, PiecesOk, PiecesMeaning, PiecesText;
    ps := ExpandOut(s, pos, pos, Text);
    var text, start := PiecesText(ps), Skip(s, pos, Whitespace);
    TablesAre(text);
    AtAll(s, pos, text);
    ExpandEnds(s, pos);
    StopIsNoBlank(s, pos + |text|);
    assert pos + |text| > start;
    assert text[start - pos] == s[pos + (start - pos)];
  }

  lemma ExpandEnds(s: Str, pos: nat)
    requires ZeroEnded(s) && pos < |s| && Expand(s, pos, pos, Text).Ok?
    ensures var end := Expand(s, pos, pos, Text).next; end < |s| && (s[end] == '<' || s[end] == NUL)
  {
  }

  lemma StopIsNoBlank(s: Str, end: nat)
    requires end < |s| && (s[end] == '<' || s[end] == NUL)
    ensures !Whitespace.Test(s[end])
  {
  }

  /** What the parser has found of contents: parts and a closing tag. */
  ghost predicate ContentsSpelled(s: Str, pos: nat, parts: seq<Part>, closing: Str, space: Str) {
    && pos < |s| && ZeroEnded(s)
    && PartsOk(parts) && Avoids(closing, ENDS_NAME) && Blank(space)
    && At(s, pos, PartsText(parts) + ClosingSpelled(closing, space))
    && Contents(s, pos) == Ok(PartsMeaning(parts), pos + |PartsText(parts)| + |ClosingSpelled(closing, space)|)
  }

  lemma {:induction false} OnlyClosing(s: Str, start: nat) returns (closing: Str, space: Str)
    requires ZeroEnded(s) && start + 1 < |s| && s[start] == '<' && s[start + 1] == '/' && Contents(s, start).Ok?
    ensures ContentsSpelled(s, start, [], closing, space)
  {
    hide At, Skip, NodeAt, Closing, Expand, ClosingSpelled, Avoids, Blank;
    NoSkip(s, start);
    closing, space := ClosingOut(s, start);
    NoParts(ClosingSpelled(closing, space));
  }

  lemma {:induction false} NodeThenRest(s: Str, start: nat, p: Part, node: Option<Node>, next: nat, more: seq<Part>, closing: Str, space: Str)
    requires ZeroEnded(s) && start + 1 < |s| && s[start] == '<' && s[start + 1] != '/' && NodeAt(s, start + 1) == Ok(node, next)
    requires PartOut(s, start, p, node, next) && ContentsSpelled(s, next, more, closing, space)
    ensures ContentsSpelled(s, start, [p] + more, closing, space)
  {
    hide At, NodeAt, Contents, ClosingSpelled, Avoids, Blank, PartsOk, PartOk, PartsText, PartText, PartsMeaning, PartMeaning;
    ContentsStep(s, start, node, next);
    FirstPartOut(s, start, p, more, ClosingSpelled(closing, space));
  }

  /** Contents with white space in front. */
  lemma {:induction false} BlankThenRest(s: Str, pos: nat, w: Str, parts: seq<Part>, closing: Str, space: Str)
    requires ZeroEnded(s) && Blank(w) && At(s, pos, w) && pos + |w| < |s| && s[pos + |w|] == '<'
    requires ContentsSpelled(s, pos + |w|, parts, closing, space) && (parts != [] ==> !parts[0].Words?)
    ensures ContentsSpelled(s, pos, Lead(w, parts), closing, space)
  {
    hide At, Contents, ClosingSpelled, Avoids, Blank, PartsOk, PartsText, PartsMeaning, Lead, All;
    TablesAre(w);
    BlankBack(s, pos, w);
    LeadIsSpelled(s, pos, w, parts, ClosingSpelled(closing, space));
  }

  lemma {:induction false} WordsThenRest(s: Str, pos: nat, ps: seq<Piece>, more: seq<Part>, closing: Str, space: Str)
    requires ZeroEnded(s) && pos < |s| && s[Skip(s, pos, Whitespace)] != '<' && s[Skip(s, pos, Whitespace)] != NUL
    requires PiecesOk(ps, Text) && At(s, pos, PiecesText(ps)) && WordsMeaning(ps) == [Data(PiecesMeaning(ps))]
    requires Expand(s, pos, pos, Text) == Ok(PiecesMeaning(ps), pos + |PiecesText(ps)|) && |PiecesText(ps)| > 0
    requires ContentsSpelled(s, pos + |PiecesText(ps)|, more, closing, space) && (more != [] ==> !more[0].Words?)
    ensures ContentsSpelled(s, pos, [Words(ps)] + more, closing, space)
  {
    hide At, Skip, Contents, Expand, ClosingSpelled, Avoids, Blank, PartsOk, PartOk, PartsText, PartText, PartsMeaning, PartMeaning;
    hide PiecesOk, PiecesText, PiecesMeaning, WordsMeaning;
    WordsAre(Words(ps));
    FirstPartOut(s, pos, Words(ps), more, ClosingSpelled(closing, space));
    DataStep(s, pos, PiecesMeaning(ps), pos + |PiecesText(ps)|, PartsMeaning(more),
             pos + |PiecesText(ps)| + |PartsText(more)| + |ClosingSpelled(closing, space)|);
  }

  /** Contents up to the closing tag, from the '<' on that follows white space. */
  lemma {:induction false} TagsOut(s: Str, start: nat) returns (parts: seq<Part>, closing: Str, space: Str)
    requires ZeroEnded(s) && start + 1 < |s| && s[start] == '<' && Contents(s, start).Ok?
    ensures ContentsSpelled(s, start, parts, closing, space)
    ensures parts != [] ==> !parts[0].Words?
    decreases |s| - start, 0
  {
    hide At, Skip, NodeAt, Closing, Expand, ContentsSpelled, PartText, PartOk, PartMeaning;
    NoSkip(s, start);
    if s[start + 1] == '/' {
      closing, space := OnlyClosing(s, start);
      parts := [];
    } else {
      var p := NodeOut(s, start);
      var node := NodeAt(s, start + 1);
      var more;
      more, closing, space := ContentsOut(s, node.next);
      NodeThenRest(s, start, p, node.value, node.next, more, closing, space);
      parts := [p] + more;
    }
  }

  /** Contents up to the closing tag. */
  lemma {:induction false} ContentsOut(s: Str, pos: nat) returns (parts: seq<Part>, closing: Str, space: Str)
    requires ZeroEnded(s) && pos < |s| && Contents(s, pos).Ok?
    ensures ContentsSpelled(s, pos, parts, closing, space)
    ensures s[pos] == '<' && parts != [] ==> !parts[0].Words?
    decreases |s| - pos, 1
  {
    hide At, Skip, Expand, ContentsSpelled, PiecesOk, PiecesText, PiecesMeaning, WordsMeaning, Blank, Contents;
    var start := Skip(s, pos, Whitespace);
    BlankOut(s, pos);
    StartsHere(s, pos);
    ContentsGoOn(s, pos);
    if s[start] == '<' {
      var rest;
      rest, closing, space := TagsOut(s, start);
      parts := Lead(s[pos..start], rest);
      BlankThenRest(s, pos, s[pos..start], rest, closing, space);
    } else {
      var ps := WordsOut(s, pos);
      ExpandEnds(s, pos);
      EndsAtTag(s, pos + |PiecesText(ps)|);
      var more;
      more, closing, space := ContentsOut(s, pos + |PiecesText(ps)|);
      WordsThenRest(s, pos, ps, more, closing, space);
      parts := [Words(ps)] + more;
    }
  }

  /** What is known of contents that are read. */
  lemma {:induction false} ContentsGoOn(s: Str, pos: nat)
    requires ZeroEnded(s) && pos < |s| && Contents(s, pos).Ok?
    ensures var start := Skip(s, pos, Whitespace);
            && s[start] != NUL && start + 1 < |s|
            && (s[start] == '<' ==> Contents(s, start).Ok?)
            && (s[start] != '<' ==> Expand(s, pos, pos, Text).Ok? && pos < Expand(s, pos, pos, Text).next
                                    && Contents(s, Expand(s, pos, pos, Text).next).Ok?)
  {
    hide NodeAt, Closing, Expand, Skip;
    var start := Skip(s, pos, Whitespace);
    SkipTwice(s, pos);
  }

  lemma {:induction false} SkipTwice(s: Str, pos: nat)
    requires ZeroEnded(s) && pos < |s|
    ensures var start := Skip(s, pos, Whitespace); Skip(s, start, Whitespace) == start
  {
    NoSkip(s, Skip(s, pos, Whitespace));
  }

  lemma {:induction false} StartsHere(s: Str, pos: nat)
    requires ZeroEnded(s) && pos < |s|
    ensures s[pos] == '<' ==> Skip(s, pos, Whitespace) == pos
  {
  }

  /** Contents do not end with the text. */
  lemma {:induction false} EndsAtTag(s: Str, pos: nat)
    requires ZeroEnded(s) && pos < |s| && Contents(s, pos).Ok? && (s[pos] == '<' || s[pos] == NUL)
    ensures s[pos] == '<'
  {
    hide NodeAt, Closing, Expand, Skip;
    NoSkip(s, pos);
  }

  // ----- Documents -----------------------------------------------------------------------------------------------

  /** What the parser has found at the top: parts up to a zero. */
  ghost predicate TopSpelled(s: Str, pos: nat, parts: seq<Part>) {
    && pos < |s| && ZeroEnded(s) && TopOk(parts) && At(s, pos, PartsText(parts))
    && pos + |PartsText(parts)| < |s| && s[pos + |PartsText(parts)|] == NUL
    && TopNodes(s, pos) == Ok(PartsMeaning(parts), pos + |PartsText(parts)|)
  }

  lemma {:induction false} NodeThenTop(s: Str, start: nat, p: Part, node: Option<Node>, next: nat, more: seq<Part>)
    requires ZeroEnded(s) && start + 1 < |s| && s[start] == '<' && s[start + 1] != '/' && NodeAt(s, start + 1) == Ok(node, next)
    requires PartOut(s, start, p, node, next) && TopSpelled(s, next, more)
    ensures TopSpelled(s, start, [p] + more)
  {
    hide *;
    var all := [p] + more;
    ContentsStep(s, start, node, next);
    PartsAre(s, start, p, node, next);
    TopIsSpelled(s, next, more);
    Unended(PartsText(more));
    FirstPartOut(s, start, p, more, []);
    Unended(PartsText(all));
    TopMore(p, more);
    JoinOk(Listed(node), PartsMeaning(more), next + |PartsText(more)|);
    TopMade(s, start, all);
  }

  lemma PartsAre(s: Str, start: nat, p: Part, node: Option<Node>, next: nat)
    requires PartOut(s, start, p, node, next)
    ensures PartOk(p) && !p.Words? && At(s, start, PartText(p)) && PartMeaning(p) == Listed(node) && next == start + |PartText(p)|
  {
    hide At, PartOk, PartText, PartMeaning;
  }

  lemma JoinOk(a: seq<Node>, b: seq<Node>, next: nat)
    ensures Join(a, Ok(b, next)) == Ok(a + b, next)
  {
  }

  lemma TopIsSpelled(s: Str, pos: nat, parts: seq<Part>)
    requires TopSpelled(s, pos, parts)
    ensures pos < |s| && ZeroEnded(s) && TopOk(parts) && PartsOk(parts) && At(s, pos, PartsText(parts))
    ensures pos + |PartsText(parts)| < |s| && s[pos + |PartsText(parts)|] == NUL
    ensures TopNodes(s, pos) == Ok(PartsMeaning(parts), pos + |PartsText(parts)|)
  {
    hide At, PartsOk, PartsText, PartsMeaning, TopNodes;
  }

  lemma TopMade(s: Str, pos: nat, parts: seq<Part>)
    requires ZeroEnded(s) && TopOk(parts) && At(s, pos, PartsText(parts))
    requires pos + |PartsText(parts)| < |s| && s[pos + |PartsText(parts)|] == NUL
    requires TopNodes(s, pos) == Ok(PartsMeaning(parts), pos + |PartsText(parts)|)
    ensures TopSpelled(s, pos, parts)
  {
    hide At, TopOk, PartsText, PartsMeaning, TopNodes;
  }

  /** The top with white space in front. */
  lemma {:induction false} BlankThenTop(s: Str, pos: nat, w: Str, parts: seq<Part>)
    requires ZeroEnded(s) && Blank(w) && At(s, pos, w) && TopSpelled(s, pos + |w|, parts) && !Whitespace.Test(s[pos + |w|])
    requires parts != [] ==> !parts[0].Words?
    ensures TopSpelled(s, pos, Lead(w, parts))
  {
    hide At, TopNodes, TopOk, TopSpelled, Blank, PartsOk, PartsText, PartsMeaning, Lead, PiecesText, PiecesOk;
    TopIsSpelled(s, pos + |w|, parts);
    TopBlank(s, pos, w);
    Unended(PartsText(parts));
    LeadIsSpelled(s, pos, w, parts, []);
    Unended(PartsText(Lead(w, parts)));
    BlankIsSpelled(w);
    TopLead(w, parts);
    TopMade(s, pos, Lead(w, parts));
  }

  lemma {:induction false} TopOut(s: Str, pos: nat) returns (parts: seq<Part>)
    requires ZeroEnded(s) && pos < |s| && TopNodes(s, pos).Ok?
    ensures TopSpelled(s, pos, parts)
    decreases |s| - pos
  {
    hide At, Skip, NodeAt, TopSpelled, PartOut, Blank, Lead, PartOk, PartText, PartMeaning;
    var start := Skip(s, pos, Whitespace);
    BlankOut(s, pos);
    parts := [];
    if s[start] == '<' {
      var p := NodeOut(s, start);
      var node := NodeAt(s, start + 1);
      var more := TopOut(s, node.next);
      NoSlash(s, start);
      NodeThenTop(s, start, p, node.value, node.next, more);
      parts := [p] + more;
      PartsAre(s, start, p, node.value, node.next);
    } else {
      TopEnds(s, start);
    }
    BlankThenTop(s, pos, s[pos..start], parts);
    parts := Lead(s[pos..start], parts);
  }

  /** A slash starts no node. */
  lemma NoSlash(s: Str, start: nat)
    requires ZeroEnded(s) && start + 1 < |s| && NodeAt(s, start + 1).Ok?
    ensures s[start + 1] != '/'
  {
  }

  lemma {:induction false} TopEnds(s: Str, pos: nat)
    requires ZeroEnded(s) && pos < |s| && s[pos] == NUL
    ensures TopSpelled(s, pos, [])
  {
    TopEnd(s, pos);
    NoParts([]);
  }

  lemma TopMore(p: Part, more: seq<Part>)
    requires !p.Words? && PartOk(p) && TopOk(more) && PartsOk([p] + more)
    ensures TopOk([p] + more)
  {
    hide PartOk, Blank, PiecesText;
  }

  lemma TopLead(w: Str, rest: seq<Part>)
    requires Blank(w) && PiecesText(BlankPieces(w)) == w && TopOk(rest) && PartsOk(Lead(w, rest))
    ensures TopOk(Lead(w, rest))
  {
    hide PartOk, Blank, PiecesText, BlankPieces;
  }

  lemma {:induction false} DocumentOut(s: Str) returns (parts: seq<Part>, bom: bool)
    requires ZeroEnded(s) && Document(s).Ok?
    ensures TopOk(parts) && At(s, 0, Spelled(parts, bom)) && |Spelled(parts, bom)| < |s| && s[|Spelled(parts, bom)|] == NUL
    ensures Document(s) == Ok(PartsMeaning(parts), |Spelled(parts, bom)|)
  {
    hide At, TopNodes, TopOk, PartsText, PartsMeaning;
    bom := At(s, 0, MARK);
    AtNothing(s, 0);
    parts := TopOut(s, SkipBom(s));
    AtBoth(s, 0, if bom then MARK else [], PartsText(parts));
  }

  /** The text up to the first zero is a document with this meaning. */
  ghost predicate IsDocument(s: Str, ns: seq<Node>, next: nat) {
    exists parts, bom ::
      && TopOk(parts) && PartsMeaning(parts) == ns
      && next == |Spelled(parts, bom)| && next < |s| && At(s, 0, Spelled(parts, bom)) && s[next] == NUL
  }

  /** The parser takes exactly the texts that are spelled as documents, and finds what they mean. */
  lemma {:induction false} AcceptsExactlyDocuments(s: Str, ns: seq<Node>, next: nat)
    requires ZeroEnded(s)
    ensures Document(s) == Ok(ns, next) <==> IsDocument(s, ns, next)
  {
    hide At, Document, TopOk, PartsMeaning, Spelled;
    if Document(s) == Ok(ns, next) {
      var parts, bom := DocumentOut(s);
    }
    if IsDocument(s, ns, next) {
      var parts, bom :|
        && TopOk(parts) && PartsMeaning(parts) == ns
        && next == |Spelled(parts, bom)| && next < |s| && At(s, 0, Spelled(parts, bom)) && s[next] == NUL;
      SpelledIsFound(s, parts, bom);
    }
  }
}
