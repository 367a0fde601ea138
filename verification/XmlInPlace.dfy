/** rapidxml's default parse as it runs: on a buffer that it overwrites with decoded characters and
    terminating zeros. `s` is the text that was in the buffer when parsing started. */
module XmlInPlace {
  import opened XmlText
  import opened BitOps
  import opened XmlReferences
  import opened XmlParser

  /** From pos on the buffer still holds the original text. */
  ghost predicate Ahead(b: Str, s: Str, pos: nat) {
    |b| == |s| && pos <= |s| && b[pos..] == s[pos..]
  }

  lemma AheadAt(b: Str, s: Str, pos: nat, k: nat)
    requires Ahead(b, s, pos) && pos <= k <= |s|
    ensures Ahead(b, s, k)
    ensures k < |s| ==> b[k] == s[k]
  {
    assert b[k..] == b[pos..][k - pos..];
    assert s[k..] == s[pos..][k - pos..];
    if k < |s| {
      assert b[pos..][k - pos] == s[pos..][k - pos];
    }
  }

  /** `skip` */
  method SkipTable(buf: array<Ch>, text: nat, table: Table, ghost s: Str) returns (end: nat)
    requires ZeroEnded(s) && text < |s| && Ahead(buf[..], s, text) && !table.Test(NUL)
    ensures end == Skip(s, text, table)
    ensures Ahead(buf[..], s, end) && buf[end] == s[end]
  {
    end := text;
    AheadAt(buf[..], s, text, end);
    while table.Test(buf[end])
      invariant text <= end < |s| && buf[end] == s[end] && Ahead(buf[..], s, end)
      invariant Skip(s, text, table) == Skip(s, end, table)
      decreases |s| - end
    {
      AheadAt(buf[..], s, end, end + 1);
      end := end + 1;
    }
  }

  /** A comparison with w that stops reading at the first difference. */
  method Reads(buf: array<Ch>, pos: nat, w: Str, ghost s: Str) returns (same: bool)
    requires ZeroEnded(s) && pos < |s| && Ahead(buf[..], s, pos) && NUL !in w
    ensures same <==> At(s, pos, w)
  {
    var k := 0;
    while k < |w|
      invariant 0 <= k <= |w| && pos + k < |s|
      invariant s[pos..pos + k] == w[..k]
    {
      AheadAt(buf[..], s, pos, pos + k);
      if buf[pos + k] != w[k] {
        AtAll(s, pos, w);
        return false;
      }
      assert s[pos + k] != NUL;
      assert s[pos..pos + k + 1] == s[pos..pos + k] + [s[pos + k]];
      assert w[..k + 1] == w[..k] + [w[k]];
      k := k + 1;
    }
    assert w[..k] == w;
    return true;
  }

  // ----- Translating references ------------------------------------------------------------------------

  /** b with w written over it from dest on. */
  function Written(b: Str, dest: nat, w: Str): (b': Str)
    requires dest + |w| <= |b|
    ensures |b'| == |b|
  {
    b[..dest] + w + b[dest + |w|..]
  }

  /** `insert_coded_character`, with UTF-8: the later bytes are written first. */
  method InsertCodedCharacter(buf: array<Ch>, text: nat, code: nat) returns (ok: bool, end: nat)
    requires Encode(code).Some? ==> text + |Encode(code).value| <= buf.Length
    modifies buf
    ensures ok <==> Encode(code).Some?
    ensures ok ==> end == text + |Encode(code).value|
    ensures ok ==> buf[..] == Written(old(buf[..]), text, Encode(code).value)
    ensures !ok ==> buf[..] == old(buf[..])
  {
    hide And, Or;
    ok, end := true, text;
    BitFormulas(code);
    BitFormulas(code / 64);
    if code < 0x80 {
      buf[text] := UnsignedChar(code);
      end := text + 1;
    } else if code < 0x800 {
      buf[text + 1] := Following(code);
      buf[text] := Leading(code / 64, 0xC0);
      end := text + 2;
    } else if code < 0x10000 {
      Digits64(code);
      BitFormulas(code / 64 / 64);
      buf[text + 2] := Following(code);
      buf[text + 1] := Following(code / 64);
      buf[text] := Leading(code / 64 / 64, 0xE0);
      end := text + 3;
    } else if code < 0x110000 {
      Digits64(code);
      BitFormulas(code / 64 / 64);
      BitFormulas(code / 64 / 64 / 64);
      buf[text + 3] := Following(code);
      buf[text + 2] := Following(code / 64);
      buf[text + 1] := Following(code / 64 / 64);
      buf[text] := Leading(code / 64 / 64 / 64, 0xF0);
      end := text + 4;
    } else {
      ok := false;
    }
  }

  lemma WrittenAhead(b: Str, s: Str, src: nat, dest: nat, w: Str)
    requires Ahead(b, s, src) && dest + |w| <= src
    ensures Ahead(Written(b, dest, w), s, src)
  {
    var b' := Written(b, dest, w);
    assert b'[src..] == b[src..];
  }

  lemma WrittenPrefix(b: Str, dest: nat, w: Str, k: nat)
    requires dest + |w| <= |b| && k <= dest
    ensures Written(b, dest, w)[..k] == b[..k]
  {
  }

  lemma WrittenSpan(b: Str, dest: nat, w: Str, k: nat)
    requires dest + |w| <= |b| && k <= dest
    ensures Written(b, dest, w)[k..dest + |w|] == b[k..dest] + w
  {
  }

  method ReadNumber(buf: array<Ch>, pos: nat, hex: bool, ghost s: Str) returns (code: nat, src: nat)
    requires ZeroEnded(s) && pos < |s| && Ahead(buf[..], s, pos)
    ensures code < ULONG && pos <= src < |s| && (code, src) == Number(s, pos, hex, 0)
    ensures buf[src] == s[src]
  {
    code, src := 0, pos;
    AheadAt(buf[..], s, pos, src);
    while Digit(buf[src]) != 255
      invariant pos <= src < |s| && buf[src] == s[src] && Ahead(buf[..], s, src)
      invariant code < ULONG && Number(s, pos, hex, 0) == Number(s, src, hex, code)
      decreases |s| - src
    {
      AheadAt(buf[..], s, src, src + 1);
      if hex {
        code := (code * 16 + Digit(buf[src])) % ULONG;
      } else {
        code := (code * 10 + Digit(buf[src])) % ULONG;
      }
      src := src + 1;
    }
  }

  /** Lines 1650-1683: a numeric reference whose digits start at pos. */
  method TranslateNumber(buf: array<Ch>, pos: nat, hex: bool, dest: nat, ghost s: Str) returns (r: Res<nat>)
    requires ZeroEnded(s) && dest + 2 <= pos < |s| && Ahead(buf[..], s, pos)
    modifies buf
    ensures buf.Length == |s| && buf[..dest] == old(buf[..dest])
    ensures match NumericAt(s, pos, hex, dest)
            case Bad(what, at) => r == Bad(what, at)
            case Ok(out, next) =>
              && r == Ok(dest + |out|, next)
              && dest + |out| <= |s|
              && buf[..] == Written(old(buf[..]), dest, out)
  {
    var code, src := ReadNumber(buf, pos, hex, s);
    NumberIsShort(s, pos, hex);
    ghost var before := buf[..];
    var ok, end := InsertCodedCharacter(buf, dest, code);
    if !ok {
      assert buf[..dest] == before[..dest];
      return Bad(INVALID, dest);
    }
    ghost var out := Encode(code).value;
    WrittenPrefix(before, dest, out, dest);
    assert buf[..dest] == buf[..][..dest] && before[..dest] == old(buf[..dest]);
    assert src >= dest + |out| ==> buf[src] == before[src];
    if buf[src] == ';' {
      r := Ok(end, src + 1);
    } else {
      r := Bad(SEMICOLON, src);
    }
  }

  /** The five named entities, lines 1595-1647. */
  method ReadEntity(buf: array<Ch>, src: nat, ghost s: Str) returns (r: Option<(Ch, nat)>)
    requires ZeroEnded(s) && src < |s| && Ahead(buf[..], s, src) && s[src] == '&'
    ensures r == EntityAt(s, src)
  {
    AheadAt(buf[..], s, src, src + 1);
    var same := Reads(buf, src + 1, "amp;", s);
    if same {
      return Some(('&', 5));
    }
    same := Reads(buf, src + 1, "apos;", s);
    if same {
      return Some(('\'', 6));
    }
    same := Reads(buf, src + 1, "quot;", s);
    if same {
      return Some(('"', 6));
    }
    same := Reads(buf, src + 1, "gt;", s);
    if same {
      return Some(('>', 4));
    }
    same := Reads(buf, src + 1, "lt;", s);
    r := if same then Some(('<', 4)) else None;
  }

  /** `*dest = c` */
  method Put(buf: array<Ch>, dest: nat, c: Ch)
    requires dest < buf.Length
    modifies buf
    ensures buf[..] == Written(old(buf[..]), dest, [c])
    ensures buf[..dest] == old(buf[..dest])
  {
    buf[dest] := c;
  }

  /** One round of the translation loop. */
  method Translate(buf: array<Ch>, src: nat, dest: nat, ghost s: Str) returns (r: Res<nat>)
    requires ZeroEnded(s) && dest <= src < |s| && Ahead(buf[..], s, src) && s[src] != NUL
    modifies buf
    ensures buf.Length == |s| && buf[..dest] == old(buf[..dest])
    ensures match StepAt(s, src, dest)
            case Bad(what, at) => r == Bad(what, at)
            case Ok(out, next) => r == Ok(dest + |out|, next) && buf[..] == Written(old(buf[..]), dest, out)
  {
    hide Written, EntityAt, NumericAt;
    AheadAt(buf[..], s, src, src);
    if buf[src] == '&' {
      var entity := ReadEntity(buf, src, s);
      if entity.Some? {
        Put(buf, dest, entity.value.0);
        return Ok(dest + 1, src + entity.value.1);
      }
      AheadAt(buf[..], s, src, src + 1);
      if buf[src + 1] == '#' {
        AheadAt(buf[..], s, src + 1, src + 2);
        if buf[src + 2] == 'x' {
          AheadAt(buf[..], s, src + 2, src + 3);
          r := TranslateNumber(buf, src + 3, true, dest, s);
        } else {
          r := TranslateNumber(buf, src + 2, false, dest, s);
        }
        return;
      }
    }
    Put(buf, dest, buf[src]);
    r := Ok(dest + 1, src + 1);
  }

  /** What one round of the translation leaves behind. */
  lemma StepTaken(before: Str, after: Str, s: Str, text: nat, src: nat, dest: nat, stop: Table)
    requires ZeroEnded(s) && text <= dest <= src < |s| && stop.Test(s[src]) && !stop.Test(NUL)
    requires Ahead(before, s, src) && StepAt(s, src, dest).Ok?
    requires after == Written(before, dest, StepAt(s, src, dest).value)
    requires Expand(s, text, text, stop) == Join(before[text..dest], Expand(s, src, dest, stop))
    ensures var step := StepAt(s, src, dest);
            && dest + |step.value| <= step.next < |after| == |s|
            && after[..text] == before[..text]
            && Ahead(after, s, step.next)
            && Expand(s, text, text, stop) ==
                 Join(after[text..dest + |step.value|], Expand(s, step.next, dest + |step.value|, stop))
  {
    hide Written, StepAt, Expand, Join;
    var step := StepAt(s, src, dest);
    ExpandStep(s, src, dest, stop);
    WrittenPrefix(before, dest, step.value, text);
    WrittenSpan(before, dest, step.value, text);
    JoinAssociates(before[text..dest], step.value, Expand(s, step.next, dest + |step.value|, stop));
    AheadAt(before, s, src, step.next);
    WrittenAhead(before, s, step.next, dest, step.value);
  }

  /** The plain skipping in front of the first '&'. */
  method SkipPlain(buf: array<Ch>, text: nat, stop: Table, ghost s: Str) returns (src: nat)
    requires ZeroEnded(s) && text < |s| && Ahead(buf[..], s, text)
    requires stop == Text || (stop.AttributeValue? && (stop.quote == '\'' || stop.quote == '"'))
    ensures text <= src < |s| == buf.Length && Ahead(buf[..], s, src) && buf[src] == s[src]
    ensures Expand(s, text, text, stop) == Join(buf[text..src], Expand(s, src, src, stop))
  {
    hide Expand, Skip, Join;
    src := SkipTable(buf, text, stop.Pure(), s);
    ExpandSkips(s, text, src, stop);
    assert buf[text..src] == s[text..src] by {
      assert buf[..][text..] == s[text..];
      assert buf[text..src] == buf[..][text..][..src - text];
      assert s[text..src] == s[text..][..src - text];
    }
  }

  /** The translation ends at src, or with an error there. */
  lemma JoinedEnd(s: Str, text: nat, src: nat, dest: nat, stop: Table, front: Str)
    requires ZeroEnded(s) && text < |s| && src < |s| && !stop.Test(NUL)
    requires Expand(s, text, text, stop) == Join(front, Expand(s, src, dest, stop))
    ensures !stop.Test(s[src]) ==> Expand(s, text, text, stop) == Ok(front, src)
    ensures stop.Test(s[src]) && StepAt(s, src, dest).Bad? ==>
              Expand(s, text, text, stop) == Bad(StepAt(s, src, dest).what, StepAt(s, src, dest).at)
  {
    hide Expand, StepAt;
    ExpandStep(s, src, dest, stop);
    assert front + [] == front;
  }

  lemma Shorter(a: Str, b: Str, text: nat, dest: nat)
    requires text <= dest <= |a| && dest <= |b| && a[..dest] == b[..dest]
    ensures a[..text] == b[..text]
  {
    assert a[..text] == a[..dest][..text] && b[..text] == b[..dest][..text];
  }

  /** `skip_and_expand_character_refs`: plain skipping until the first '&', then translation. */
  method SkipAndExpand(buf: array<Ch>, text: nat, stop: Table, ghost s: Str) returns (r: Res<nat>)
    requires ZeroEnded(s) && text < |s| && Ahead(buf[..], s, text)
    requires stop == Text || (stop.AttributeValue? && (stop.quote == '\'' || stop.quote == '"'))
    modifies buf
    ensures buf.Length == |s| && buf[..text] == old(buf[..text])
    ensures match Expand(s, text, text, stop)
            case Bad(what, at) => r == Bad(what, at)
            case Ok(value, next) =>
              && r == Ok(text + |value|, next)
              && text + |value| <= next
              && buf[text..text + |value|] == value
              && Ahead(buf[..], s, next)
  {
    hide Written, StepAt, Expand, Join, Ahead;
    var src := SkipPlain(buf, text, stop, s);
    var dest := src;
    while stop.Test(buf[src])
      invariant text <= dest <= src < |s| == buf.Length && Ahead(buf[..], s, src) && buf[src] == s[src]
      invariant buf[..text] == old(buf[..text])
      invariant Expand(s, text, text, stop) == Join(buf[text..dest], Expand(s, src, dest, stop))
      decreases |s| - src
    {
      ghost var before := buf[..];
      JoinedEnd(s, text, src, dest, stop, buf[text..dest]);
      var step := Translate(buf, src, dest, s);
      if step.Bad? {
        Shorter(before, buf[..], text, dest);
        return Bad(step.what, step.at);
      }
      StepTaken(before, buf[..], s, text, src, dest, stop);
      dest, src := step.value, step.next;
      AheadAt(buf[..], s, src, src);
    }
    JoinedEnd(s, text, src, dest, stop, buf[text..dest]);
    r := Ok(dest, src);
  }
}
