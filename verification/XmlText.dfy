/** Characters of the parser's text and its lookup tables. */
module XmlText {

  /** A char of the source: one byte. */
  type Ch = c: char | c as int < 256 witness 'a'

  type Str = seq<Ch>

  const NUL: Ch := 0 as char

  /** The lookup tables that the parser skips by. */
  datatype Table =
    | Whitespace
    | NodeName
    | AttributeName
    | Text                         // lookup_text
    | TextPure                     // lookup_text_pure_no_ws
    | AttributeValue(quote: Ch)    // lookup_attribute_data_1 and _2
    | AttributeValuePure(quote: Ch)
  {
    predicate Test(c: Ch) {
      match this
      case Whitespace => c == ' ' || c == '\t' || c == '\n' || c == '\r'
      case NodeName =>
        c != NUL && c != ' ' && c != '\t' && c != '\n' && c != '\r' && c != '/' && c != '>' && c != '?'
      case AttributeName =>
        && c != NUL && c != ' ' && c != '\t' && c != '\n' && c != '\r' && c != '/' && c != '<' && c != '>'
        && c != '=' && c != '?' && c != '!'
      case Text => c != NUL && c != '<'
      case TextPure => c != NUL && c != '<' && c != '&'
      case AttributeValue(quote) => c != NUL && c != quote
      case AttributeValuePure(quote) => c != NUL && c != quote && c != '&'
    }

    /** The table of characters that need no translation, within this table. */
    function Pure(): Table {
      match this
      case Text => TextPure
      case AttributeValue(quote) => AttributeValuePure(quote)
      case _ => this
    }
  }

  /** lookup_digits: the value of a decimal or hexadecimal digit, or 255. */
  function Digit(c: Ch): (d: int)
    ensures 0 <= d < 16 || d == 255
    ensures d == 255 <== c == NUL || c == ';'
  {
    if '0' <= c <= '9' then c as int - '0' as int
    else if 'A' <= c <= 'F' then c as int - 'A' as int + 10
    else if 'a' <= c <= 'f' then c as int - 'a' as int + 10
    else 255
  }

  /** Text handed to the parser ends with a zero, and may hold others before it. */
  predicate ZeroEnded(s: Str) {
    |s| > 0 && s[|s| - 1] == NUL
  }

  /** Where `skip` stops: the first position from pos on that fails the test. */
  function Skip(s: Str, pos: nat, table: Table): (end: nat)
    requires ZeroEnded(s) && pos < |s|
    ensures pos <= end < |s| && !table.Test(s[end])
    ensures forall k :: pos <= k < end ==> table.Test(s[k])
    decreases |s| - pos
  {
    if table.Test(s[pos]) then Skip(s, pos + 1, table) else pos
  }

  /** The stopping place is determined by what lies before it. */
  lemma SkipIs(s: Str, pos: nat, table: Table, end: nat)
    requires ZeroEnded(s) && pos <= end < |s| && !table.Test(s[end])
    requires forall k :: pos <= k < end ==> table.Test(s[k])
    ensures Skip(s, pos, table) == end
  {
  }

  /** w stands in s at pos. */
  predicate At(s: Str, pos: nat, w: Str) {
    pos + |w| <= |s| && s[pos..pos + |w|] == w
  }

  lemma AtSplit(s: Str, pos: nat, v: Str, w: Str)
    requires At(s, pos, v + w)
    ensures pos + |v| + |w| <= |s| && At(s, pos, v) && At(s, pos + |v|, w)
  {
    assert s[pos..pos + |v|] == s[pos..pos + |v + w|][..|v|];
    assert s[pos + |v|..pos + |v| + |w|] == s[pos..pos + |v + w|][|v|..];
  }

  lemma AtIndex(s: Str, pos: nat, w: Str, k: nat)
    requires At(s, pos, w) && k < |w|
    ensures pos + k < |s| && s[pos + k] == w[k]
  {
    assert s[pos..pos + |w|][k] == w[k];
  }

  lemma AtAll(s: Str, pos: nat, w: Str)
    ensures At(s, pos, w) ==> pos + |w| <= |s| && forall k :: 0 <= k < |w| ==> s[pos + k] == w[k]
  {
    if At(s, pos, w) {
      forall k | 0 <= k < |w| ensures s[pos + k] == w[k] {
        AtIndex(s, pos, w, k);
      }
    }
  }

  lemma {:induction false} Regroup(a: Str, b: Str, c: Str)
    ensures (a + b) + c == a + (b + c)
  {
  }
}
