/** What a numeric character reference means: the number that its digits denote, and the bytes that stand
    for it. */
module XmlNumerals {
  import opened XmlText
  import opened XmlReferences

  const LOWER: string := "0123456789abcdef"
  const UPPER: string := "0123456789ABCDEF"

  /** c is the digit d, in either case. */
  predicate IsDigit(c: Ch, d: nat) {
    d < 16 && (c == LOWER[d] || c == UPPER[d])
  }

  /** w is a numeral of n to the base, with or without leading zeros. */
  predicate Denotes(w: Str, base: nat, n: nat)
    requires base > 0
  {
    && w != []
    && IsDigit(w[|w| - 1], n % base)
    && if |w| == 1 then n < base else Denotes(w[..|w| - 1], base, n / base)
  }

  /** The numeral without leading zeros. */
  function Numeral(n: nat, base: nat): (w: Str)
    requires 2 <= base <= 16
    ensures w != []
  {
    var c: Ch := LOWER[n % base];
    if n < base then [c] else Numeral(n / base, base) + [c]
  }

  /** Every number has a numeral. */
  lemma {:induction false} NumeralDenotes(n: nat, base: nat)
    requires 2 <= base <= 16
    ensures Denotes(Numeral(n, base), base, n)
    decreases n
  {
    if n >= base {
      NumeralDenotes(n / base, base);
      var w := Numeral(n, base);
      assert w[..|w| - 1] == Numeral(n / base, base);
    }
  }

  lemma Small(n: nat, base: nat)
    requires n < base
    ensures n / base == 0 && n % base == n
  {
  }

  // ----- Reading it --------------------------------------------------------------------------------------------

  function BaseOf(hex: bool): nat {
    if hex then 16 else 10
  }

  /** One more digit, with wrap-around. */
  lemma Wraps(m: nat, base: nat, d: nat)
    ensures (m % ULONG * base + d) % ULONG == (m * base + d) % ULONG
  {
    var q, r := m / ULONG, m % ULONG;
    assert m * base + d == q * base * ULONG + (r * base + d) by {
      assert (q * ULONG + r) * base == q * base * ULONG + r * base;
    }
    AddMultiple(r * base + d, q * base);
  }

  lemma {:induction false} AddMultiple(x: nat, k: nat)
    ensures (k * ULONG + x) % ULONG == x % ULONG
    decreases k
  {
    if k > 0 {
      AddMultiple(x, k - 1);
      assert k * ULONG + x == (k - 1) * ULONG + x + ULONG;
    }
  }

  predicate AnyDigit(c: Ch) {
    c in LOWER || c in UPPER
  }

  predicate Digits(w: Str) {
    forall k :: 0 <= k < |w| ==> AnyDigit(w[k])
  }

  ghost function DigitValue(c: Ch): nat {
    if exists d: nat :: IsDigit(c, d) then
      var d: nat :| IsDigit(c, d);
      d
    else 0
  }

  /** The value of any digits, which need not be below the base. */
  ghost function Value(w: Str, base: nat): nat {
    if w == [] then 0 else Value(w[..|w| - 1], base) * base + DigitValue(w[|w| - 1])
  }

  lemma DigitValueIs(c: Ch)
    ensures AnyDigit(c) <==> Digit(c) != 255
    ensures AnyDigit(c) ==> Digit(c) == DigitValue(c)
  {
    if AnyDigit(c) {
      var d: nat :| d < 16 && (LOWER[d] == c || UPPER[d] == c);
      assert IsDigit(c, d);
      DigitOf(c, d);
      DigitOf(c, DigitValue(c));
    }
    DigitIsListed(c);
  }

  lemma DigitIsListed(c: Ch)
    ensures Digit(c) != 255 ==> AnyDigit(c)
  {
    if Digit(c) != 255 {
      assert LOWER[Digit(c)] == c || UPPER[Digit(c)] == c;
    }
  }

  /** The value of a numeral is the number it denotes. */
  lemma {:induction false} DenotesValue(w: Str, hex: bool, n: nat)
    requires Denotes(w, BaseOf(hex), n)
    ensures Digits(w) && Value(w, BaseOf(hex)) == n
    decreases |w|
  {
    hide IsDigit, DigitValue, AnyDigit;
    var last := |w| - 1;
    DigitOf(w[last], n % BaseOf(hex));
    DigitValueIs(w[last]);
    if |w| > 1 {
      DenotesValue(w[..last], hex, n / BaseOf(hex));
      assert forall k :: 0 <= k < last ==> w[k] == w[..last][k];
    } else {
      Small(n, BaseOf(hex));
      assert Value(w[..last], BaseOf(hex)) == 0;
    }
    Parts(n, hex);
  }

  lemma Parts(n: nat, hex: bool)
    ensures n == n / BaseOf(hex) * BaseOf(hex) + n % BaseOf(hex)
  {
  }

  /** The digits read so far have the code as their value, modulo 2^64. */
  lemma {:induction false} NumberReads(s: Str, pos: nat, hex: bool, w: Str)
    requires ZeroEnded(s) && At(s, pos, w) && pos + |w| < |s| && Digits(w)
    ensures Number(s, pos, hex, 0) == Number(s, pos + |w|, hex, Value(w, BaseOf(hex)) % ULONG)
    decreases |w|
  {
    hide Number, At, IsDigit, Digit, DigitValue, AnyDigit;
    if w != [] {
      var base, last := BaseOf(hex), |w| - 1;
      AtIndex(s, pos, w, last);
      assert w == w[..last] + [w[last]];
      AtSplit(s, pos, w[..last], [w[last]]);
      NumberReads(s, pos, hex, w[..last]);
      NumberUnfolds(s, pos + last, hex, Value(w[..last], base) % ULONG);
      DigitValueIs(w[last]);
      Wraps(Value(w[..last], base), base, DigitValue(w[last]));
    }
  }

  lemma NumberUnfolds(s: Str, pos: nat, hex: bool, code: nat)
    requires ZeroEnded(s) && pos < |s| && code < ULONG
    ensures Digit(s[pos]) == 255 ==> Number(s, pos, hex, code) == (code, pos)
    ensures Digit(s[pos]) != 255 ==>
              Number(s, pos, hex, code) == Number(s, pos + 1, hex, (code * BaseOf(hex) + Digit(s[pos])) % ULONG)
  {
  }

  lemma DigitOf(c: Ch, d: nat)
    requires IsDigit(c, d)
    ensures Digit(c) == d && c != ';' && c != 'x' && c != '#' && c != '&' && c != '<' && c != NUL && c != '"' && c != '\''
  {
  }

  /** Digits in front of a semicolon are read as their value, with 64-bit wrap-around. */
  lemma {:induction false} NumberIsValue(s: Str, pos: nat, hex: bool, w: Str)
    requires ZeroEnded(s) && At(s, pos, w) && pos + |w| < |s| && s[pos + |w|] == ';' && Digits(w)
    ensures Number(s, pos, hex, 0) == (Value(w, BaseOf(hex)) % ULONG, pos + |w|)
  {
    hide Value;
    NumberReads(s, pos, hex, w);
    NumberUnfolds(s, pos + |w|, hex, Value(w, BaseOf(hex)) % ULONG);
  }

  /** So a numeral is read as the number it denotes. */
  lemma {:induction false} NumberMeans(s: Str, pos: nat, hex: bool, w: Str, n: nat)
    requires ZeroEnded(s) && At(s, pos, w) && pos + |w| < |s| && s[pos + |w|] == ';' && Denotes(w, BaseOf(hex), n)
    ensures Number(s, pos, hex, 0) == (n % ULONG, pos + |w|)
  {
    DenotesValue(w, hex, n);
    NumberIsValue(s, pos, hex, w);
  }

  // ----- References -------------------------------------------------------------------------------------------

  /** "&#65;" or "&#x41;" */
  function Reference(w: Str, hex: bool): Str {
    (if hex then "&#x" else "&#") + (w + ";")
  }

  lemma {:induction false} NoEntity(s: Str, pos: nat)
    requires ZeroEnded(s) && pos + 1 < |s| && s[pos] == '&' && s[pos + 1] == '#'
    ensures EntityAt(s, pos) == None
  {
    AtAll(s, pos + 1, "amp;");
    AtAll(s, pos + 1, "apos;");
    AtAll(s, pos + 1, "quot;");
    AtAll(s, pos + 1, "gt;");
    AtAll(s, pos + 1, "lt;");
  }

  /** The code that a reference gives. */
  ghost function CodeOf(w: Str, hex: bool): nat {
    Value(w, BaseOf(hex)) % ULONG
  }

  lemma {:induction false} NumericMeans(s: Str, pos: nat, dest: nat, w: Str, hex: bool)
    requires ZeroEnded(s) && At(s, pos, w + ";") && Digits(w)
    ensures var bytes := Encode(CodeOf(w, hex));
            && pos + |w| + 1 < |s| && s[pos] != 'x'
            && NumericAt(s, pos, hex, dest) ==
               if bytes.Some? then Ok(bytes.value, pos + |w| + 1) else Bad(INVALID, dest)
  {
    hide At, Number, Encode, Value;
    AtSplit(s, pos, w, ";");
    AtIndex(s, pos + |w|, ";", 0);
    if w != [] {
      AtIndex(s, pos, w, 0);
      assert AnyDigit(w[0]);
    }
    NumberIsValue(s, pos, hex, w);
  }

  lemma {:induction false} StepIsNumeric(s: Str, pos: nat, dest: nat, hex: bool)
    requires ZeroEnded(s) && pos + 2 < |s| && s[pos] == '&' && s[pos + 1] == '#' && EntityAt(s, pos) == None
    requires (hex <==> s[pos + 2] == 'x') && (hex ==> pos + 3 < |s|)
    ensures StepAt(s, pos, dest) == NumericAt(s, if hex then pos + 3 else pos + 2, hex, dest)
  {
    hide EntityAt, NumericAt;
  }

  /** A numeric reference is one step of the translation: it puts out the bytes of the code, or is an
      error if there are none. */
  lemma {:induction false} ReferenceStep(s: Str, pos: nat, dest: nat, w: Str, hex: bool)
    requires ZeroEnded(s) && At(s, pos, Reference(w, hex)) && Digits(w)
    ensures pos + |Reference(w, hex)| < |s| && s[pos] == '&'
    ensures var bytes := Encode(CodeOf(w, hex));
            StepAt(s, pos, dest) == if bytes.Some? then Ok(bytes.value, pos + |Reference(w, hex)|) else Bad(INVALID, dest)
  {
    hide At, EntityAt, Encode, StepAt, NumericAt, Digits, Value;
    var start := if hex then "&#x" else "&#";
    AtSplit(s, pos, start, w + ";");
    AtIndex(s, pos, start, 0);
    AtIndex(s, pos, start, 1);
    NoEntity(s, pos);
    NumericMeans(s, pos + |start|, dest, w, hex);
    if hex {
      AtIndex(s, pos, start, 2);
    }
    StepIsNumeric(s, pos, dest, hex);
  }

  /** In data and in attribute values, a numeric reference of a code below 0x110000 is translated to the
      one sequence of bytes that decodes to it. */
  lemma {:induction false} ReferenceExpands(s: Str, pos: nat, dest: nat, stop: Table, w: Str, hex: bool, n: nat)
      returns (bytes: Str)
    requires ZeroEnded(s) && pos < |s| && At(s, pos, Reference(w, hex)) && Denotes(w, BaseOf(hex), n) && n < 0x110000
    requires stop == Text || stop == AttributeValue('\'') || stop == AttributeValue('"')
    ensures Decode(bytes) == Some(n)
    ensures var next := pos + |Reference(w, hex)|;
            && next < |s|
            && Expand(s, pos, dest, stop) == Join(bytes, Expand(s, next, dest + |bytes|, stop))
  {
    hide At, Expand, StepAt, Encode, Decode, Denotes, Reference, Value, Digits;
    DenotesValue(w, hex, n);
    EncodeDecodes(n);
    EncodesAll(n);
    bytes := Encode(n).value;
    ReferenceStep(s, pos, dest, w, hex);
    ExpandStep(s, pos, dest, stop);
  }

  lemma EncodesAll(n: nat)
    requires n < 0x110000
    ensures Encode(n).Some? && n % ULONG == n
  {
  }
}
