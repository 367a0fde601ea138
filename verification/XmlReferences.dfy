/** Character and entity references: `insert_coded_character` and the translation of
    `skip_and_expand_character_refs`, as functions of the untouched text. */
module XmlReferences {
  import opened XmlText
  import opened Powers
  import opened BitOps

  /** The result of parsing from some position: a value and the position after it, or the arguments
      of the parse error. */
  datatype Res<T> =
    | Ok(value: T, next: nat)
    | Bad(what: string, at: nat)

  datatype Option<T> = None | Some(value: T)

  // ----- UTF-8 -----------------------------------------------------------------------------------

  /** unsigned long has 64 bits. */
  const ULONG: nat := 0x1_0000_0000_0000_0000

  function Byte(n: nat): Ch
    requires n < 256
  {
    n as char
  }

  /** A continuation byte: `(code | 0x80) & 0xBF`. */
  function Tail(code: nat): Ch {
    Byte(0x80 + code % 64)
  }

  /** The bytes `insert_coded_character` writes. */
  function Encode(code: nat): (bytes: Option<Str>)
    ensures bytes.None? <==> code >= 0x110000
    ensures bytes.Some? ==> 1 <= |bytes.value| <= 4
    ensures code < 0x80 ==> bytes.Some? && |bytes.value| == 1
  {
    if code < 0x80 then Some([Byte(code)])
    else if code < 0x800 then Some([Byte(0xC0 + code / 64), Tail(code)])
    else if code < 0x10000 then Some([Byte(0xE0 + code / 4096), Tail(code / 64), Tail(code)])
    else if code < 0x110000 then
      Some([Byte(0xF0 + code / 262144), Tail(code / 4096), Tail(code / 64), Tail(code)])
    else None
  }

  function Bits(c: Ch, low: nat): nat
    requires low > 0
  {
    c as int % low
  }

  predicate IsTail(c: Ch) {
    0x80 <= c as int < 0xC0
  }

  /** The code that a complete sequence of bytes stands for, by the table of section 3 of RFC 3629;
      None if it is not one sequence of the right length, or not the shortest one. */
  function Decode(bytes: Str): Option<nat> {
    if |bytes| == 1 && bytes[0] as int < 0x80 then Some(bytes[0] as int)
    else if |bytes| == 2 && 0xC0 <= bytes[0] as int < 0xE0 && IsTail(bytes[1]) then
      var code := Bits(bytes[0], 32) * 64 + Bits(bytes[1], 64);
      if code >= 0x80 then Some(code) else None
    else if |bytes| == 3 && 0xE0 <= bytes[0] as int < 0xF0 && IsTail(bytes[1]) && IsTail(bytes[2]) then
      var code := Bits(bytes[0], 16) * 4096 + Bits(bytes[1], 64) * 64 + Bits(bytes[2], 64);
      if code >= 0x800 then Some(code) else None
    else if |bytes| == 4 && 0xF0 <= bytes[0] as int < 0xF8 && IsTail(bytes[1]) && IsTail(bytes[2]) && IsTail(bytes[3]) then
      var code := Bits(bytes[0], 8) * 262144 + Bits(bytes[1], 64) * 4096 + Bits(bytes[2], 64) * 64 + Bits(bytes[3], 64);
      if 0x10000 <= code < 0x110000 then Some(code) else None
    else None
  }

  /** The four groups of six bits. */
  lemma Digits64(code: nat)
    ensures code / 4096 == code / 64 / 64 && code / 262144 == code / 64 / 64 / 64
    ensures code == code / 64 * 64 + code % 64
    ensures code / 64 == code / 4096 * 64 + code / 64 % 64
    ensures code / 4096 == code / 262144 * 64 + code / 4096 % 64
  {
    assert code / 4096 == code / 64 / 64;
    assert code / 262144 == code / 4096 / 64;
  }

  lemma Join64(x: nat, y: nat)
    requires y < 64
    ensures (x * 64 + y) / 64 == x && (x * 64 + y) % 64 == y
  {
  }

  /** Every code the parser accepts is written as the one sequence that stands for it. */
  lemma EncodeDecodes(code: nat)
    requires code < 0x110000
    ensures Decode(Encode(code).value) == Some(code)
  {
    Digits64(code);
    var a, b, c := code / 64, code / 4096, code / 262144;
    if code >= 0x10000 {
      FourBytes(c, b % 64, a % 64, code % 64);
    } else if code >= 0x800 {
      ThreeBytes(b, a % 64, code % 64);
    } else if code >= 0x80 {
      TwoBytes(a, code % 64);
    }
  }

  /** What the bytes keep of a number. */
  lemma LeadBits(x: nat)
    ensures x < 32 ==> Bits(Byte(0xC0 + x), 32) == x
    ensures x < 16 ==> Bits(Byte(0xE0 + x), 16) == x
    ensures x < 8 ==> Bits(Byte(0xF0 + x), 8) == x
  {
  }

  lemma TailBits(x: nat)
    requires x < 64
    ensures Bits(Byte(0x80 + x), 64) == x && IsTail(Byte(0x80 + x))
  {
  }

  lemma TwoBytes(a: nat, z: nat)
    requires a < 32 && z < 64 && a * 64 + z >= 0x80
    ensures Decode([Byte(0xC0 + a), Byte(0x80 + z)]) == Some(a * 64 + z)
  {
    hide Bits;
    LeadBits(a);
    TailBits(z);
  }

  lemma ThreeBytes(b: nat, y: nat, z: nat)
    requires b < 16 && y < 64 && z < 64 && b * 4096 + y * 64 + z >= 0x800
    ensures Decode([Byte(0xE0 + b), Byte(0x80 + y), Byte(0x80 + z)]) == Some(b * 4096 + y * 64 + z)
  {
    hide Bits;
    LeadBits(b);
    TailBits(y);
    TailBits(z);
  }

  lemma FourBytes(c: nat, x: nat, y: nat, z: nat)
    requires c < 8 && x < 64 && y < 64 && z < 64
    requires 0x10000 <= c * 262144 + x * 4096 + y * 64 + z < 0x110000
    ensures Decode([Byte(0xF0 + c), Byte(0x80 + x), Byte(0x80 + y), Byte(0x80 + z)])
         == Some(c * 262144 + x * 4096 + y * 64 + z)
  {
    hide Bits;
    LeadBits(c);
    TailBits(x);
    TailBits(y);
    TailBits(z);
  }

  /** Conversely, whatever decodes was written by the encoder: the encoding is one-to-one. */
  lemma DecodeEncodes(bytes: Str)
    requires Decode(bytes).Some?
    ensures Decode(bytes).value < 0x110000
    ensures Encode(Decode(bytes).value) == Some(bytes)
  {
    if |bytes| == 1 {
      assert bytes == [Byte(bytes[0] as int)];
    } else if |bytes| == 2 {
      DecodeTwo(bytes);
    } else if |bytes| == 3 {
      DecodeThree(bytes);
    } else {
      DecodeFour(bytes);
    }
  }

  lemma DecodeTwo(bytes: Str)
    requires |bytes| == 2 && Decode(bytes).Some?
    ensures Encode(Decode(bytes).value) == Some(bytes)
  {
    var x, y := Bits(bytes[0], 32), Bits(bytes[1], 64);
    Join64(x, y);
    assert bytes == [Byte(0xC0 + x), Byte(0x80 + y)];
  }

  lemma DecodeThree(bytes: Str)
    requires |bytes| == 3 && Decode(bytes).Some?
    ensures Encode(Decode(bytes).value) == Some(bytes)
  {
    var x, y, z := Bits(bytes[0], 16), Bits(bytes[1], 64), Bits(bytes[2], 64);
    Join64(x, y);
    Join64(x * 64 + y, z);
    Digits64(x * 4096 + y * 64 + z);
    assert bytes == [Byte(0xE0 + x), Byte(0x80 + y), Byte(0x80 + z)];
  }

  lemma DecodeFour(bytes: Str)
    requires |bytes| == 4 && Decode(bytes).Some?
    ensures Encode(Decode(bytes).value) == Some(bytes)
  {
    hide Encode;
    var x, y, z, w := Bits(bytes[0], 8), Bits(bytes[1], 64), Bits(bytes[2], 64), Bits(bytes[3], 64);
    EncodeFour(x, y, z, w);
    assert bytes == [Byte(0xF0 + x), Byte(0x80 + y), Byte(0x80 + z), Byte(0x80 + w)];
  }

  lemma EncodeFour(x: nat, y: nat, z: nat, w: nat)
    requires x < 8 && y < 64 && z < 64 && w < 64
    requires 0x10000 <= x * 262144 + y * 4096 + z * 64 + w < 0x110000
    ensures Encode(x * 262144 + y * 4096 + z * 64 + w)
         == Some([Byte(0xF0 + x), Byte(0x80 + y), Byte(0x80 + z), Byte(0x80 + w)])
  {
    Join64(x, y);
    Join64(x * 64 + y, z);
    Join64(x * 4096 + y * 64 + z, w);
    Digits64(x * 262144 + y * 4096 + z * 64 + w);
  }

  // ----- The bit operations ---------------------------------------------------------------------------

  function UnsignedChar(n: nat): Ch {
    Byte(n % 256)
  }

  /** `static_cast<unsigned char>((code | 0x80) & 0xBF)` */
  function Following(code: nat): Ch {
    UnsignedChar(And(Or(code, 0x80), 0xBF))
  }

  /** `static_cast<unsigned char>(code | mark)` */
  function Leading(code: nat, mark: nat): Ch {
    UnsignedChar(Or(code, mark))
  }

  /** The lowest k bits stay, the next is cleared, the one after it is set, and the rest is cleared. */
  lemma {:induction false} MaskedBits(x: nat, k: nat)
    ensures And(Or(x, 2 * Pow2(k)), 3 * Pow2(k) - 1) == 2 * Pow2(k) + x % Pow2(k)
  {
    hide And, Or;
    if k == 0 {
      MaskedHigh(x);
    } else {
      MaskedBits(x / 2, k - 1);
      MaskedBit(x, Pow2(k - 1));
    }
  }

  lemma {:induction false} MaskedBit(x: nat, p: nat)
    requires p > 0 && And(Or(x / 2, 2 * p), 3 * p - 1) == 2 * p + x / 2 % p
    ensures And(Or(x, 2 * (2 * p)), 3 * (2 * p) - 1) == 2 * (2 * p) + x % (2 * p)
  {
    hide And, Or;
    var bits, mask := 2 * (2 * p), 3 * (2 * p) - 1;
    assert bits / 2 == 2 * p && mask / 2 == 3 * p - 1;
    assert mask % 2 == 1 && bits % 2 == 0;
    MaskedStep(x, bits, mask);
    HalfRemainder(x, p);
  }

  lemma {:induction false} MaskedHigh(x: nat)
    ensures And(Or(x, 0x2), 0x2) == 0x2
  {
    hide Or;
    MaskedStep(x, 0x2, 0x2);
    MaskedStep(x / 2, 0x1, 0x1);
    assert And(Or(x / 2 / 2, 0), 0) == 0;
  }

  /** The bit operations of the source give the bytes of the encoding: codes are shifted by six bits
      from one byte to the one before. */
  lemma {:induction false} BitFormulas(code: nat)
    ensures Following(code) == Tail(code)
    ensures code < 32 ==> Leading(code, 0xC0) == Byte(0xC0 + code)
    ensures code < 16 ==> Leading(code, 0xE0) == Byte(0xE0 + code)
    ensures code < 8 ==> Leading(code, 0xF0) == Byte(0xF0 + code)
  {
    hide And, Or;
    assert Pow2(3) == 8 && Pow2(4) == 16 && Pow2(5) == 32 && Pow2(6) == 64;
    MaskedBits(code, 6);
    if code < 32 {
      OrAdds(code, 0xC0, 5);
    }
    if code < 16 {
      OrAdds(code, 0xE0, 4);
    }
    if code < 8 {
      OrAdds(code, 0xF0, 3);
    }
  }

  // ----- Numeric references ------------------------------------------------------------------------

  /** The digits from pos on, read in base 16 or 10 with 64-bit wrap-around, and where they end.
      Decimal references accept the letters a-f too, as the source does. */
  function Number(s: Str, pos: nat, hex: bool, code: nat): (r: (nat, nat))
    requires ZeroEnded(s) && pos < |s| && code < ULONG
    ensures r.0 < ULONG && pos <= r.1 < |s|
    ensures Digit(s[r.1]) == 255 && forall k :: pos <= k < r.1 ==> Digit(s[k]) != 255
    ensures r.1 == pos ==> r.0 == code
    decreases |s| - pos
  {
    if Digit(s[pos]) == 255 then (code, pos)
    else Number(s, pos + 1, hex, ((if hex then code * 16 else code * 10) + Digit(s[pos])) % ULONG)
  }

  /** One digit gives a code of one byte, so k digits never need more than k + 2 bytes. */
  lemma NumberIsShort(s: Str, pos: nat, hex: bool)
    requires ZeroEnded(s) && pos < |s|
    ensures var r := Number(s, pos, hex, 0);
            Encode(r.0).Some? ==> |Encode(r.0).value| <= r.1 - pos + 2
  {
    var r := Number(s, pos, hex, 0);
    if r.1 == pos {
      assert r.0 == 0;
    } else if r.1 == pos + 1 {
      assert Digit(s[pos + 1]) == 255;
      assert r == (Digit(s[pos]), pos + 1);
    }
  }

  // ----- One step of the translation -----------------------------------------------------------------

  const SEMICOLON: string := "expected ;"
  const INVALID: string := "invalid numeric character entity"

  /** Whether w stands in s at pos, read character by character up to the first difference. */
  predicate Matches(s: Str, pos: nat, w: Str): (r: bool)
    requires ZeroEnded(s) && |w| > 0 && w[|w| - 1] == ';'
    ensures r ==> pos + |w| < |s|
  {
    if At(s, pos, w) then
      AtIndex(s, pos, w, |w| - 1);
      true
    else false
  }

  /** A numeric reference whose digits start at pos. */
  function NumericAt(s: Str, pos: nat, hex: bool, dest: nat): (r: Res<Str>)
    requires ZeroEnded(s) && pos < |s|
    ensures r.Ok? ==> pos < r.next < |s| && 1 <= |r.value| <= r.next - pos + 1
  {
    NumberIsShort(s, pos, hex);
    var r := Number(s, pos, hex, 0);
    var bytes := Encode(r.0);
    if bytes.None? then Bad(INVALID, dest)
    else if s[r.1] == ';' then Ok(bytes.value, r.1 + 1)
    else Bad(SEMICOLON, r.1)
  }

  /** The character and the length of the entity reference at src, if one of the five stands there. */
  function EntityAt(s: Str, src: nat): (r: Option<(Ch, nat)>)
    requires ZeroEnded(s) && src < |s| && s[src] == '&'
    ensures r.Some? ==> 4 <= r.value.1 <= 6 && src + r.value.1 < |s|
  {
    if Matches(s, src + 1, "amp;") then Some(('&', 5))
    else if Matches(s, src + 1, "apos;") then Some(('\'', 6))
    else if Matches(s, src + 1, "quot;") then Some(('"', 6))
    else if Matches(s, src + 1, "gt;") then Some(('>', 4))
    else if Matches(s, src + 1, "lt;") then Some(('<', 4))
    else None
  }

  /** One round of the translation loop at src, writing to dest: the characters put out and the
      position after the characters consumed. No step puts out more than it consumes. */
  function StepAt(s: Str, src: nat, dest: nat): (r: Res<Str>)
    requires ZeroEnded(s) && src < |s| && s[src] != NUL
    ensures r.Ok? ==> src < r.next < |s| && 1 <= |r.value| <= r.next - src
    ensures s[src] != '&' ==> r == Ok([s[src]], src + 1)
  {
    if s[src] != '&' then Ok([s[src]], src + 1)
    else
      var entity := EntityAt(s, src);
      if entity.Some? then Ok([entity.value.0], src + entity.value.1)
      else if s[src + 1] != '#' then Ok(['&'], src + 1)
      else if s[src + 2] == 'x' then NumericAt(s, src + 3, true, dest)
      else NumericAt(s, src + 2, false, dest)
  }

  /** What was parsed before, followed by what r parses. */
  function Join<T>(front: seq<T>, r: Res<seq<T>>): Res<seq<T>> {
    match r
    case Ok(rest, next) => Ok(front + rest, next)
    case Bad(what, at) => r
  }

  /** The text from src up to the first character outside `stop`, with references translated.
      Position dest is where the output would be written, and where an invalid code is reported. */
  function Expand(s: Str, src: nat, dest: nat, stop: Table): (r: Res<Str>)
    requires ZeroEnded(s) && src < |s| && !stop.Test(NUL)
    ensures r.Ok? ==> src <= r.next < |s| && !stop.Test(s[r.next]) && |r.value| <= r.next - src
    ensures r.Ok? ==> (stop.Test(s[src]) ==> src < r.next && r.value != [])
    decreases |s| - src
  {
    if !stop.Test(s[src]) then Ok([], src)
    else
      match StepAt(s, src, dest)
      case Bad(what, at) => Bad(what, at)
      case Ok(out, next) => Join(out, Expand(s, next, dest + |out|, stop))
  }

  lemma JoinNothing<T>(r: Res<seq<T>>)
    ensures Join([], r) == r
  {
    if r.Ok? {
      assert [] + r.value == r.value;
    }
  }

  lemma JoinAssociates<T>(a: seq<T>, b: seq<T>, r: Res<seq<T>>)
    ensures Join(a + b, r) == Join(a, Join(b, r))
  {
    if r.Ok? {
      assert (a + b) + r.value == a + (b + r.value);
    }
  }

  lemma ExpandStep(s: Str, src: nat, dest: nat, stop: Table)
    requires ZeroEnded(s) && src < |s| && !stop.Test(NUL)
    ensures !stop.Test(s[src]) ==> Expand(s, src, dest, stop) == Ok([], src)
    ensures stop.Test(s[src]) && StepAt(s, src, dest).Ok? ==>
              var step := StepAt(s, src, dest);
              Expand(s, src, dest, stop) == Join(step.value, Expand(s, step.next, dest + |step.value|, stop))
    ensures stop.Test(s[src]) && StepAt(s, src, dest).Bad? ==>
              Expand(s, src, dest, stop) == Bad(StepAt(s, src, dest).what, StepAt(s, src, dest).at)
  {
  }

  /** Characters that need no translation may be skipped over first. */
  lemma {:induction false} ExpandSkips(s: Str, pos: nat, end: nat, stop: Table)
    requires ZeroEnded(s) && pos <= end < |s| && !stop.Test(NUL)
    requires forall k :: pos <= k < end ==> stop.Test(s[k]) && s[k] != '&'
    ensures Expand(s, pos, pos, stop) == Join(s[pos..end], Expand(s, end, end, stop))
    decreases end - pos
  {
    hide Expand, Join;
    if pos == end {
      JoinNothing(Expand(s, end, end, stop));
    } else {
      ExpandSkips(s, pos + 1, end, stop);
      ExpandStep(s, pos, pos, stop);
      JoinAssociates([s[pos]], s[pos + 1..end], Expand(s, end, end, stop));
      assert s[pos..end] == [s[pos]] + s[pos + 1..end];
    }
  }
}
