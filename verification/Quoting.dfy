/** Double-quoted values of a runtime file: strconv.Quote and strconv.Unquote, and the search for the
    closing quote in between (internal/config/runtime_env.go). Which characters beyond ASCII count as
    printable is a parameter. */
module Quoting {
  import opened Wrappers
  import opened Bytes
  import opened Utf8

  const QUOTE: Byte := 0x22
  const BACKSLASH: Byte := 0x5C
  const NEWLINE: Byte := 0x0A

  // ---------- hexadecimal ----------

  predicate IsHex(b: Byte) {
    0x30 <= b <= 0x39 || 0x61 <= b <= 0x66 || 0x41 <= b <= 0x46
  }

  function HexDigit(v: nat): (b: Byte)
    requires v < 16
    ensures IsHex(b)
  {
    if v < 10 then (0x30 + v) as Byte else (0x61 + v - 10) as Byte
  }

  function HexDigitValue(b: Byte): (v: nat)
    requires IsHex(b)
    ensures v < 16
  {
    if b <= 0x39 then b as int - 0x30 else if b >= 0x61 then b as int - 0x61 + 10 else b as int - 0x41 + 10
  }

  function Hex(v: nat, digits: nat): (s: Bytes)
    ensures |s| == digits && forall i :: 0 <= i < digits ==> IsHex(s[i])
  {
    if digits == 0 then [] else Hex(v / 16, digits - 1) + [HexDigit(v % 16)]
  }

  function HexValue(s: Bytes): (v: Option<nat>)
    ensures v.Some? <==> forall i :: 0 <= i < |s| ==> IsHex(s[i])
  {
    if s == [] then Some(0)
    else if !IsHex(s[|s| - 1]) then None
    else
      match HexValue(s[..|s| - 1])
      case None => None
      case Some(v) => Some(16 * v + HexDigitValue(s[|s| - 1]))
  }

  function Power16(digits: nat): nat {
    if digits == 0 then 1 else 16 * Power16(digits - 1)
  }

  lemma {:induction false} HexValueOfHex(v: nat, digits: nat)
    requires v < Power16(digits)
    ensures HexValue(Hex(v, digits)) == Some(v)
  {
    if digits > 0 {
      HexValueOfHex(v / 16, digits - 1);
      var s := Hex(v, digits);
      assert s[..digits - 1] == Hex(v / 16, digits - 1);
    }
  }

  // ---------- code points ----------

  predicate ValidRune(v: nat) {
    v < 0xD800 || 0xE000 <= v <= 0x10FFFF
  }

  function Encode(v: nat): Bytes
    requires ValidRune(v)
  {
    if v < 0x80 then [v as Byte]
    else if v < 0x800 then [(0xC0 + v / 64) as Byte, (0x80 + v % 64) as Byte]
    else if v < 0x10000 then
      [(0xE0 + v / 4096) as Byte, (0x80 + v / 64 % 64) as Byte, (0x80 + v % 64) as Byte]
    else
      [(0xF0 + v / 262144) as Byte, (0x80 + v / 4096 % 64) as Byte, (0x80 + v / 64 % 64) as Byte, (0x80 + v % 64) as Byte]
  }

  /** One well-formed character. */
  predicate Character(c: Bytes) {
    0 < |c| == WellFormedLength(c)
  }

  function CodePoint(c: Bytes): (v: nat)
    requires Character(c)
    ensures ValidRune(v)
  {
    if |c| == 1 then c[0] as int
    else if |c| == 2 then (c[0] as int - 0xC0) * 64 + (c[1] as int - 0x80)
    else if |c| == 3 then (c[0] as int - 0xE0) * 4096 + (c[1] as int - 0x80) * 64 + (c[2] as int - 0x80)
    else (c[0] as int - 0xF0) * 262144 + (c[1] as int - 0x80) * 4096 + (c[2] as int - 0x80) * 64 + (c[3] as int - 0x80)
  }

  lemma TwoPieces(a: nat, d: nat)
    requires d < 64
    ensures var v := a * 64 + d; v / 64 == a && v % 64 == d
  {
  }

  lemma ThreePieces(a: nat, b: nat, d: nat)
    requires b < 64 && d < 64
    ensures var v := a * 4096 + b * 64 + d; v / 4096 == a && v / 64 % 64 == b && v % 64 == d
  {
    TwoPieces(a * 64 + b, d);
    TwoPieces(a, b);
  }

  lemma FourPieces(a: nat, b: nat, d: nat, e: nat)
    requires b < 64 && d < 64 && e < 64
    ensures var v := a * 262144 + b * 4096 + d * 64 + e;
            v / 262144 == a && v / 4096 % 64 == b && v / 64 % 64 == d && v % 64 == e
  {
    ThreePieces(a * 64 + b, d, e);
    TwoPieces(a, b);
  }

  lemma EncodeOfCodePoint(c: Bytes)
    requires Character(c)
    ensures Encode(CodePoint(c)) == c
  {
    if |c| == 2 {
      TwoPieces(c[0] as int - 0xC0, c[1] as int - 0x80);
    } else if |c| == 3 {
      ThreePieces(c[0] as int - 0xE0, c[1] as int - 0x80, c[2] as int - 0x80);
    } else if |c| == 4 {
      FourPieces(c[0] as int - 0xF0, c[1] as int - 0x80, c[2] as int - 0x80, c[3] as int - 0x80);
    }
  }

  /** Every valid code point is encoded as one well-formed character that stands for it. */
  lemma CodePointOfEncode(v: nat)
    requires ValidRune(v)
    ensures Character(Encode(v)) && CodePoint(Encode(v)) == v
  {
    if 0x80 <= v < 0x800 {
      Recompose(v);
    } else if 0x800 <= v < 0x10000 {
      Recompose(v);
      EncodedInThree(v);
    } else if 0x10000 <= v {
      Recompose(v);
      EncodedInFour(v);
    }
  }

  lemma Recompose(v: nat)
    ensures v == v / 64 * 64 + v % 64
    ensures v == v / 4096 * 4096 + v / 64 % 64 * 64 + v % 64
    ensures v == v / 262144 * 262144 + v / 4096 % 64 * 4096 + v / 64 % 64 * 64 + v % 64
  {
    var a := v / 64;
    assert v / 4096 == a / 64 && v / 262144 == a / 64 / 64;
  }

  lemma EncodedInThree(v: nat)
    requires ValidRune(v) && 0x800 <= v < 0x10000
    ensures Character(Encode(v)) && |Encode(v)| == 3
  {
    var a, b := v / 4096, v / 64 % 64;
    assert a == 0 ==> b >= 32;
    assert a == 13 ==> b < 32;
  }

  lemma EncodedInFour(v: nat)
    requires ValidRune(v) && 0x10000 <= v
    ensures Character(Encode(v)) && |Encode(v)| == 4
  {
    var a, b := v / 262144, v / 4096 % 64;
    assert a == 0 ==> b >= 16;
    assert a == 4 ==> b < 16;
  }

  // ---------- quoting ----------

  /** A character other than ASCII is printable if the parameter says so. */
  predicate Printable(printable: nat -> bool, c: Bytes)
    requires Character(c)
  {
    if c[0] < 0x80 then 0x20 <= c[0] < 0x7F else printable(CodePoint(c))
  }

  /** The letter that stands for a control character after a backslash. */
  function ControlLetter(b: Byte): Option<Byte> {
    if b == 0x07 then Some(0x61) else if b == 0x08 then Some(0x62) else if b == 0x0C then Some(0x66)
    else if b == 0x0A then Some(0x6E) else if b == 0x0D then Some(0x72) else if b == 0x09 then Some(0x74)
    else if b == 0x0B then Some(0x76) else None
  }

  /** One character of the text, or one byte that is not part of any. */
  predicate Unit(c: Bytes) {
    Character(c) || (|c| == 1 && WellFormedLength(c) == 0)
  }

  function QuoteUnit(printable: nat -> bool, c: Bytes): (q: Bytes)
    requires Unit(c)
  {
    if WellFormedLength(c) == 0 then [BACKSLASH, 0x78] + Hex(c[0] as int, 2)
    else if c == [QUOTE] || c == [BACKSLASH] then [BACKSLASH] + c
    else if Printable(printable, c) then c
    else if |c| == 1 && ControlLetter(c[0]).Some? then [BACKSLASH, ControlLetter(c[0]).value]
    else if |c| == 1 then [BACKSLASH, 0x78] + Hex(c[0] as int, 2)
    else if CodePoint(c) < 0x10000 then [BACKSLASH, 0x75] + Hex(CodePoint(c), 4)
    else [BACKSLASH, 0x55] + Hex(CodePoint(c), 8)
  }

  lemma FrontIsUnit(s: Bytes)
    requires s != []
    ensures Unit(s[..DecodeWidth(s)])
  {
    if WellFormedLength(s) != 0 {
      LengthOfPrefix(s, WellFormedLength(s));
    }
  }

  function QuoteBody(printable: nat -> bool, s: Bytes): Bytes {
    if s == [] then []
    else
      FrontIsUnit(s);
      QuoteUnit(printable, s[..DecodeWidth(s)]) + QuoteBody(printable, s[DecodeWidth(s)..])
  }

  function Quote(printable: nat -> bool, s: Bytes): Bytes {
    [QUOTE] + QuoteBody(printable, s) + [QUOTE]
  }

  /** Quoting never makes a text shorter. */
  lemma {:induction false} QuoteGrows(printable: nat -> bool, s: Bytes)
    ensures |QuoteBody(printable, s)| >= |s|
  {
    hide WellFormedLength;
    hide CodePoint;
    if s != [] {
      FrontIsUnit(s);
      assert |QuoteUnit(printable, s[..DecodeWidth(s)])| >= DecodeWidth(s);
      QuoteGrows(printable, s[DecodeWidth(s)..]);
    }
  }

  // ---------- unquoting ----------

  /** What strconv.UnquoteChar reads from the front of a double-quoted text: the bytes it stands for and
      how many it takes. */
  datatype Unquoted = Char(bytes: Bytes, width: nat) | BadSyntax

  function UnquoteNumber(s: Bytes, digits: nat, isByte: bool): Unquoted
    requires 2 <= |s|
  {
    if |s| < 2 + digits then BadSyntax
    else
      match HexValue(s[2..2 + digits])
      case None => BadSyntax
      case Some(v) =>
        if isByte then (if v < 256 then Char([v as Byte], 2 + digits) else BadSyntax)
        else if ValidRune(v) then Char(Encode(v), 2 + digits)
        else BadSyntax
  }

  predicate IsOctal(b: Byte) {
    0x30 <= b <= 0x37
  }

  function UnquoteOctal(s: Bytes): Unquoted {
    if |s| < 4 || !IsOctal(s[1]) || !IsOctal(s[2]) || !IsOctal(s[3]) then BadSyntax
    else
      var v := (s[1] as int - 0x30) * 64 + (s[2] as int - 0x30) * 8 + (s[3] as int - 0x30);
      if v < 256 then Char([v as Byte], 4) else BadSyntax
  }

  /** The control character a letter stands for after a backslash. */
  function LetterControl(b: Byte): Option<Byte> {
    if b == 0x61 then Some(0x07) else if b == 0x62 then Some(0x08) else if b == 0x66 then Some(0x0C)
    else if b == 0x6E then Some(0x0A) else if b == 0x72 then Some(0x0D) else if b == 0x74 then Some(0x09)
    else if b == 0x76 then Some(0x0B) else None
  }

  function UnquoteChar(s: Bytes): (u: Unquoted)
    requires s != []
    ensures u.Char? ==> 0 < u.width <= |s|
  {
    if s[0] == QUOTE then BadSyntax
    else if s[0] >= 0x80 then
      (if WellFormedLength(s) == 0 then Char([0xEF, 0xBF, 0xBD], 1)
       else Char(s[..WellFormedLength(s)], WellFormedLength(s)))
    else if s[0] != BACKSLASH then Char([s[0]], 1)
    else if |s| < 2 then BadSyntax
    else if LetterControl(s[1]).Some? then Char([LetterControl(s[1]).value], 2)
    else if s[1] == 0x78 then UnquoteNumber(s, 2, true)
    else if s[1] == 0x75 then UnquoteNumber(s, 4, false)
    else if s[1] == 0x55 then UnquoteNumber(s, 8, false)
    else if IsOctal(s[1]) then UnquoteOctal(s)
    else if s[1] == BACKSLASH || s[1] == QUOTE then Char([s[1]], 2)
    else BadSyntax
  }

  /** The text up to the closing quote, which must be the end. */
  function UnquoteBody(s: Bytes): Option<Bytes> {
    if s == [] then None
    else if s[0] == QUOTE then (if |s| == 1 then Some([]) else None)
    else if s[0] == NEWLINE then None
    else
      match UnquoteChar(s)
      case BadSyntax => None
      case Char(bytes, width) =>
        (match UnquoteBody(s[width..])
         case None => None
         case Some(rest) => Some(bytes + rest))
  }

  function Unquote(s: Bytes): Option<Bytes> {
    if |s| < 2 || s[0] != QUOTE then None else UnquoteBody(s[1..])
  }

  // ---------- unquoting undoes quoting ----------

  lemma LengthOfExtension(c: Bytes, rest: Bytes)
    requires Character(c)
    ensures WellFormedLength(c + rest) == |c|
  {
  }

  lemma UnquoteOfNumber(v: nat, digits: nat, letter: Byte, isByte: bool, rest: Bytes)
    requires v < Power16(digits)
    requires if isByte then v < 256 else ValidRune(v)
    ensures UnquoteNumber([BACKSLASH, letter] + Hex(v, digits) + rest, digits, isByte) ==
            Char(if isByte then [v as Byte] else Encode(v), 2 + digits)
  {
    var s := [BACKSLASH, letter] + Hex(v, digits) + rest;
    assert s[2..2 + digits] == Hex(v, digits);
    HexValueOfHex(v, digits);
  }

  lemma Powers()
    ensures Power16(2) == 256 && Power16(4) == 0x10000 && Power16(8) == 0x1_0000_0000
  {
  }

  lemma UnquoteOfUnit(printable: nat -> bool, c: Bytes, rest: Bytes)
    requires Unit(c)
    ensures var q := QuoteUnit(printable, c);
            && q != [] && (q + rest)[0] != QUOTE && (q + rest)[0] != NEWLINE
            && UnquoteChar(q + rest) == Char(c, |q|)
  {
    Powers();
    hide Power16;
    hide Hex;
    hide HexValue;
    hide Encode;
    var q := QuoteUnit(printable, c);
    if WellFormedLength(c) == 0 {
      UnquoteOfNumber(c[0] as int, 2, 0x78, true, rest);
    } else if c == [QUOTE] || c == [BACKSLASH] {
      assert (q + rest)[1] == c[0];
    } else if Printable(printable, c) {
      LengthOfExtension(c, rest);
      assert (c + rest)[..|c|] == c;
    } else if |c| == 1 && ControlLetter(c[0]).Some? {
      assert (q + rest)[1] == q[1];
    } else if |c| == 1 {
      UnquoteOfNumber(c[0] as int, 2, 0x78, true, rest);
    } else if CodePoint(c) < 0x10000 {
      EncodeOfCodePoint(c);
      UnquoteOfNumber(CodePoint(c), 4, 0x75, false, rest);
    } else {
      EncodeOfCodePoint(c);
      UnquoteOfNumber(CodePoint(c), 8, 0x55, false, rest);
    }
  }

  lemma UnquoteOneUnit(s: Bytes, c: Bytes, width: nat)
    requires s != [] && s[0] != QUOTE && s[0] != NEWLINE && UnquoteChar(s) == Char(c, width)
    requires width <= |s| && UnquoteBody(s[width..]).Some?
    ensures UnquoteBody(s) == Some(c + UnquoteBody(s[width..]).value)
  {
    hide UnquoteChar;
  }

  lemma UnquoteAtOnce()
    ensures UnquoteBody([QUOTE]) == Some([])
  {
  }

  lemma {:induction false} UnquoteOfBody(printable: nat -> bool, s: Bytes)
    ensures UnquoteBody(QuoteBody(printable, s) + [QUOTE]) == Some(s)
  {
    hide QuoteUnit;
    hide WellFormedLength;
    hide UnquoteChar;
    hide UnquoteBody;
    hide Unit;
    if s == [] {
      assert QuoteBody(printable, s) + [QUOTE] == [QUOTE];
      UnquoteAtOnce();
    } else {
      var n := DecodeWidth(s);
      FrontIsUnit(s);
      var q, rest := QuoteUnit(printable, s[..n]), QuoteBody(printable, s[n..]) + [QUOTE];
      UnquoteOfBody(printable, s[n..]);
      UnquoteOfUnit(printable, s[..n], rest);
      assert QuoteBody(printable, s) + [QUOTE] == q + rest;
      assert (q + rest)[|q|..] == rest;
      UnquoteOneUnit(q + rest, s[..n], |q|);
      assert s == s[..n] + s[n..];
    }
  }

  /** Unquoting gives back every text, bytes that are not UTF-8 included. */
  lemma UnquoteOfQuote(printable: nat -> bool, s: Bytes)
    ensures Unquote(Quote(printable, s)) == Some(s)
  {
    hide UnquoteBody;
    hide QuoteBody;
    UnquoteOfBody(printable, s);
    assert Quote(printable, s)[1..] == QuoteBody(printable, s) + [QUOTE];
  }

  // ---------- escapes that quoting does not write ----------

  /** Three octal digits stand for a byte. */
  lemma OctalEscape(a: nat, b: nat, c: nat, rest: Bytes)
    requires a < 4 && b < 8 && c < 8
    ensures UnquoteChar([BACKSLASH, (0x30 + a) as Byte, (0x30 + b) as Byte, (0x30 + c) as Byte] + rest) ==
            Char([(64 * a + 8 * b + c) as Byte], 4)
  {
  }

  function UpperHexDigit(v: nat): Byte
    requires v < 16
  {
    if v < 10 then (0x30 + v) as Byte else (0x41 + v - 10) as Byte
  }

  /** Capital hexadecimal digits are read like small ones, and the two small digits of a byte are its value. */
  lemma HexEscape(a: nat, b: nat, rest: Bytes)
    requires a < 16 && b < 16
    ensures UnquoteChar([BACKSLASH, 0x78, UpperHexDigit(a), UpperHexDigit(b)] + rest) == Char([(16 * a + b) as Byte], 4)
    ensures UnquoteChar([BACKSLASH, 0x78, HexDigit(a), HexDigit(b)] + rest) == Char([(16 * a + b) as Byte], 4)
  {
    TwoHexDigits(UpperHexDigit(a), UpperHexDigit(b), rest);
    TwoHexDigits(HexDigit(a), HexDigit(b), rest);
  }

  lemma TwoHexDigits(a: Byte, b: Byte, rest: Bytes)
    requires IsHex(a) && IsHex(b)
    ensures UnquoteChar([BACKSLASH, 0x78, a, b] + rest) == Char([(16 * HexDigitValue(a) + HexDigitValue(b)) as Byte], 4)
  {
    var s := [BACKSLASH, 0x78, a, b] + rest;
    assert s[2..4] == [a, b];
    assert [a, b][..1] == [a] && [a][..0] == [];
    assert HexValue([]) == Some(0) && HexValue([a]) == Some(HexDigitValue(a));
    assert HexValue([a, b]) == Some(16 * HexDigitValue(a) + HexDigitValue(b));
  }

  /** In double quotes an apostrophe is not escaped. */
  lemma ApostropheIsNotEscaped(rest: Bytes)
    ensures UnquoteChar([BACKSLASH, 0x27] + rest) == BadSyntax
  {
  }

  // ---------- the closing quote ----------

  /** How far the next quote is that no backslash takes away. */
  function QuoteAt(s: Bytes, escaped: bool): (i: Option<nat>)
    ensures i.Some? ==> i.value < |s|
  {
    if s == [] then None
    else if !escaped && s[0] == QUOTE then Some(0)
    else
      match QuoteAt(s[1..], !escaped && s[0] == BACKSLASH)
      case None => None
      case Some(i) => Some(i + 1)
  }

  /** The place of the closing quote, -1 if there is none. */
  method FindDoubleQuoteEnd(value: Bytes) returns (end: int)
    requires value != [] && value[0] == QUOTE
    ensures match QuoteAt(value[1..], false) case None => end == -1 case Some(i) => end == i + 1
    ensures end < |value|
  {
    var escaped := false;
    for index := 1 to |value|
      invariant match QuoteAt(value[index..], escaped)
                case None => QuoteAt(value[1..], false).None?
                case Some(i) => QuoteAt(value[1..], false) == Some(index - 1 + i)
    {
      assert value[index..][1..] == value[index + 1..];
      if escaped {
        escaped := false;
      } else if value[index] == BACKSLASH {
        escaped := true;
      } else if value[index] == QUOTE {
        return index;
      }
    }
    return -1;
  }

  predicate Inert(s: Bytes) {
    forall i :: 0 <= i < |s| ==> s[i] != QUOTE && s[i] != BACKSLASH && s[i] != NEWLINE && s[i] != 0x0D
  }

  lemma {:induction false} QuoteAfterInert(s: Bytes, rest: Bytes)
    requires Inert(s)
    ensures QuoteAt(s + rest, false) ==
            match QuoteAt(rest, false) { case None => None case Some(i) => Some(|s| + i) }
  {
    if s == [] {
      assert s + rest == rest;
    } else {
      assert (s + rest)[1..] == s[1..] + rest;
      QuoteAfterInert(s[1..], rest);
    }
  }

  lemma UnitShape(printable: nat -> bool, c: Bytes)
    requires Unit(c)
    ensures var q := QuoteUnit(printable, c);
            Inert(q) || (2 <= |q| && q[0] == BACKSLASH && q[1] != NEWLINE && q[1] != 0x0D && Inert(q[2..]))
  {
    var q := QuoteUnit(printable, c);
    if 2 <= |q| && q[0] == BACKSLASH {
      assert forall i :: 0 <= i < |q[2..]| ==> IsHex(q[2..][i]);
    }
  }

  lemma {:induction false} QuoteAfterBody(printable: nat -> bool, s: Bytes)
    ensures QuoteAt(QuoteBody(printable, s) + [QUOTE], false) == Some(|QuoteBody(printable, s)|)
    ensures forall i :: 0 <= i < |QuoteBody(printable, s)| ==>
              QuoteBody(printable, s)[i] != NEWLINE && QuoteBody(printable, s)[i] != 0x0D
  {
    hide QuoteUnit;
    hide WellFormedLength;
    hide UnquoteChar;
    hide Unit;
    hide QuoteAt;
    if s == [] {
      assert QuoteBody(printable, s) + [QUOTE] == [QUOTE];
      QuoteAtOnce();
    } else {
      var n := DecodeWidth(s);
      FrontIsUnit(s);
      var q, rest := QuoteUnit(printable, s[..n]), QuoteBody(printable, s[n..]) + [QUOTE];
      QuoteAfterBody(printable, s[n..]);
      UnitShape(printable, s[..n]);
      assert QuoteBody(printable, s) + [QUOTE] == q + rest;
      QuoteAfterUnit(q, rest);
    }
  }

  lemma QuoteAtOnce()
    ensures QuoteAt([QUOTE], false) == Some(0)
  {
  }

  /** The search passes over a quoted character. */
  lemma QuoteAfterUnit(q: Bytes, rest: Bytes)
    requires Inert(q) || (2 <= |q| && q[0] == BACKSLASH && Inert(q[2..]))
    ensures QuoteAt(q + rest, false) ==
            match QuoteAt(rest, false) { case None => None case Some(i) => Some(|q| + i) }
  {
    if Inert(q) {
      QuoteAfterInert(q, rest);
    } else {
      QuoteAfterInert(q[2..], rest);
      assert (q + rest)[1..][1..] == q[2..] + rest;
    }
  }

  /** The search stops at the last byte of a quoted text, and the text is one line. */
  lemma QuoteEndsAtLast(printable: nat -> bool, s: Bytes)
    ensures var q := Quote(printable, s);
            && QuoteAt(q[1..], false) == Some(|q| - 2)
            && NEWLINE !in q && 0x0D !in q
  {
    QuoteAfterBody(printable, s);
    assert Quote(printable, s)[1..] == QuoteBody(printable, s) + [QUOTE];
  }
}
