/** One value of a runtime file: encodeRuntimeEnvValue and parseRuntimeEnvValue
    (internal/config/runtime_env.go). */
module RuntimeValue {
  import opened Wrappers
  import opened Bytes
  import opened Quoting
  import Strings

  const APOSTROPHE: Byte := 0x27
  const HASH: Byte := 0x23
  const CARRIAGE_RETURN: Byte := 0x0D

  // ---------- white space ----------

  predicate IsSpaceByte(b: Byte) {
    0x09 <= b <= 0x0D || b == 0x20
  }

  /** The white space characters of two and of three bytes. */
  predicate IsSpace2(a: Byte, b: Byte) {
    a == 0xC2 && (b == 0x85 || b == 0xA0)
  }

  predicate IsSpace3(a: Byte, b: Byte, c: Byte) {
    || (a == 0xE1 && b == 0x9A && c == 0x80)
    || (a == 0xE2 && b == 0x80 && (0x80 <= c <= 0x8A || c == 0xA8 || c == 0xA9 || c == 0xAF))
    || (a == 0xE2 && b == 0x81 && c == 0x9F)
    || (a == 0xE3 && b == 0x80 && c == 0x80)
  }

  function SpaceAtFront(s: Bytes): (n: nat)
    ensures n <= |s|
  {
    if 1 <= |s| && IsSpaceByte(s[0]) then 1
    else if 2 <= |s| && IsSpace2(s[0], s[1]) then 2
    else if 3 <= |s| && IsSpace3(s[0], s[1], s[2]) then 3
    else 0
  }

  function SpaceAtEnd(s: Bytes): (n: nat)
    ensures n <= |s|
  {
    var k := |s|;
    if 1 <= k && IsSpaceByte(s[k - 1]) then 1
    else if 2 <= k && IsSpace2(s[k - 2], s[k - 1]) then 2
    else if 3 <= k && IsSpace3(s[k - 3], s[k - 2], s[k - 1]) then 3
    else 0
  }

  function TrimLeft(s: Bytes): Bytes {
    if SpaceAtFront(s) == 0 then s else TrimLeft(s[SpaceAtFront(s)..])
  }

  function TrimRight(s: Bytes): Bytes {
    if SpaceAtEnd(s) == 0 then s else TrimRight(s[..|s| - SpaceAtEnd(s)])
  }

  /** strings.TrimSpace. */
  function TrimSpace(s: Bytes): Bytes {
    TrimRight(TrimLeft(s))
  }

  /** strings.TrimLeft with blank and tab. */
  function TrimBlanks(s: Bytes): Bytes {
    if s != [] && (s[0] == 0x20 || s[0] == 0x09) then TrimBlanks(s[1..]) else s
  }

  /** An ASCII byte other than white space. */
  predicate Solid(b: Byte) {
    b < 0x80 && !IsSpaceByte(b)
  }

  /** A text between two such bytes is not trimmed. */
  lemma SolidIsNotTrimmed(s: Bytes)
    requires s == [] || (Solid(s[0]) && Solid(s[|s| - 1]))
    ensures TrimSpace(s) == s
  {
    assert SpaceAtFront(s) == 0;
    assert SpaceAtEnd(s) == 0;
  }

  /** Trimming keeps such a byte at the front. */
  lemma {:induction false} SolidFrontStays(s: Bytes)
    requires s != [] && Solid(s[0])
    ensures TrimLeft(s) == s && TrimRight(s) != [] && TrimRight(s)[0] == s[0]
    decreases |s|
  {
    var n := SpaceAtEnd(s);
    if n != 0 {
      SolidFrontStays(s[..|s| - n]);
    }
  }

  // ---------- values ----------

  predicate ValidValue(value: Bytes) {
    0 !in value && CARRIAGE_RETURN !in value && NEWLINE !in value
  }

  function Validated(value: Bytes): Result<Bytes> {
    if ValidValue(value) then Ok(value) else Err("dotenv values must not contain NUL or newlines")
  }

  predicate RemainderIsComment(remainder: Bytes) {
    var rest := TrimSpace(remainder);
    rest == [] || rest[0] == HASH
  }

  function ParseRuntimeEnvValue(raw: Bytes): Result<Bytes> {
    var trimmed := TrimBlanks(raw);
    if trimmed == [] then Validated([])
    else if trimmed[0] == APOSTROPHE then
      var closing := Strings.IndexOf(trimmed[1..], APOSTROPHE);
      if closing < 0 then Err("unterminated single-quoted value")
      else if !RemainderIsComment(trimmed[closing + 2..]) then Err("unexpected content after quoted value")
      else Validated(trimmed[1..closing + 1])
    else if trimmed[0] == QUOTE then
      match QuoteAt(trimmed[1..], false)
      case None => Err("unterminated double-quoted value")
      case Some(i) =>
        if !RemainderIsComment(trimmed[i + 2..]) then Err("unexpected content after quoted value")
        else
          match Unquote(trimmed[..i + 2])
          case None => Err("decode double-quoted value")
          case Some(value) => Validated(value)
    else Validated(TrimSpace(raw))
  }

  /** The same with the search for the closing quote as the code has it. */
  method ParseValue(raw: Bytes) returns (r: Result<Bytes>)
    ensures r == ParseRuntimeEnvValue(raw)
  {
    var trimmed := TrimBlanks(raw);
    if trimmed == [] {
      return Validated([]);
    }
    if trimmed[0] == APOSTROPHE {
      var closing := Strings.IndexOf(trimmed[1..], APOSTROPHE);
      if closing < 0 {
        return Err("unterminated single-quoted value");
      }
      if !RemainderIsComment(trimmed[closing + 2..]) {
        return Err("unexpected content after quoted value");
      }
      return Validated(trimmed[1..closing + 1]);
    }
    if trimmed[0] == QUOTE {
      var closing := FindDoubleQuoteEnd(trimmed);
      if closing < 0 {
        return Err("unterminated double-quoted value");
      }
      if !RemainderIsComment(trimmed[closing + 1..]) {
        return Err("unexpected content after quoted value");
      }
      var value := Unquote(trimmed[..closing + 1]);
      return if value.None? then Err("decode double-quoted value") else Validated(value.value);
    }
    return Validated(TrimSpace(raw));
  }

  predicate IsPlainByte(b: Byte) {
    0x61 <= b <= 0x7A || 0x41 <= b <= 0x5A || 0x30 <= b <= 0x39 ||
    b in [0x5F, 0x2D, 0x2E, 0x2F, 0x3A, 0x40, 0x25, 0x2B, 0x2C]
  }

  predicate IsPlain(value: Bytes) {
    forall i :: 0 <= i < |value| ==> IsPlainByte(value[i])
  }

  function Encoded(printable: nat -> bool, value: Bytes): Bytes {
    if IsPlain(value) then value else Quote(printable, value)
  }

  function EncodeRuntimeEnvValue(printable: nat -> bool, value: Bytes): Result<Bytes> {
    if !ValidValue(value) then Err("dotenv values must not contain NUL or newlines")
    else Ok(Encoded(printable, value))
  }

  /** Encoding succeeds exactly on values without NUL and line breaks; then parsing gives the value back
      and the text is one line. */
  lemma ParseOfEncode(printable: nat -> bool, value: Bytes)
    ensures EncodeRuntimeEnvValue(printable, value).Ok? <==> 0 !in value && 0x0D !in value && 0x0A !in value
    ensures EncodeRuntimeEnvValue(printable, value).Ok? ==>
              var text := EncodeRuntimeEnvValue(printable, value).value;
              && ParseRuntimeEnvValue(text) == Ok(value)
              && 0x0A !in text && 0x0D !in text
  {
    hide IsPlain;
    if ValidValue(value) {
      if IsPlain(value) {
        ParseOfPlain(value);
      } else {
        ParseOfQuoted(printable, value);
      }
    }
  }

  lemma ParseOfPlain(value: Bytes)
    requires ValidValue(value) && IsPlain(value)
    ensures ParseRuntimeEnvValue(value) == Ok(value)
  {
    hide Unquote;
    hide QuoteAt;
    hide TrimSpace;
    SolidIsNotTrimmed(value);
  }

  lemma ParseOfQuoted(printable: nat -> bool, value: Bytes)
    requires ValidValue(value)
    ensures ParseRuntimeEnvValue(Quote(printable, value)) == Ok(value)
    ensures NEWLINE !in Quote(printable, value) && CARRIAGE_RETURN !in Quote(printable, value)
  {
    hide Unquote;
    hide QuoteAt;
    hide TrimSpace;
    hide QuoteBody;
    var q := Quote(printable, value);
    QuoteEndsAtLast(printable, value);
    UnquoteOfQuote(printable, value);
    assert q[..|q|] == q && q[|q|..] == [];
    SolidIsNotTrimmed([]);
  }

  // ---------- hand-written values ----------

  predicate Blanks(s: Bytes) {
    forall i :: 0 <= i < |s| ==> s[i] == 0x20 || s[i] == 0x09
  }

  lemma {:induction false} TrimBlanksIsCore(left: Bytes, s: Bytes)
    requires Blanks(left) && (s == [] || (s[0] != 0x20 && s[0] != 0x09))
    ensures TrimBlanks(left + s) == s
  {
    if left == [] {
      assert left + s == s;
    } else {
      assert (left + s)[1..] == left[1..] + s;
      TrimBlanksIsCore(left[1..], s);
    }
  }

  /** What stands between single quotes is taken as it is, blanks before and a comment after them dropped. */
  lemma SingleQuoted(left: Bytes, value: Bytes, right: Bytes)
    requires Blanks(left) && APOSTROPHE !in value
    ensures ParseRuntimeEnvValue(left + [APOSTROPHE] + value + [APOSTROPHE] + right) ==
            if RemainderIsComment(right) then Validated(value) else Err("unexpected content after quoted value")
  {
    var quoted := [APOSTROPHE] + value + [APOSTROPHE] + right;
    assert left + [APOSTROPHE] + value + [APOSTROPHE] + right == left + quoted;
    TrimBlanksIsCore(left, quoted);
    assert quoted[1..] == value + [APOSTROPHE] + right;
    Strings.FirstPlace(value, APOSTROPHE, right);
    assert quoted[1..|value| + 1] == value && quoted[|value| + 2..] == right;
  }

  lemma {:induction false} QuoteAtExtended(s: Bytes, escaped: bool, rest: Bytes)
    requires QuoteAt(s, escaped).Some?
    ensures QuoteAt(s + rest, escaped) == QuoteAt(s, escaped)
  {
    if escaped || s[0] != QUOTE {
      assert (s + rest)[1..] == s[1..] + rest;
      QuoteAtExtended(s[1..], !escaped && s[0] == BACKSLASH, rest);
    }
  }

  /** A quoted value is read back with blanks before and a comment after it, and with nothing else. */
  lemma DoubleQuoted(printable: nat -> bool, left: Bytes, value: Bytes, right: Bytes)
    requires Blanks(left)
    ensures ParseRuntimeEnvValue(left + Quote(printable, value) + right) ==
            if RemainderIsComment(right) then Validated(value) else Err("unexpected content after quoted value")
  {
    var q := Quote(printable, value);
    var text := q + right;
    QuoteEndsAtLast(printable, value);
    UnquoteOfQuote(printable, value);
    assert q[0] == QUOTE;
    hide QuoteBody;
    hide Quote;
    hide Unquote;
    assert left + q + right == left + text;
    TrimBlanksIsCore(left, text);
    QuoteAtExtended(q[1..], false, right);
    assert text[1..] == q[1..] + right && text[..|q|] == q && text[|q|..] == right;
    hide QuoteAt;
  }

  predicate Space(s: Bytes) {
    forall i :: 0 <= i < |s| ==> IsSpaceByte(s[i])
  }

  lemma {:induction false} TrimLeftIsCore(left: Bytes, s: Bytes)
    requires Space(left) && (s == [] || Solid(s[0]))
    ensures TrimLeft(left + s) == s
  {
    if left == [] {
      assert left + s == s;
    } else {
      assert (left + s)[1..] == left[1..] + s;
      TrimLeftIsCore(left[1..], s);
    }
  }

  lemma {:induction false} TrimRightIsCore(s: Bytes, right: Bytes)
    requires Space(right) && (s == [] || Solid(s[|s| - 1]))
    ensures TrimRight(s + right) == s
  {
    if right == [] {
      assert s + right == s;
    } else {
      var t := s + right;
      assert t[..|t| - 1] == s + right[..|right| - 1];
      TrimRightIsCore(s, right[..|right| - 1]);
    }
  }

  /** Trimming takes ASCII white space at both ends away. */
  lemma TrimSpaceIsCore(left: Bytes, s: Bytes, right: Bytes)
    requires Space(left) && Space(right) && (s == [] || (Solid(s[0]) && Solid(s[|s| - 1])))
    ensures TrimSpace(left + s + right) == s
  {
    hide TrimLeft;
    hide TrimRight;
    if s == [] {
      assert left + s + right == (left + right) + [];
      TrimLeftIsCore(left + right, []);
      TrimRightIsCore(s, s);
      assert s + s == s;
    } else {
      assert left + s + right == left + (s + right);
      TrimLeftIsCore(left, s + right);
      TrimRightIsCore(s, right);
    }
  }

  /** An unquoted value is what remains without the white space around it, inner blanks and hash signs
      included. */
  lemma Unquoted(left: Bytes, value: Bytes, right: Bytes)
    requires Blanks(left) && Space(right)
    requires value != [] && Solid(value[0]) && Solid(value[|value| - 1])
    requires value[0] != APOSTROPHE && value[0] != QUOTE
    ensures ParseRuntimeEnvValue(left + value + right) == Validated(value)
  {
    assert left + value + right == left + (value + right);
    TrimBlanksIsCore(left, value + right);
    TrimSpaceIsCore(left, value, right);
    hide TrimBlanks;
    hide TrimSpace;
    hide QuoteAt;
    hide Unquote;
  }

  /** After a closing quote there may be white space and a comment, and nothing else. */
  lemma AfterTheQuote(left: Bytes, b: Byte, rest: Bytes)
    requires Space(left) && Solid(b)
    ensures RemainderIsComment(left) && (RemainderIsComment(left + [b] + rest) <==> b == HASH)
  {
    assert left + [] + [] == left;
    TrimSpaceIsCore(left, [], []);
    assert left + [b] + rest == left + ([b] + rest);
    TrimLeftIsCore(left, [b] + rest);
    SolidFrontStays([b] + rest);
  }

  /** The bytes taken for white space are those of the white space characters. */
  lemma SpaceIsIsSpace(v: nat)
    requires ValidRune(v)
    ensures SpaceAtFront(Encode(v)) == |Encode(v)| <==> Strings.IsSpace(v as char)
    ensures SpaceAtFront(Encode(v)) in {0, |Encode(v)|} && SpaceAtEnd(Encode(v)) == SpaceAtFront(Encode(v))
  {
  }
}
