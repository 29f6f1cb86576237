/** Fragments of UTF-8 text (internal/mcpserver/response.go). */
module Utf8 {
  import opened Bytes

  /** The first byte of a character (utf8.RuneStart). */
  predicate RuneStart(b: Byte) {
    !(0x80 <= b < 0xC0)
  }

  predicate Continuation(b: Byte) {
    0x80 <= b < 0xC0
  }

  /** The length of a well-formed character at the front, and 0 if there is none. */
  function WellFormedLength(s: Bytes): (n: nat)
    ensures n <= |s| && n <= 4
    ensures forall i :: 0 < i < n ==> !RuneStart(s[i])
    ensures 0 < n ==> RuneStart(s[0])
  {
    if s == [] then 0
    else if s[0] < 0x80 then 1
    else if 0xC2 <= s[0] < 0xE0 then
      if 2 <= |s| && Continuation(s[1]) then 2 else 0
    else if 0xE0 <= s[0] < 0xF0 then
      if 3 <= |s| && Continuation(s[1]) && Continuation(s[2])
         && (s[0] == 0xE0 ==> 0xA0 <= s[1]) && (s[0] == 0xED ==> s[1] < 0xA0) then 3 else 0
    else if 0xF0 <= s[0] < 0xF5 then
      if 4 <= |s| && Continuation(s[1]) && Continuation(s[2]) && Continuation(s[3])
         && (s[0] == 0xF0 ==> 0x90 <= s[1]) && (s[0] == 0xF4 ==> s[1] < 0x90) then 4 else 0
    else 0
  }

  /** The text is a sequence of well-formed characters. */
  predicate Valid(s: Bytes) {
    s == [] || (0 < WellFormedLength(s) && Valid(s[WellFormedLength(s)..]))
  }

  /** The width utf8.DecodeRuneInString reports: 1 for a malformed character. */
  function DecodeWidth(s: Bytes): (n: nat)
    requires s != []
    ensures 0 < n <= |s| && n <= 4
  {
    if WellFormedLength(s) == 0 then 1 else WellFormedLength(s)
  }

  lemma ValidStartsRune(s: Bytes)
    ensures Valid(s) && s != [] ==> RuneStart(s[0])
  {
  }

  lemma LengthOfPrefix(s: Bytes, i: nat)
    requires WellFormedLength(s) <= i <= |s| && 0 < WellFormedLength(s)
    ensures WellFormedLength(s[..i]) == WellFormedLength(s)
  {
  }

  /** Valid text may be cut at any position where a character starts, and at no other. */
  lemma {:induction false} CutAtRuneStart(s: Bytes, i: nat)
    requires Valid(s) && i <= |s|
    ensures i == |s| || RuneStart(s[i]) <==> Valid(s[..i]) && Valid(s[i..])
    decreases |s|
  {
    if i == |s| {
      assert s[..i] == s;
    } else if i == 0 {
      assert s[0..] == s;
    } else {
      var n := WellFormedLength(s);
      if i < n {
        ValidStartsRune(s[i..]);
      } else {
        CutAtRuneStart(s[n..], i - n);
        LengthOfPrefix(s, i);
        assert s[..i][n..] == s[n..][..i - n] && s[i..] == s[n..][i - n..];
      }
    }
  }

  datatype Fragment = Fragment(bytes: Bytes, next: nat, done: bool) | Invalid

  /** A piece of valid text between two places where a character starts is valid text. */
  lemma PieceIsValid(s: Bytes, offset: nat, end: nat)
    requires Valid(s) && offset <= end <= |s|
    requires offset == |s| || RuneStart(s[offset])
    requires end == |s| || RuneStart(s[end])
    ensures Valid(s[offset..]) && Valid(s[offset..end])
  {
    hide *;
    CutAtRuneStart(s, offset);
    CutAtRuneStart(s[offset..], end - offset);
    assert s[offset..][..end - offset] == s[offset..end];
    assert end < |s| ==> s[offset..][end - offset] == s[end];
  }

  /** One whole character ends where the next one starts. */
  lemma CharacterEndsAtRuneStart(s: Bytes, offset: nat)
    requires Valid(s) && offset < |s| && RuneStart(s[offset])
    ensures var end := offset + DecodeWidth(s[offset..]); end == |s| || RuneStart(s[end])
    ensures DecodeWidth(s[offset..]) == WellFormedLength(s[offset..])
  {
    CutAtRuneStart(s, offset);
    var end := offset + DecodeWidth(s[offset..]);
    assert s[offset..][end - offset..] == s[end..];
    ValidStartsRune(s[end..]);
  }

  /** A fragment of at most limit bytes, or one whole character if that is longer. Of valid text it is
      valid text that ends where a character starts, so the next one can begin there, and it could not
      be longer. */
  method Utf8Fragment(s: Bytes, offset: int, limit: int) returns (f: Fragment)
    ensures f == Invalid <==>
              offset < 0 || offset > |s| || limit < 1 || (offset < |s| && !RuneStart(s[offset]))
    ensures f != Invalid ==>
              && offset <= f.next <= |s| && f.bytes == s[offset..f.next] && (f.done <==> f.next == |s|)
              && (offset < |s| ==> offset < f.next)
    ensures f != Invalid ==> |f.bytes| <= limit || (offset < |s| && |f.bytes| == DecodeWidth(s[offset..]))
    ensures f != Invalid ==> forall k :: f.next < k <= offset + limit && k < |s| ==> !RuneStart(s[k])
    ensures f != Invalid && Valid(s) ==>
              && (f.next < |s| ==> RuneStart(s[f.next]))
              && Valid(f.bytes)
    ensures f != Invalid && Valid(s) && offset + limit >= |s| ==> f.done
  {
    if offset < 0 || offset > |s| || limit < 1 || (offset < |s| && !RuneStart(s[offset])) {
      return Invalid;
    }
    var end := offset + if limit < |s| - offset then limit else |s| - offset;
    while end > offset && end < |s| && !RuneStart(s[end])
      invariant offset <= end <= |s| && end - offset <= limit
      invariant offset + limit >= |s| ==> end == |s|
      invariant forall k :: end < k <= offset + limit && k < |s| ==> !RuneStart(s[k])
    {
      end := end - 1;
    }
    if end == offset && offset < |s| {
      if Valid(s) {
        CharacterEndsAtRuneStart(s, offset);
      }
      end := offset + DecodeWidth(s[offset..]);
    }
    if Valid(s) {
      PieceIsValid(s, offset, end);
    }
    return Fragment(s[offset..end], end, end == |s|);
  }
}
