/** Functions of Go's strings package that several parts use. */
module Strings {
  /** strings.Split at every slash. */
  function Split(s: string): (parts: seq<string>)
    ensures parts != []
  {
    if s == "" then [""]
    else
      var rest := Split(s[1..]);
      if s[0] == '/' then [""] + rest else [[s[0]] + rest[0]] + rest[1..]
  }

  /** strings.Join with a slash. */
  function Join(parts: seq<string>): string {
    if parts == [] then "" else if |parts| == 1 then parts[0] else parts[0] + "/" + Join(parts[1..])
  }

  predicate SlashFree(parts: seq<string>) {
    forall i :: 0 <= i < |parts| ==> '/' !in parts[i]
  }

  /** Splitting undoes joining. */
  lemma {:induction false} JoinOfSplit(s: string)
    ensures Join(Split(s)) == s && SlashFree(Split(s))
  {
    if s != "" {
      JoinOfSplit(s[1..]);
      assert s == [s[0]] + s[1..];
    }
  }

  lemma {:induction false} SplitFirst(part: string, rest: string)
    requires '/' !in part
    ensures Split(part + "/" + rest) == [part] + Split(rest)
  {
    var s := part + "/" + rest;
    if part == "" {
      assert s[1..] == rest;
    } else {
      assert s[1..] == part[1..] + "/" + rest;
      SplitFirst(part[1..], rest);
      assert part == [part[0]] + part[1..];
    }
  }

  lemma {:induction false} SplitOfToken(part: string)
    requires '/' !in part
    ensures Split(part) == [part]
  {
    if part != "" {
      SplitOfToken(part[1..]);
      assert part == [part[0]] + part[1..];
    }
  }

  /** Joining undoes splitting. */
  lemma {:induction false} SplitOfJoin(parts: seq<string>)
    requires parts != [] && SlashFree(parts)
    ensures Split(Join(parts)) == parts
  {
    if |parts| == 1 {
      SplitOfToken(parts[0]);
    } else {
      SplitOfJoin(parts[1..]);
      SplitFirst(parts[0], Join(parts[1..]));
    }
  }

  /** unicode.IsSpace. */
  predicate IsSpace(c: char) {
    c in "\t\n\U{0B}\U{0C}\r \U{85}\U{A0}\U{1680}\U{2028}\U{2029}\U{202F}\U{205F}\U{3000}" ||
    '\U{2000}' <= c <= '\U{200A}'
  }

  function TrimLeft(s: string): string {
    if s != "" && IsSpace(s[0]) then TrimLeft(s[1..]) else s
  }

  function TrimRight(s: string): string {
    if s != "" && IsSpace(s[|s| - 1]) then TrimRight(s[..|s| - 1]) else s
  }

  function TrimSpace(s: string): string {
    TrimRight(TrimLeft(s))
  }

  predicate Spaces(s: string) {
    forall i :: 0 <= i < |s| ==> IsSpace(s[i])
  }

  lemma {:induction false} TrimLeftIsCore(left: string, s: string)
    requires Spaces(left) && (s == "" || !IsSpace(s[0]))
    ensures TrimLeft(left + s) == s
  {
    hide IsSpace;
    if left == "" {
      assert left + s == s;
    } else {
      assert (left + s)[1..] == left[1..] + s;
      TrimLeftIsCore(left[1..], s);
    }
  }

  lemma {:induction false} TrimRightIsCore(s: string, right: string)
    requires Spaces(right) && (s == "" || !IsSpace(s[|s| - 1]))
    ensures TrimRight(s + right) == s
  {
    hide IsSpace;
    if right == "" {
      assert s + right == s;
    } else {
      var t := s + right;
      assert t[..|t| - 1] == s + right[..|right| - 1];
      TrimRightIsCore(s, right[..|right| - 1]);
    }
  }

  /** Trimming takes the white space at both ends away and nothing else. */
  lemma TrimSpaceIsCore(left: string, s: string, right: string)
    requires Spaces(left) && Spaces(right)
    requires s == "" || (!IsSpace(s[0]) && !IsSpace(s[|s| - 1]))
    ensures TrimSpace(left + s + right) == s
  {
    assert left + s + right == left + (s + right);
    if s == "" {
      assert left + s + right == left + right + "";
      assert Spaces(left + right);
      TrimLeftIsCore(left + right, "");
    } else {
      TrimLeftIsCore(left, s + right);
      TrimRightIsCore(s, right);
    }
  }

  /** strings.IndexByte: the first place of c, or -1. */
  function IndexOf<T(==)>(s: seq<T>, c: T): (i: int)
    ensures -1 <= i < |s|
    ensures i == -1 <==> c !in s
    ensures i >= 0 ==> s[i] == c && c !in s[..i]
  {
    if s == [] then -1
    else if s[0] == c then 0
    else
      var i := IndexOf(s[1..], c);
      assert i >= 0 ==> s[..i + 1] == [s[0]] + s[1..][..i];
      if i < 0 then -1 else i + 1
  }

  lemma FirstPlace<T>(s: seq<T>, c: T, rest: seq<T>)
    requires c !in s
    ensures IndexOf(s + [c] + rest, c) == |s|
  {
    var t := s + [c] + rest;
    assert t[|s|] == c;
    assert forall i :: 0 <= i < |s| ==> t[i] == s[i];
    var k := IndexOf(t, c);
    assert c in t;
    assert forall i :: 0 <= i < k ==> t[i] == t[..k][i];
  }
}
