/** JSON pointers of the snapshot reader: pointerChild (internal/mcpserver/read.go) builds them,
    jsonPointer (internal/mcpserver/cache.go) follows them. */
module JsonPointer {
  import opened Wrappers
  import opened Decimal
  import opened Json
  import opened Strings

  // ---------- strings ----------

  /** strings.ReplaceAll: occurrences from left to right, not overlapping. */
  function ReplaceAll(s: string, from: string, to: string): string
    requires from != ""
  {
    if s == "" then ""
    else if from <= s then to + ReplaceAll(s[|from|..], from, to)
    else [s[0]] + ReplaceAll(s[1..], from, to)
  }

  lemma PrefixByChars(p: string, s: string)
    requires 0 < |p| <= 2
    ensures p <= s <==> |p| <= |s| && s[0] == p[0] && (|p| == 2 ==> s[1] == p[1])
  {
    if |p| <= |s| && s[0] == p[0] && (|p| == 2 ==> s[1] == p[1]) {
      assert s[..|p|] == p;
    }
  }

  // ---------- reference tokens ----------

  function Escape(key: string): string {
    ReplaceAll(ReplaceAll(key, "~", "~0"), "/", "~1")
  }

  function Unescape(part: string): string {
    ReplaceAll(ReplaceAll(part, "~1", "/"), "~0", "~")
  }

  /** Every tilde is followed by 0 or 1. */
  predicate ValidEscapes(part: string) {
    part == "" ||
    if part[0] == '~' then 2 <= |part| && part[1] in "01" && ValidEscapes(part[2..]) else ValidEscapes(part[1..])
  }

  /** What escaping does to one character. */
  function EscapedChar(c: char): string {
    if c == '~' then "~0" else if c == '/' then "~1" else [c]
  }

  function Escaped(key: string): string {
    if key == "" then "" else EscapedChar(key[0]) + Escaped(key[1..])
  }

  function TildesEscaped(key: string): string {
    if key == "" then "" else (if key[0] == '~' then "~0" else [key[0]]) + TildesEscaped(key[1..])
  }

  lemma {:induction false} ReplaceTilde(key: string)
    ensures ReplaceAll(key, "~", "~0") == TildesEscaped(key)
  {
    if key != "" {
      ReplaceTilde(key[1..]);
      PrefixByChars("~", key);
    }
  }

  lemma {:induction false} ReplaceSlash(key: string)
    ensures ReplaceAll(TildesEscaped(key), "/", "~1") == Escaped(key)
  {
    if key != "" {
      ReplaceSlash(key[1..]);
      var rest := TildesEscaped(key[1..]);
      var all := TildesEscaped(key);
      if key[0] == '~' {
        assert all == "~0" + rest && all[1..] == "0" + rest && all[1..][1..] == rest;
        PrefixByChars("/", all);
        PrefixByChars("/", all[1..]);
        assert Escaped(key) == "~" + ("0" + Escaped(key[1..]));
      } else {
        assert all == [key[0]] + rest && all[1..] == rest;
        PrefixByChars("/", all);
      }
    }
  }

  /** Escaping works character by character. */
  lemma EscapeIsCharwise(key: string)
    ensures Escape(key) == Escaped(key)
  {
    ReplaceTilde(key);
    ReplaceSlash(key);
  }

  lemma {:induction false} UnescapeSlashes(key: string)
    ensures ReplaceAll(Escaped(key), "~1", "/") == TildesEscaped(key)
  {
    if key != "" {
      UnescapeSlashes(key[1..]);
      var rest := Escaped(key[1..]);
      var all := Escaped(key);
      if key[0] == '~' {
        assert all == "~0" + rest && all[1..] == "0" + rest && all[1..][1..] == rest;
        PrefixByChars("~1", all);
        PrefixByChars("~1", all[1..]);
        assert TildesEscaped(key) == "~" + ("0" + TildesEscaped(key[1..]));
      } else if key[0] == '/' {
        assert all == "~1" + rest && all[2..] == rest;
      } else {
        assert all == [key[0]] + rest && all[1..] == rest;
        PrefixByChars("~1", all);
      }
    }
  }

  lemma {:induction false} UnescapeTildes(key: string)
    ensures ReplaceAll(TildesEscaped(key), "~0", "~") == key
  {
    if key != "" {
      UnescapeTildes(key[1..]);
      var rest := TildesEscaped(key[1..]);
      var all := TildesEscaped(key);
      if key[0] == '~' {
        assert all == "~0" + rest && all[2..] == rest;
      } else {
        assert all == [key[0]] + rest && all[1..] == rest;
        PrefixByChars("~0", all);
      }
    }
  }

  lemma {:induction false} EscapedIsToken(key: string)
    ensures ValidEscapes(Escaped(key)) && '/' !in Escaped(key)
  {
    if key != "" {
      EscapedIsToken(key[1..]);
      var rest := Escaped(key[1..]);
      assert EscapedChar(key[0]) + rest == Escaped(key);
      if key[0] == '~' || key[0] == '/' {
        assert Escaped(key)[2..] == rest;
      } else {
        assert Escaped(key)[1..] == rest;
      }
    }
  }

  /** Unescaping undoes escaping for every key, and an escaped key is one valid token. */
  lemma UnescapeOfEscape(key: string)
    ensures Unescape(Escape(key)) == key && ValidEscapes(Escape(key)) && '/' !in Escape(key)
  {
    EscapeIsCharwise(key);
    UnescapeSlashes(key);
    UnescapeTildes(key);
    EscapedIsToken(key);
  }

  /** The key a valid token stands for, read off from the left. */
  function KeyOf(part: string): string
    requires ValidEscapes(part)
  {
    if part == "" then ""
    else if part[0] == '~' then (if part[1] == '0' then "~" else "/") + KeyOf(part[2..])
    else [part[0]] + KeyOf(part[1..])
  }

  lemma {:induction false} EscapedOfKeyOf(part: string)
    requires ValidEscapes(part) && '/' !in part
    ensures Escaped(KeyOf(part)) == part
    decreases |part|
  {
    if part != "" {
      if part[0] == '~' {
        EscapedOfKeyOf(part[2..]);
        assert KeyOf(part)[1..] == KeyOf(part[2..]);
        assert part == part[..2] + part[2..];
        assert part[..2] == ['~', part[1]];
      } else {
        EscapedOfKeyOf(part[1..]);
        assert KeyOf(part)[1..] == KeyOf(part[1..]);
        assert part == [part[0]] + part[1..];
      }
    }
  }

  /** Escaping undoes unescaping for every valid token. */
  lemma EscapeOfUnescape(part: string)
    requires ValidEscapes(part) && '/' !in part
    ensures Escape(Unescape(part)) == part
  {
    EscapedOfKeyOf(part);
    EscapeIsCharwise(KeyOf(part));
    UnescapeOfEscape(KeyOf(part));
  }

  // ---------- following a pointer ----------

  /** The index an array token stands for: digits without a leading zero. */
  function ArrayIndex(part: string): Result<nat> {
    if part == "" || (1 < |part| && part[0] == '0') then Err("invalid array index")
    else if exists i :: 0 <= i < |part| && !IsDigit(part[i]) then Err("invalid array index")
    else
      match Atoi(part)
      case Some(i) => if i < 0 then Err("path not found") else Ok(i)
      case None => Err("path not found")
  }

  /** The child of a value under one decoded token. */
  function Child(v: Value, key: string): Result<Value> {
    match v
    case Object(m) => if key in m then Ok(m[key]) else Err("path not found")
    case Array(a) =>
      (match ArrayIndex(key)
       case Ok(i) => if i < |a| then Ok(a[i]) else Err("path not found")
       case Err(e) => Err(e))
    case _ => Err("path not found")
  }

  /** The only indices that name a place are the printed ones. */
  lemma ArrayIndexIsPrinted(part: string)
    ensures ArrayIndex(part).Ok? ==> ArrayIndex(part).value <= MAX_INT && part == Itoa(ArrayIndex(part).value)
    ensures forall i: nat :: i <= MAX_INT ==> ArrayIndex(Itoa(i)) == Ok(i)
  {
    if ArrayIndex(part).Ok? {
      ItoaOfDigits(part);
      assert part[0] != '+' && part[0] != '-';
    }
    forall i: nat | i <= MAX_INT
      ensures ArrayIndex(Itoa(i)) == Ok(i)
    {
      AtoiOfItoa(i);
    }
  }

  /** A value has exactly these children: an object its members under their keys, an array its items under
      their printed indices, and nothing else has any. */
  lemma ChildrenAreMembers(v: Value, key: string)
    requires v.Array? ==> |v.items| <= MAX_INT
    ensures Child(v, key).Ok? <==>
            (v.Object? && key in v.members) || (v.Array? && exists i :: 0 <= i < |v.items| && key == Itoa(i))
    ensures v.Object? && key in v.members ==> Child(v, key) == Ok(v.members[key])
    ensures v.Array? ==> forall i :: 0 <= i < |v.items| && key == Itoa(i) ==> Child(v, key) == Ok(v.items[i])
  {
    hide Itoa;
    ArrayIndexIsPrinted(key);
    hide ArrayIndex;
  }

  function Follow(v: Value, parts: seq<string>): Result<Value> {
    if parts == [] then Ok(v)
    else if !ValidEscapes(parts[0]) then Err("invalid RFC6901 escape")
    else
      match Child(v, Unescape(parts[0]))
      case Ok(child) => Follow(child, parts[1..])
      case Err(e) => Err(e)
  }

  /** The value a pointer names. */
  function Resolve(root: Value, raw: string): Result<Value> {
    if raw == "" then Ok(root)
    else if raw[0] != '/' then Err("path must be RFC6901 JSON pointer")
    else Follow(root, Split(raw[1..]))
  }

  method JsonPointer(root: Value, raw: string) returns (r: Result<Value>)
    ensures r == Resolve(root, raw)
  {
    if raw == "" {
      return Ok(root);
    }
    if raw[0] != '/' {
      return Err("path must be RFC6901 JSON pointer");
    }
    var cur := root;
    var parts := Split(raw[1..]);
    for k := 0 to |parts|
      invariant Follow(root, parts) == Follow(cur, parts[k..])
    {
      var part := parts[k];
      assert parts[k..][1..] == parts[k + 1..];
      var valid := CheckEscapes(part);
      if !valid {
        return Err("invalid RFC6901 escape");
      }
      var child := Child(cur, Unescape(part));
      if child.Err? {
        return child;
      }
      cur := child.value;
    }
    return Ok(cur);
  }

  /** The scan over the bytes of one token. */
  method CheckEscapes(part: string) returns (valid: bool)
    ensures valid <==> ValidEscapes(part)
  {
    var i := 0;
    while i < |part|
      invariant 0 <= i <= |part|
      invariant ValidEscapes(part) <==> ValidEscapes(part[i..])
    {
      if part[i] == '~' {
        if i + 1 >= |part| || (part[i + 1] != '0' && part[i + 1] != '1') {
          return false;
        }
        assert part[i..][2..] == part[i + 2..];
        i := i + 1;
      } else {
        assert part[i..][1..] == part[i + 1..];
      }
      i := i + 1;
    }
    return true;
  }

  function PointerChild(path: string, key: string): string {
    path + "/" + Escape(key)
  }

  // ---------- the two undo each other ----------

  lemma {:induction false} SplitSnoc(path: string, part: string)
    requires '/' !in part
    ensures Split(path + "/" + part) == Split(path) + [part]
  {
    var whole := path + "/" + part;
    if path == "" {
      assert whole[1..] == part;
      SplitOfToken(part);
    } else {
      SplitSnoc(path[1..], part);
      assert whole[1..] == path[1..] + "/" + part;
    }
  }

  lemma {:induction false} FollowSnoc(v: Value, parts: seq<string>, last: string)
    ensures Follow(v, parts + [last]) ==
            match Follow(v, parts) {
              case Ok(w) => Follow(w, [last])
              case Err(e) => Err(e)
            }
  {
    if parts == [] {
      assert parts + [last] == [last];
    } else {
      assert (parts + [last])[1..] == parts[1..] + [last];
      if ValidEscapes(parts[0]) && Child(v, Unescape(parts[0])).Ok? {
        FollowSnoc(Child(v, Unescape(parts[0])).value, parts[1..], last);
      }
    }
  }

  /** If a path resolves to a value, the child path of any key resolves to the child of that value
      under that key, whatever characters the key has. */
  lemma ChildPathNamesChild(root: Value, path: string, v: Value, key: string)
    requires Resolve(root, path) == Ok(v)
    ensures Resolve(root, PointerChild(path, key)) == Child(v, key)
  {
    var part := Escape(key);
    UnescapeOfEscape(key);
    assert [part][1..] == [];
    assert Follow(v, [part]) == Child(v, key) by {
      if Child(v, key).Ok? {
        assert Follow(Child(v, key).value, []) == Child(v, key);
      }
    }
    var child := PointerChild(path, key);
    if path == "" {
      assert child[1..] == part;
      SplitOfToken(part);
    } else {
      assert child[1..] == path[1..] + "/" + part;
      SplitSnoc(path[1..], part);
      FollowSnoc(root, Split(path[1..]), part);
    }
  }

  /** For objects the key, for arrays the printed index names the member. */
  lemma ChildPathNamesMember(root: Value, path: string, v: Value, key: string, i: nat)
    requires Resolve(root, path) == Ok(v)
    ensures v.Object? && key in v.members ==> Resolve(root, PointerChild(path, key)) == Ok(v.members[key])
    ensures v.Array? && i < |v.items| <= MAX_INT ==> Resolve(root, PointerChild(path, Itoa(i))) == Ok(v.items[i])
  {
    ChildPathNamesChild(root, path, v, key);
    ChildPathNamesChild(root, path, v, Itoa(i));
    if i <= MAX_INT {
      AtoiOfItoa(i);
    }
  }

  /** Different keys have different child paths. */
  lemma ChildPathsDiffer(path: string, key: string, other: string)
    requires PointerChild(path, key) == PointerChild(path, other)
    ensures key == other
  {
    UnescapeOfEscape(key);
    UnescapeOfEscape(other);
    assert PointerChild(path, key)[|path| + 1..] == Escape(key);
    assert PointerChild(path, other)[|path| + 1..] == Escape(other);
  }

  lemma {:induction false} SplitAtLastSlash(s: string) returns (front: Option<string>, last: string)
    ensures '/' !in last
    ensures s == match front { case None => last case Some(f) => f + "/" + last }
  {
    if s == "" {
      return None, "";
    }
    front, last := SplitAtLastSlash(s[1..]);
    assert s == [s[0]] + s[1..];
    match front {
      case Some(f) => front := Some([s[0]] + f);
      case None =>
        if s[0] == '/' {
          front := Some("");
        } else {
          last := [s[0]] + last;
        }
    }
  }

  /** Every path that resolves is the root or the child path, under some key, of a path that resolves
      to the parent. */
  lemma ResolvedPathIsChildPath(root: Value, raw: string) returns (path: string, key: string)
    requires raw != "" && Resolve(root, raw).Ok?
    ensures raw == PointerChild(path, key) && Resolve(root, path).Ok?
    ensures Child(Resolve(root, path).value, key) == Resolve(root, raw)
  {
    var front, last := SplitAtLastSlash(raw[1..]);
    path := if front.None? then "" else "/" + front.value;
    assert raw == path + "/" + last;
    key := Unescape(last);
    FollowLast(root, path, last);
    EscapeOfUnescape(last);
    hide *;
    ChildPathNamesChild(root, path, Resolve(root, path).value, key);
  }

  lemma FollowLast(root: Value, path: string, last: string)
    requires (path == "" || path[0] == '/') && '/' !in last && Resolve(root, path + "/" + last).Ok?
    ensures Resolve(root, path).Ok? && ValidEscapes(last)
  {
    var raw := path + "/" + last;
    assert [last][1..] == [];
    if path == "" {
      assert raw[1..] == last;
      SplitOfToken(last);
    } else {
      assert raw[1..] == path[1..] + "/" + last;
      SplitSnoc(path[1..], last);
      FollowSnoc(root, Split(path[1..]), last);
    }
  }
}
