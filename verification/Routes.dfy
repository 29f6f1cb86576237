/** Which method and path the published API allows (api/openapi/routes.go). Paths are texts of
    characters; templates name parameters in braces. */
module Routes {
  import opened Wrappers
  import opened Strings

  type Contract = map<string, set<string>>

  // ---------- templates ----------

  /** A segment with a parameter: what stands before the first opening brace, the name up to the first
      closing one, and the rest. A closing brace before the opening one makes the segment literal. */
  ghost predicate Parameter(segment: string, prefix: string, name: string, suffix: string) {
    && segment == prefix + "{" + name + "}" + suffix
    && '{' !in prefix && '}' !in prefix && '}' !in name
  }

  ghost predicate HasParameter(segment: string) {
    exists prefix, name, suffix :: Parameter(segment, prefix, name, suffix)
  }

  ghost predicate Instance(value: string, prefix: string, suffix: string) {
    exists v :: v != "" && value == prefix + v + suffix
  }

  /** A parameter stands for any text but the empty one; all else must be equal. */
  ghost predicate SegmentMatches(segment: string, value: string) {
    if HasParameter(segment)
    then exists prefix, name, suffix :: Parameter(segment, prefix, name, suffix) && Instance(value, prefix, suffix)
    else value == segment
  }

  /** The segments of an absolute path; the root has none. */
  function SplitAbsolutePath(path: string): Option<seq<string>> {
    if path == "/" then Some([])
    else if path == "" || path[0] != '/' then None
    else Some(Split(path[1..]))
  }

  /** A path matches a template if both are absolute and agree segment by segment. */
  ghost predicate Matches(template: string, path: string) {
    var t, p := SplitAbsolutePath(template), SplitAbsolutePath(path);
    t.Some? && p.Some? && |t.value| == |p.value| &&
    forall i :: 0 <= i < |t.value| ==> SegmentMatches(t.value[i], p.value[i])
  }

  /** Segments are the pieces between the slashes. */
  lemma SegmentsAreExact(path: string, segments: seq<string>)
    ensures SplitAbsolutePath(path) == Some(segments) <==>
            SlashFree(segments) && segments != [""] && path == "/" + Join(segments)
  {
    if SplitAbsolutePath(path) == Some(segments) && path != "/" {
      JoinOfSplit(path[1..]);
      assert path == "/" + path[1..];
    }
    if SlashFree(segments) && segments != [""] && path == "/" + Join(segments) && segments != [] {
      SplitOfJoin(segments);
      assert path[1..] == Join(segments);
      assert Split("") == [""];
    }
  }

  lemma ParameterIsUnique(segment: string, prefix: string, name: string, suffix: string)
    requires Parameter(segment, prefix, name, suffix)
    ensures var open, close := IndexOf(segment, '{'), IndexOf(segment, '}');
            0 <= open <= close && prefix == segment[..open] && suffix == segment[close + 1..]
  {
    var open, close := IndexOf(segment, '{'), IndexOf(segment, '}');
    var o, c := |prefix|, |prefix| + 1 + |name|;
    assert segment[o] == '{' && segment[c] == '}';
    assert segment[..o] == prefix && segment[..c] == prefix + "{" + name;
    FirstPlace(segment, '{', o);
    FirstPlace(segment, '}', c);
  }

  lemma FirstPlace(s: string, c: char, i: nat)
    requires i < |s| && s[i] == c && c !in s[..i]
    ensures IndexOf(s, c) == i
  {
    var k := IndexOf(s, c);
    assert c in s;
    assert forall j :: 0 <= j < i ==> s[j] == s[..i][j];
    assert forall j :: 0 <= j < k ==> s[j] == s[..k][j];
  }

  lemma InstanceIsBetween(value: string, prefix: string, suffix: string)
    ensures Instance(value, prefix, suffix) <==>
            prefix <= value && |value| > |prefix| + |suffix| && value[|value| - |suffix|..] == suffix
  {
    if v :| v != "" && value == prefix + v + suffix {
      assert value[..|prefix|] == prefix && value[|value| - |suffix|..] == suffix;
    }
    if prefix <= value && |value| > |prefix| + |suffix| && value[|value| - |suffix|..] == suffix {
      var v := value[|prefix|..|value| - |suffix|];
      assert value == prefix + v + suffix;
    }
  }

  /** Compares one segment as the loop body does. */
  method MatchSegment(segment: string, value: string) returns (ok: bool)
    ensures ok <==> SegmentMatches(segment, value)
  {
    var open, close := IndexOf(segment, '{'), IndexOf(segment, '}');
    if open < 0 || close < open {
      NoParameter(segment);
      return segment == value;
    }
    var prefix, suffix := segment[..open], segment[close + 1..];
    TheParameter(segment, value);
    InstanceIsBetween(value, prefix, suffix);
    hide *;
    return prefix <= value && |suffix| <= |value| && value[|value| - |suffix|..] == suffix
        && |value| > |prefix| + |suffix|;
  }

  lemma NoParameter(segment: string)
    requires IndexOf(segment, '{') < 0 || IndexOf(segment, '}') < IndexOf(segment, '{')
    ensures !HasParameter(segment)
  {
    if prefix, name, suffix :| Parameter(segment, prefix, name, suffix) {
      ParameterIsUnique(segment, prefix, name, suffix);
    }
  }

  /** A segment with an opening brace and no closing one before it has a parameter there. */
  lemma TheParameter(segment: string, value: string)
    requires 0 <= IndexOf(segment, '{') <= IndexOf(segment, '}')
    ensures SegmentMatches(segment, value) <==>
            Instance(value, segment[..IndexOf(segment, '{')], segment[IndexOf(segment, '}') + 1..])
  {
    hide Instance;
    var open, close := IndexOf(segment, '{'), IndexOf(segment, '}');
    var name := segment[open + 1..close];
    BracesDelimit(segment);
    hide IndexOf;
    hide Parameter;
    assert HasParameter(segment);
    if prefix, other, suffix :| Parameter(segment, prefix, other, suffix) && Instance(value, prefix, suffix) {
      ParameterIsUnique(segment, prefix, other, suffix);
    }
  }

  lemma BracesDelimit(segment: string)
    requires 0 <= IndexOf(segment, '{') <= IndexOf(segment, '}')
    ensures var open, close := IndexOf(segment, '{'), IndexOf(segment, '}');
            open < close && Parameter(segment, segment[..open], segment[open + 1..close], segment[close + 1..])
  {
    hide Parameter;
    hide IndexOf;
    CutAtBraces(segment, IndexOf(segment, '{'), IndexOf(segment, '}'));
  }

  lemma CutAtBraces(s: string, open: nat, close: nat)
    requires open <= close < |s| && s[open] == '{' && s[close] == '}' && '{' !in s[..open] && '}' !in s[..close]
    ensures open < close && Parameter(s, s[..open], s[open + 1..close], s[close + 1..])
  {
    assert s[..open] == s[..close][..open];
    assert s[open + 1..close] == s[..close][open + 1..];
    assert s == s[..open] + "{" + s[open + 1..close] + "}" + s[close + 1..];
  }

  method MatchPathTemplate(template: string, path: string) returns (ok: bool)
    ensures ok <==> Matches(template, path)
  {
    var t, p := SplitAbsolutePath(template), SplitAbsolutePath(path);
    if t.None? || p.None? {
      return false;
    }
    if |t.value| != |p.value| {
      return false;
    }
    for i := 0 to |t.value|
      invariant forall k :: 0 <= k < i ==> SegmentMatches(t.value[k], p.value[k])
    {
      var same := MatchSegment(t.value[i], p.value[i]);
      if !same {
        return false;
      }
    }
    return true;
  }

  // ---------- specificity ----------

  /** The characters outside of braces, given whether a brace is open at the start. */
  function Literals(s: string, inside: bool): (n: nat)
    ensures n <= |s|
  {
    if s == "" then 0
    else if s[0] == '{' then Literals(s[1..], true)
    else if s[0] == '}' then Literals(s[1..], false)
    else (if inside then 0 else 1) + Literals(s[1..], inside)
  }

  method PathTemplateSpecificity(template: string) returns (specificity: nat)
    ensures specificity == Literals(template, false)
  {
    specificity := 0;
    var inParameter := false;
    for i := 0 to |template|
      invariant specificity + Literals(template[i..], inParameter) == Literals(template, false)
    {
      assert template[i..][1..] == template[i + 1..];
      match template[i]
      case '{' => inParameter := true;
      case '}' => inParameter := false;
      case _ =>
        if !inParameter {
          specificity := specificity + 1;
        }
    }
  }

  // ---------- the decision ----------

  /** The template matches and no matching one is more specific. */
  ghost predicate Best(routes: Contract, template: string, path: string) {
    && template in routes && Matches(template, path)
    && forall other :: other in routes && Matches(other, path) ==>
         Literals(other, false) <= Literals(template, false)
  }

  ghost predicate Allowed(routes: Contract, verb: string, path: string) {
    exists template :: Best(routes, template, path) && verb in routes[template]
  }

  /** ASCII letters become small; everything else stays. */
  function ToLower(s: string): (r: string)
    ensures |r| == |s|
    ensures forall i :: 0 <= i < |s| ==>
              r[i] as int == if 'A' <= s[i] <= 'Z' then s[i] as int - 'A' as int + 'a' as int else s[i] as int
  {
    if s == "" then "" else
      [if 'A' <= s[0] <= 'Z' then ((s[0] as int) + 32) as char else s[0]] + ToLower(s[1..])
  }

  /** The method is looked up in small letters, whatever white space surrounds it. */
  lemma VerbInAnyCase(left: string, verb: string, right: string)
    requires Spaces(left) && Spaces(right)
    requires forall i :: 0 <= i < |verb| ==> 'A' <= verb[i] <= 'Z' || 'a' <= verb[i] <= 'z'
    ensures ToLower(TrimSpace(left + verb + right)) == ToLower(verb)
    ensures forall i :: 0 <= i < |verb| ==> 'a' <= ToLower(verb)[i] <= 'z'
  {
    if verb != "" {
      LettersAreNoSpace(verb[0]);
      LettersAreNoSpace(verb[|verb| - 1]);
    }
    hide *;
    TrimSpaceIsCore(left, verb, right);
  }

  lemma LettersAreNoSpace(c: char)
    requires 'A' <= c <= 'Z' || 'a' <= c <= 'z'
    ensures !IsSpace(c)
  {
  }

  lemma GetIsSmall()
    ensures ToLower("GET") == "get" && ToLower("Patch") == "patch"
  {
  }

  /** Some most specific template that matches the path lists the method. Templates come in any order;
      the answer does not depend on it. */
  method Allows(contract: Option<Contract>, verb: string, path: string) returns (allowed: bool)
    ensures allowed <==> contract.Some? && Allowed(contract.value, ToLower(TrimSpace(verb)), path)
  {
    if contract.None? {
      return false;
    }
    var routes := contract.value;
    var name := ToLower(TrimSpace(verb));
    var bestSpecificity := -1;
    allowed := false;
    var left := routes.Keys;
    ghost var seen: Contract := map[];
    while left != {}
      invariant left <= routes.Keys
      invariant seen == map t | t in routes && t !in left :: routes[t]
      invariant bestSpecificity >= -1
      invariant forall t :: t in seen && Matches(t, path) ==> Literals(t, false) <= bestSpecificity
      invariant bestSpecificity >= 0 ==> exists t :: Best(seen, t, path) && Literals(t, false) == bestSpecificity
      invariant allowed <==> Allowed(seen, name, path)
    {
      var template :| template in left;
      left := left - {template};
      ghost var before := seen;
      seen := before[template := routes[template]];
      var matches := MatchPathTemplate(template, path);
      if !matches {
        SameBest(before, seen, template, path);
        continue;
      }
      var specificity := PathTemplateSpecificity(template);
      if specificity < bestSpecificity {
        SameBest(before, seen, template, path);
        continue;
      }
      var methodAllowed := name in routes[template];
      if specificity > bestSpecificity {
        bestSpecificity := specificity;
        allowed := methodAllowed;
        assert Best(seen, template, path);
      } else {
        allowed := allowed || methodAllowed;
        assert Best(seen, template, path);
        EquallyGood(before, seen, template, path);
      }
    }
    assert seen == routes;
  }

  /** A template that does not match, or less specifically than another, changes nothing. */
  lemma SameBest(before: Contract, after: Contract, template: string, path: string)
    requires template !in before && template in after && after == before[template := after[template]]
    requires !Matches(template, path) ||
             exists t :: Best(before, t, path) && Literals(template, false) < Literals(t, false)
    ensures forall t :: Best(after, t, path) <==> Best(before, t, path)
  {
  }

  lemma EquallyGood(before: Contract, after: Contract, template: string, path: string)
    requires template !in before && template in after && after == before[template := after[template]]
    requires Matches(template, path)
    requires exists t :: Best(before, t, path) && Literals(template, false) == Literals(t, false)
    ensures forall t :: Best(after, t, path) <==> Best(before, t, path) || t == template
  {
  }

  // ---------- a literal path takes precedence ----------

  function OpenAfter(s: string, inside: bool): bool {
    if s == "" then inside
    else OpenAfter(s[1..], if s[0] == '{' then true else if s[0] == '}' then false else inside)
  }

  lemma {:induction false} LiteralsOfSum(s: string, t: string, inside: bool)
    ensures Literals(s + t, inside) == Literals(s, inside) + Literals(t, OpenAfter(s, inside))
  {
    if s == "" {
      assert s + t == t;
    } else {
      assert (s + t)[1..] == s[1..] + t;
      LiteralsOfSum(s[1..], t, if s[0] == '{' then true else if s[0] == '}' then false else inside);
    }
  }

  lemma {:induction false} NamesDoNotCount(name: string)
    requires '}' !in name
    ensures Literals(name, true) == 0 && OpenAfter(name, true)
  {
    if name != "" {
      NamesDoNotCount(name[1..]);
    }
  }

  /** A parameter and its braces count for nothing, all around it counts in full. */
  lemma ParameterDoesNotCount(prefix: string, name: string, suffix: string)
    requires '{' !in prefix && '}' !in prefix && '}' !in name
    ensures Literals(prefix + "{" + name + "}" + suffix, false) == |prefix| + Literals(suffix, false)
    ensures '{' !in suffix && '}' !in suffix ==> Literals(suffix, false) == |suffix|
  {
    var brace, named := prefix + "{", prefix + "{" + name;
    NoBraces(prefix);
    if '{' !in suffix && '}' !in suffix {
      NoBraces(suffix);
    }
    OpenAfterBrace(prefix, false);
    ClosedAfterBrace(named, false);
    NamesDoNotCount(name);
    BraceCountsNothing('{', OpenAfter(prefix, false));
    BraceCountsNothing('}', OpenAfter(named, false));
    hide *;
    LiteralsOfSum(prefix, "{", false);
    LiteralsOfSum(brace, name, false);
    LiteralsOfSum(named, "}", false);
    LiteralsOfSum(named + "}", suffix, false);
  }

  lemma BraceCountsNothing(brace: char, inside: bool)
    requires brace == '{' || brace == '}'
    ensures Literals([brace], inside) == 0
  {
    assert [brace][1..] == "";
  }

  lemma {:induction false} ClosedAfterBrace(prefix: string, inside: bool)
    ensures !OpenAfter(prefix + "}", inside)
  {
    var s := prefix + "}";
    if prefix == "" {
      assert s[1..] == "";
    } else {
      assert s[1..] == prefix[1..] + "}";
      ClosedAfterBrace(prefix[1..], if s[0] == '{' then true else if s[0] == '}' then false else inside);
    }
  }

  /** A segment has no more literal characters than a value it matches, and fewer if it has a parameter. */
  lemma SegmentLiterals(segment: string, value: string, inside: bool)
    requires SegmentMatches(segment, value)
    ensures Literals(segment, inside) <= |value|
    ensures segment != value ==> Literals(segment, inside) < |value|
  {
    if HasParameter(segment) {
      var prefix, name, suffix :| Parameter(segment, prefix, name, suffix) && Instance(value, prefix, suffix);
      LiteralsOfSum(prefix + "{" + name + "}", suffix, inside);
      LiteralsOfSum(prefix + "{" + name, "}", inside);
      LiteralsOfSum(prefix + "{", name, inside);
      LiteralsOfSum(prefix, "{", inside);
      OpenAfterBrace(prefix, inside);
      NamesDoNotCount(name);
    }
  }

  lemma {:induction false} OpenAfterBrace(prefix: string, inside: bool)
    ensures OpenAfter(prefix + "{", inside)
  {
    var s := prefix + "{";
    if prefix == "" {
      assert s[1..] == "";
    } else {
      assert s[1..] == prefix[1..] + "{";
      OpenAfterBrace(prefix[1..], if s[0] == '{' then true else if s[0] == '}' then false else inside);
    }
  }

  lemma {:induction false} JoinLiterals(segments: seq<string>, values: seq<string>, inside: bool)
    requires |segments| == |values| > 0
    requires forall i :: 0 <= i < |segments| ==> SegmentMatches(segments[i], values[i])
    ensures Literals(Join(segments), inside) <= |Join(values)|
    ensures segments != values ==> Literals(Join(segments), inside) < |Join(values)|
  {
    SegmentLiterals(segments[0], values[0], inside);
    if |segments| > 1 {
      LiteralsOfSum(segments[0] + "/", Join(segments[1..]), inside);
      LiteralsOfSum(segments[0], "/", inside);
      JoinLiterals(segments[1..], values[1..], OpenAfter(segments[0] + "/", inside));
    }
    assert segments == [segments[0]] + segments[1..] && values == [values[0]] + values[1..];
  }

  /** A template that is not the path itself is less specific than the path is long. */
  lemma MatchIsLessSpecific(template: string, path: string)
    requires Matches(template, path) && template != path
    ensures Literals(template, false) < |path|
  {
    var t, p := SplitAbsolutePath(template).value, SplitAbsolutePath(path).value;
    SegmentsAreExact(template, t);
    SegmentsAreExact(path, p);
    assert t != [];
    JoinLiterals(t, p, false);
    LiteralsOfSum("/", Join(t), false);
  }

  lemma {:induction false} NoBraces(s: string)
    requires '{' !in s && '}' !in s
    ensures Literals(s, false) == |s|
  {
    if s != "" {
      NoBraces(s[1..]);
    }
  }

  /** Where the contract has the very path, its methods alone decide, whatever parameters would match. */
  lemma ExactPathDecides(routes: Contract, verb: string, path: string)
    requires path in routes && SplitAbsolutePath(path).Some? && '{' !in path && '}' !in path
    ensures Allowed(routes, verb, path) <==> verb in routes[path]
  {
    var p := SplitAbsolutePath(path).value;
    SegmentsAreExact(path, p);
    NoBraces(path);
    forall i | 0 <= i < |p|
      ensures SegmentMatches(p[i], p[i])
    {
      InJoin(p, i, '{');
    }
    assert Matches(path, path);
    forall other | other in routes && Matches(other, path) && other != path
      ensures Literals(other, false) < Literals(path, false)
    {
      MatchIsLessSpecific(other, path);
    }
    assert Best(routes, path, path);
  }

  lemma {:induction false} InJoin(parts: seq<string>, i: nat, c: char)
    requires i < |parts|
    ensures c in parts[i] ==> c in Join(parts)
  {
    if i > 0 {
      InJoin(parts[1..], i - 1, c);
    }
  }
}
