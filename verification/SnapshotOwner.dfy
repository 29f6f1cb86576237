/** Whom a snapshot belongs to (internal/mcpserver/cache.go, principalSnapshotKey). */
module SnapshotOwner {
  import opened Sorting

  /** What distinguishes callers apart from their scopes. */
  datatype Identity = Identity(
    userID: int, apiKeyID: string, clientID: string, grantID: string, groupCode: string, credentialVersion: string)

  datatype Principal = Principal(id: Identity, scopes: seq<string>)

  datatype SnapshotKey = SnapshotKey(id: Identity, scopes: string)

  /** slices.Sort on a copy. */
  function SortStrings(s: seq<string>): (r: seq<string>)
    ensures |r| == |s|
  {
    if s == [] then [] else
      InsertKeepsSize(SortStrings(s[1..]), s[0]);
      Insert(SortStrings(s[1..]), s[0])
  }

  lemma {:induction false} InsertKeepsSize(s: seq<string>, key: string)
    ensures |Insert(s, key)| == |s| + 1
    ensures multiset(Insert(s, key)) == multiset(s) + multiset{key}
  {
    if s != [] && !Less(key, s[0]) {
      InsertKeepsSize(s[1..], key);
      assert s == [s[0]] + s[1..];
    }
  }

  function JoinWords(s: seq<string>): string {
    if s == [] then "" else if |s| == 1 then s[0] else s[0] + " " + JoinWords(s[1..])
  }

  function PrincipalSnapshotKey(p: Principal): SnapshotKey {
    SnapshotKey(p.id, JoinWords(SortStrings(p.scopes)))
  }

  // ---------- sorting ----------

  ghost predicate InOrder(s: seq<string>) {
    forall i, k :: 0 <= i < k < |s| ==> !Less(s[k], s[i])
  }

  lemma {:induction false} InsertKeepsOrder(s: seq<string>, key: string)
    requires InOrder(s)
    ensures InOrder(Insert(s, key))
  {
    if s == [] {
    } else if Less(key, s[0]) {
      forall i | 0 <= i < |s|
        ensures !Less(s[i], key)
      {
        LessIsTotal(s[i], key);
        if Less(s[i], key) {
          LessIsTransitive(s[i], key, s[0]);
          LessIsTotal(s[0], s[0]);
        }
      }
    } else {
      InsertKeepsOrder(s[1..], key);
      InsertKeepsSize(s[1..], key);
      var rest := Insert(s[1..], key);
      forall i | 0 <= i < |rest|
        ensures !Less(rest[i], s[0])
      {
        assert rest[i] in multiset(rest);
        assert rest[i] == key || rest[i] in s[1..];
      }
    }
  }

  /** Sorting permutes and brings into order. */
  lemma {:induction false} SortSorts(s: seq<string>)
    ensures InOrder(SortStrings(s)) && multiset(SortStrings(s)) == multiset(s)
  {
    if s != [] {
      SortSorts(s[1..]);
      InsertKeepsOrder(SortStrings(s[1..]), s[0]);
      InsertKeepsSize(SortStrings(s[1..]), s[0]);
      assert s == [s[0]] + s[1..];
    }
  }

  /** There is one ordered list of given strings. */
  lemma {:induction false} OrderIsUnique(s: seq<string>, t: seq<string>)
    requires InOrder(s) && InOrder(t) && multiset(s) == multiset(t)
    ensures s == t
  {
    assert |s| == |multiset(s)| == |multiset(t)| == |t|;
    if s != [] {
      assert s[0] in multiset(t) && t[0] in multiset(s);
      LessIsTotal(s[0], t[0]);
      assert s[0] == t[0] by {
        var i :| 0 <= i < |t| && t[i] == s[0];
        var k :| 0 <= k < |s| && s[k] == t[0];
      }
      assert s == [s[0]] + s[1..] && t == [t[0]] + t[1..];
      assert multiset(s[1..]) == multiset(s) - multiset{s[0]};
      OrderIsUnique(s[1..], t[1..]);
    }
  }

  // ---------- joining ----------

  predicate Word(s: string) {
    s != "" && ' ' !in s
  }

  lemma HeadOfSum(a: string, u: string)
    ensures if a == "" then a + u == u else (a + u)[0] == a[0]
  {
  }

  lemma {:induction false} FirstWordIsUnique(a: string, u: string, b: string, v: string)
    requires ' ' !in a && ' ' !in b && a + u == b + v
    requires (u == "" || u[0] == ' ') && (v == "" || v[0] == ' ')
    ensures a == b && u == v
  {
    HeadOfSum(a, u);
    HeadOfSum(b, v);
    if a != "" && b != "" {
      assert (a + u)[1..] == a[1..] + u && (b + v)[1..] == b[1..] + v;
      FirstWordIsUnique(a[1..], u, b[1..], v);
      assert a == [a[0]] + a[1..] && b == [b[0]] + b[1..];
    }
  }

  lemma {:induction false} JoinIsInjective(s: seq<string>, t: seq<string>)
    requires forall i :: 0 <= i < |s| ==> Word(s[i])
    requires forall i :: 0 <= i < |t| ==> Word(t[i])
    requires JoinWords(s) == JoinWords(t)
    ensures s == t
  {
    if s != [] && t != [] {
      var u := if |s| == 1 then "" else " " + JoinWords(s[1..]);
      var v := if |t| == 1 then "" else " " + JoinWords(t[1..]);
      assert JoinWords(s) == s[0] + u && JoinWords(t) == t[0] + v;
      FirstWordIsUnique(s[0], u, t[0], v);
      if |s| > 1 {
        assert u[1..] == JoinWords(s[1..]) && v[1..] == JoinWords(t[1..]);
        JoinIsInjective(s[1..], t[1..]);
      }
      assert s == [s[0]] + s[1..] && t == [t[0]] + t[1..];
    }
  }

  // ---------- the key ----------

  /** Two callers share snapshots exactly if they are the same apart from the order of their scopes, as
      long as scopes are words. */
  lemma SameKeyIffSamePrincipal(p: Principal, q: Principal)
    requires forall i :: 0 <= i < |p.scopes| ==> Word(p.scopes[i])
    requires forall i :: 0 <= i < |q.scopes| ==> Word(q.scopes[i])
    ensures PrincipalSnapshotKey(p) == PrincipalSnapshotKey(q) <==>
            p.id == q.id && multiset(p.scopes) == multiset(q.scopes)
  {
    var s, t := SortStrings(p.scopes), SortStrings(q.scopes);
    SortSorts(p.scopes);
    SortSorts(q.scopes);
    forall i | 0 <= i < |s|
      ensures Word(s[i])
    {
      assert s[i] in multiset(p.scopes);
    }
    forall i | 0 <= i < |t|
      ensures Word(t[i])
    {
      assert t[i] in multiset(q.scopes);
    }
    if PrincipalSnapshotKey(p) == PrincipalSnapshotKey(q) {
      JoinIsInjective(s, t);
    }
    if multiset(p.scopes) == multiset(q.scopes) {
      OrderIsUnique(s, t);
    }
  }

  /** With a space in a scope, callers with different scopes share a key. */
  lemma SpacesCollide(id: Identity)
    ensures PrincipalSnapshotKey(Principal(id, ["a b"])) == PrincipalSnapshotKey(Principal(id, ["a", "b"]))
  {
    assert SortStrings(["a b"]) == ["a b"];
    assert Less("a", "b") && ["a", "b"][1..] == ["b"];
    assert SortStrings(["b"]) == ["b"];
    assert SortStrings(["a", "b"]) == ["a", "b"];
    assert ["a", "b"][0] + " " + JoinWords(["b"]) == "a b";
  }
}
