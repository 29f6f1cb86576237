/** File hashes of a native release, as whole maps and per top-level directory
    (internal/mgsctl/native_release.go). */
module NativeReleaseFiles {
  /** What hashing a file yields is never empty. */
  type Digest = d: string | d != "" witness "0"

  /** Relative slash-separated path to digest. */
  type Hashes = map<string, Digest>

  datatype Top = Bin | Web | Api

  /** The three in the order every loop takes them. */
  function Nth(i: nat): (t: Top)
    requires i < 3
    ensures Index(t) == i
  {
    if i == 0 then Bin else if i == 1 then Web else Api
  }

  function Index(t: Top): (i: nat)
    ensures i < 3
  {
    match t
    case Bin => 0
    case Web => 1
    case Api => 2
  }

  function Name(t: Top): string {
    match t
    case Bin => "bin"
    case Web => "web"
    case Api => "api"
  }

  function Prefix(t: Top): string {
    Name(t) + "/"
  }

  /** The files below one top-level directory, by their path inside it. */
  function ForTop(hashes: Hashes, t: Top): Hashes {
    var p := Prefix(t);
    map k | k in Below(hashes, p) :: hashes[p + k]
  }

  function Below(hashes: Hashes, p: string): (inside: set<string>)
    ensures forall k :: k in inside <==> p + k in hashes
  {
    var inside := set k | k in hashes && p <= k :: k[|p|..];
    assert forall k :: p + k in hashes ==> p <= p + k && (p + k)[|p|..] == k;
    assert forall k :: k in hashes && p <= k ==> k == p + k[|p|..];
    inside
  }

  predicate ValidDigest(d: string) {
    |d| == 64 && forall i :: 0 <= i < |d| ==> '0' <= d[i] <= '9' || 'a' <= d[i] <= 'f' || 'A' <= d[i] <= 'F'
  }

  /** The part of a path before its first slash. */
  function FirstSegment(path: string): string {
    if path == "" || path[0] == '/' then "" else [path[0]] + FirstSegment(path[1..])
  }

  predicate ValidHashes(hashes: Hashes) {
    forall k :: k in hashes ==> FirstSegment(k) in ["bin", "web", "api"] && ValidDigest(hashes[k])
  }

  /** No top-level name is itself a file of the release. */
  predicate NoBareTop(hashes: Hashes) {
    "bin" !in hashes && "web" !in hashes && "api" !in hashes
  }

  /** A missing key reads as the empty string. */
  function Lookup(m: map<string, string>, k: string): string {
    if k in m then m[k] else ""
  }

  predicate EqualStringMaps(left: map<string, string>, right: map<string, string>) {
    |left| == |right| && forall k :: k in left ==> Lookup(right, k) == left[k]
  }

  /** The comparison decides equality as long as no value on its left is empty. */
  lemma EqualStringMapsDecides(left: map<string, string>, right: map<string, string>)
    requires forall k :: k in left ==> left[k] != ""
    ensures EqualStringMaps(left, right) <==> left == right
  {
    if EqualStringMaps(left, right) {
      assert left.Keys <= right.Keys;
      SubsetOfSameSize(left.Keys, right.Keys);
    }
  }

  lemma {:induction false} SubsetOfSameSize<T>(a: set<T>, b: set<T>)
    requires a <= b && |a| == |b|
    ensures a == b
  {
    if x :| x in b && x !in a {
      SubsetSize(a, b - {x});
    }
  }

  lemma {:induction false} SubsetSize<T>(a: set<T>, b: set<T>)
    requires a <= b
    ensures |a| <= |b|
  {
    if x :| x in a {
      SubsetSize(a - {x}, b - {x});
    }
  }

  lemma {:induction false} LengthsAreBounded(keys: set<string>) returns (n: nat)
    ensures forall k :: k in keys ==> |k| <= n
  {
    if key :| key in keys {
      var m := LengthsAreBounded(keys - {key});
      n := if |key| > m then |key| else m;
    } else {
      n := 0;
    }
  }

  /** It decides equality with every map exactly if no value on its left is empty. */
  lemma DecidesUnlessEmpty(left: map<string, string>)
    ensures (forall right :: EqualStringMaps(left, right) <==> left == right) <==> forall k :: k in left ==> left[k] != ""
  {
    if key :| key in left && left[key] == "" {
      var n := LengthsAreBounded(left.Keys);
      var other := seq(n + 1, _ => 'x');
      assert |other| > n;
      var right := (left - {key})[other := ""];
      assert right.Keys == left.Keys - {key} + {other};
      assert |right| == |right.Keys| && |left| == |left.Keys|;
      assert other in right && other !in left;
      assert EqualStringMaps(left, right) && left != right;
    } else {
      forall right: map<string, string>
        ensures EqualStringMaps(left, right) <==> left == right
      {
        EqualStringMapsDecides(left, right);
      }
    }
  }

  /** With an empty digest it calls different maps equal. */
  lemma EmptyDigestDeceives()
    ensures EqualStringMaps(map["bin/a" := ""], map["bin/b" := ""]) && map["bin/a" := ""] != map["bin/b" := ""]
  {
    assert "bin/a" !in map["bin/b" := ""] by {
      assert "bin/a"[4] != "bin/b"[4];
    }
    assert "bin/a" in map["bin/a" := ""];
  }

  /** Every valid path that is not a bare top-level name lies in exactly one of the three. */
  lemma {:induction false} PathHasTop(path: string)
    requires FirstSegment(path) in ["bin", "web", "api"] && path !in ["bin", "web", "api"]
    ensures exists t :: Prefix(t) <= path
  {
    var name := FirstSegment(path);
    FirstSegmentEnds(path);
    var t := if name == "bin" then Bin else if name == "web" then Web else Api;
    assert Prefix(t) <= path;
  }

  lemma {:induction false} FirstSegmentEnds(path: string)
    ensures FirstSegment(path) == path || FirstSegment(path) + "/" <= path
  {
    if path != "" && path[0] != '/' {
      FirstSegmentEnds(path[1..]);
      assert path == [path[0]] + path[1..];
    } else if path != "" {
      assert path[..1] == "/";
    }
  }

  lemma PartDeterminesEntry(a: Hashes, b: Hashes, k: string)
    requires ValidHashes(a) && NoBareTop(a) && k in a
    requires forall t :: ForTop(a, t) == ForTop(b, t)
    ensures k in b && b[k] == a[k]
  {
    PathHasTop(k);
    var t :| Prefix(t) <= k;
    var rest := k[|Prefix(t)|..];
    assert k == Prefix(t) + rest;
    assert rest in ForTop(a, t);
    assert rest in ForTop(b, t);
  }

  /** Comparing whole releases is comparing their three directories, provided no top-level name is
      itself a file. */
  lemma WholeIsThreeParts(a: Hashes, b: Hashes)
    requires ValidHashes(a) && ValidHashes(b) && NoBareTop(a) && NoBareTop(b)
    ensures a == b <==> forall t :: ForTop(a, t) == ForTop(b, t)
  {
    if forall t :: ForTop(a, t) == ForTop(b, t) {
      forall k | k in a
        ensures k in b && b[k] == a[k]
      {
        PartDeterminesEntry(a, b, k);
      }
      forall k | k in b
        ensures k in a
      {
        PartDeterminesEntry(b, a, k);
      }
    }
  }

  /** A bare top-level file is invisible in the three parts. */
  lemma BareTopIsInvisible(digest: Digest)
    ensures forall t :: ForTop(map["web" := digest], t) == ForTop(map[], t)
  {
    forall t, k
      ensures Prefix(t) + k !in map["web" := digest]
    {
      assert |Prefix(t) + k| > |"web"|;
    }
  }
}
