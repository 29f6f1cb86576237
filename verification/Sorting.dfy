/** The order of sort.Strings and the one way to list a set of keys in it. */
module Sorting {
  /** Byte order of strings; on UTF-8 text it is the order of the characters. */
  predicate Less(a: string, b: string) {
    b != "" && (a == "" || a[0] < b[0] || (a[0] == b[0] && Less(a[1..], b[1..])))
  }

  lemma {:induction false} LessIsTotal(a: string, b: string)
    ensures Less(a, b) || a == b || Less(b, a)
    ensures !(Less(a, b) && Less(b, a)) && !Less(a, a)
  {
    if a != "" && b != "" {
      LessIsTotal(a[1..], b[1..]);
      assert a == [a[0]] + a[1..] && b == [b[0]] + b[1..];
    }
    if a != "" {
      LessIsTotal(a[1..], a[1..]);
    }
  }

  lemma {:induction false} LessIsTransitive(a: string, b: string, c: string)
    requires Less(a, b) && Less(b, c)
    ensures Less(a, c)
  {
    if a != "" && a[0] == b[0] == c[0] {
      LessIsTransitive(a[1..], b[1..], c[1..]);
    }
  }

  ghost predicate Ascending(s: seq<string>) {
    forall i, k :: 0 <= i < k < |s| ==> Less(s[i], s[k])
  }

  /** s lists exactly the keys, each once, in order. */
  ghost predicate Lists(s: seq<string>, keys: set<string>) {
    Ascending(s) && forall k :: k in keys <==> k in s
  }

  lemma {:induction false} ListsIsUnique(s: seq<string>, t: seq<string>, keys: set<string>)
    requires Lists(s, keys) && Lists(t, keys)
    ensures s == t
  {
    assert t != [] ==> t[0] in keys;
    if s != [] {
      assert s[0] in keys && s[0] in t;
      assert t[0] in keys && t[0] in s;
      LessIsTotal(s[0], t[0]);
      assert s[0] == t[0];
      RestLists(s, keys);
      RestLists(t, keys);
      ListsIsUnique(s[1..], t[1..], keys - {s[0]});
      assert s == [s[0]] + s[1..] && t == [t[0]] + t[1..];
    }
  }

  lemma RestLists(s: seq<string>, keys: set<string>)
    requires Lists(s, keys) && s != []
    ensures Lists(s[1..], keys - {s[0]})
  {
    assert s == [s[0]] + s[1..];
    forall i | 0 < i < |s|
      ensures s[i] != s[0]
    {
      LessIsTotal(s[0], s[i]);
    }
  }

  /** Puts one more key into an ascending list. */
  function Insert(s: seq<string>, key: string): seq<string> {
    if s == [] || Less(key, s[0]) then [key] + s else [s[0]] + Insert(s[1..], key)
  }

  lemma {:induction false} InsertLists(s: seq<string>, key: string, keys: set<string>)
    requires Lists(s, keys) && key !in keys
    ensures Lists(Insert(s, key), keys + {key})
  {
    if s == [] || Less(key, s[0]) {
      forall i | 0 < i < |s|
        ensures Less(key, s[i])
      {
        LessIsTransitive(key, s[0], s[i]);
      }
    } else {
      assert s[0] in keys;
      LessIsTotal(key, s[0]);
      RestLists(s, keys);
      InsertLists(s[1..], key, keys - {s[0]});
      var rest := Insert(s[1..], key);
      assert keys + {key} == {s[0]} + (keys - {s[0]} + {key});
      forall i | 0 <= i < |rest|
        ensures Less(s[0], rest[i])
      {
        assert rest[i] in keys - {s[0]} + {key};
        if rest[i] != key {
          assert rest[i] in s;
        }
      }
    }
  }

  /** The keys in order. */
  ghost function Sorted(keys: set<string>): (s: seq<string>)
    ensures Lists(s, keys)
  {
    if keys == {} then []
    else
      var key :| key in keys;
      InsertLists(Sorted(keys - {key}), key, keys - {key});
      assert keys - {key} + {key} == keys;
      Insert(Sorted(keys - {key}), key)
  }

  /** Collects the keys of a map, which come in no particular order, and sorts them: the result does not
      depend on the order they came in. */
  method SortedKeys(keys: set<string>) returns (s: seq<string>)
    ensures s == Sorted(keys)
  {
    s := [];
    var left := keys;
    while left != {}
      invariant left <= keys && Lists(s, keys - left)
    {
      var key :| key in left;
      InsertLists(s, key, keys - left);
      assert keys - (left - {key}) == keys - left + {key};
      s := Insert(s, key);
      left := left - {key};
    }
    assert keys - {} == keys;
    ListsIsUnique(s, Sorted(keys), keys);
  }
}
