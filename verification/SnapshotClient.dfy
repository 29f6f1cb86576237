/** What a client obtains by following next_offset and the reference paths, as the description of
    read_tool_result tells it to (internal/mcpserver/read.go and server.go). */
module SnapshotClient {
  import opened Wrappers
  import opened Decimal
  import opened Bytes
  import opened Json
  import opened JsonPointer
  import opened ReadPage
  import Sorting
  import Utf8

  /** The server side of one token: the stored value and the response budget. */
  datatype Snapshot = Snapshot(fits: Envelope -> bool, entryFits: Entry -> bool, token: string, root: Value)

  const PATH_MAX := 4096
  const SNAPSHOT_MAX := 0x80_0000

  /** Lengths within a snapshot are bounded by its size, and JSON texts are UTF-8. */
  predicate Stored(v: Value)
    decreases v
  {
    match v
    case Text(s) => |s| <= SNAPSHOT_MAX && Utf8.Valid(s)
    case Array(items) => |items| <= SNAPSHOT_MAX && forall i :: 0 <= i < |items| ==> Stored(items[i])
    case Object(members) => |members| <= SNAPSHOT_MAX && forall key :: key in members ==> Stored(members[key])
    case _ => true
  }

  function At(s: Snapshot, path: string): Reader {
    Reader(s.fits, s.entryFits, s.token, path)
  }

  /** The arguments the input schema admits; a limit of 0 stands for an absent one. */
  predicate Admitted(path: string, offset: int, limit: int) {
    |path| <= PATH_MAX && 0 <= offset <= SNAPSHOT_MAX && 0 <= limit <= DEFAULT_LIMIT
  }

  /** A page that says what ReadPage promises about the value v. */
  ghost predicate PageOf(c: Reader, offset: nat, limit: nat, v: Value, page: Envelope) {
    match v
    case Text(s) =>
      && page.next.Some? && offset <= page.next.value <= |s|
      && page == TextPage(c, offset, page.next.value, s)
      && FirstToFit(c, s, offset, EffectiveLimit(limit), page.next.value)
      && (offset < |s| ==> offset < page.next.value)
      && (Utf8.Valid(s) && page.next.value < |s| ==> Utf8.RuneStart(s[page.next.value]))
    case Null => page == ScalarPage(c, offset, v)
    case Bool(_) => page == ScalarPage(c, offset, v)
    case Number(_) => page == ScalarPage(c, offset, v)
    case _ =>
      && page.items.Some? && Lists(c, v, offset, page.items.value)
      && page == EntriesPage(c, offset, Count(v), page.items.value)
      && (page.items.value == [] ==> offset == Count(v))
      && |page.items.value| <= EffectiveLimit(limit)
      && (offset + |page.items.value| < Count(v) && |page.items.value| < EffectiveLimit(limit) ==>
            Full(c, v, offset, page.items.value))
  }

  /** Some page of the value cannot be sent: the path alone, a key, or a few bytes of text exceed the
      budget. */
  ghost predicate OverBudget(c: Reader, v: Value) {
    match v
    case Text(s) => exists k, next :: 0 <= k <= next <= |s| && next <= k + 4 && !c.fits(TextPage(c, k, next, s))
    case Null => exists k :: !c.fits(ScalarPage(c, k, v))
    case Bool(_) => exists k :: !c.fits(ScalarPage(c, k, v))
    case Number(_) => exists k :: !c.fits(ScalarPage(c, k, v))
    case _ => exists k :: 0 <= k < Count(v) && Full(c, v, k, [])
  }

  /** The handler of read_tool_result once the token has been accepted. */
  method ReadToolResult(s: Snapshot, path: string, offset: int, limit: int) returns (r: Result<Envelope>)
    ensures !Admitted(path, offset, limit) || Resolve(s.root, path).Err? ==> r.Err?
    ensures r.Ok? ==> PageOf(At(s, path), offset, limit, Resolve(s.root, path).value, r.value)
    ensures r.Ok? ==>
              s.fits(r.value) || (var v := Resolve(s.root, path).value; Container(v) && offset == Count(v))
    ensures r.Err? && Admitted(path, offset, limit) && Resolve(s.root, path).Ok? ==>
              match Resolve(s.root, path).value
              case Text(t) => offset > |t| || (offset < |t| && !Utf8.RuneStart(t[offset])) || OverBudget(At(s, path), Text(t))
              case Array(items) => offset > |items| || OverBudget(At(s, path), Array(items))
              case Object(members) => offset > |members| || OverBudget(At(s, path), Object(members))
              case v => OverBudget(At(s, path), v)
  {
    if !Admitted(path, offset, limit) {
      return Err("invalid tool arguments");
    }
    var found := JsonPointer.JsonPointer(s.root, path);
    if found.Err? {
      return Err(found.error);
    }
    r := ReadPage.ReadPage(At(s, path), offset, limit, found.value);
  }

  // ---------- following next_offset ----------

  /** The entry is that of member i, shown as itself or by reference. */
  ghost predicate EntryOf(c: Reader, v: Value, i: nat, e: Entry)
    requires Container(v) && i < Count(v)
  {
    e == RealEntry(c, v, i) || e == ReferenceEntry(c, v, i)
  }

  /** The entries are those of the first members, each once and in order. */
  ghost predicate Prefix(c: Reader, v: Value, entries: seq<Entry>)
    requires Container(v)
  {
    |entries| <= Count(v) && forall i :: 0 <= i < |entries| ==> EntryOf(c, v, i, entries[i])
  }

  lemma NextIsEntry(c: Reader, v: Value, offset: nat, items: seq<Entry>)
    requires Container(v) && offset + |items| < Count(v)
    ensures EntryOf(c, v, offset + |items|, NextEntry(c, v, offset, items))
  {
  }

  lemma PageExtends(c: Reader, v: Value, entries: seq<Entry>, items: seq<Entry>)
    requires Container(v) && Prefix(c, v, entries) && Lists(c, v, |entries|, items)
    ensures Prefix(c, v, entries + items)
  {
    hide EntryOf;
    hide NextEntry;
    forall k | 0 <= k < |items|
      ensures EntryOf(c, v, |entries| + k, items[k])
    {
      NextIsEntry(c, v, |entries|, items[..k]);
    }
    var more := entries + items;
    forall i | 0 <= i < |more|
      ensures EntryOf(c, v, i, more[i])
    {
      if |entries| <= i {
        assert more[i] == items[i - |entries|];
      }
    }
  }

  /** Reading on from next_offset until a page is complete lists every member exactly once, in order.
      Nothing but the budget can stop it. */
  method ReadEntries(s: Snapshot, path: string, limit: nat, ghost v: Value) returns (r: Result<seq<Entry>>)
    requires Admitted(path, 0, limit) && Resolve(s.root, path) == Ok(v) && Container(v) && Stored(v)
    ensures r.Ok? ==> |r.value| == Count(v) && Prefix(At(s, path), v, r.value)
    ensures r.Err? ==> OverBudget(At(s, path), v)
  {
    var entries: seq<Entry> := [];
    while true
      invariant |entries| <= Count(v) && Prefix(At(s, path), v, entries)
      invariant entries != [] ==> |entries| < Count(v)
      decreases Count(v) - |entries|
    {
      var page := ReadToolResult(s, path, |entries|, limit);
      if page.Err? {
        return Err(page.error);
      }
      PageExtends(At(s, path), v, entries, page.value.items.value);
      entries := entries + page.value.items.value;
      assert page.value.next == Some(|entries|);
      if page.value.complete {
        return Ok(entries);
      }
    }
  }

  /** Reading a text page by page rebuilds it. */
  method ReadText(s: Snapshot, path: string, limit: nat, ghost v: Value) returns (r: Result<Bytes>)
    requires Admitted(path, 0, limit) && Resolve(s.root, path) == Ok(v) && v.Text? && Stored(v)
    ensures r.Ok? ==> r.value == v.bytes
    ensures r.Err? ==> OverBudget(At(s, path), v)
  {
    var text := [];
    Utf8.ValidStartsRune(v.bytes);
    while true
      invariant |text| <= |v.bytes| && text == v.bytes[..|text|]
      invariant |text| == |v.bytes| ==> v.bytes == []
      invariant |text| < |v.bytes| ==> Utf8.RuneStart(v.bytes[|text|])
      decreases |v.bytes| - |text|
    {
      var page := ReadToolResult(s, path, |text|, limit);
      if page.Err? {
        return Err(page.error);
      }
      text := text + page.value.value.value.bytes;
      assert page.value.next == Some(|text|);
      if page.value.complete {
        return Ok(text);
      }
    }
  }

  // ---------- following the references ----------

  /** Below this path there is a value that cannot be read: its own path is longer than the input schema
      admits, or some page of it exceeds the budget. */
  ghost predicate Unreadable(s: Snapshot, path: string) {
    exists p :: Blocked(s, path, p)
  }

  ghost predicate Blocked(s: Snapshot, path: string, p: string) {
    && path <= p && Resolve(s.root, p).Ok?
    && (|p| > PATH_MAX || OverBudget(At(s, p), Resolve(s.root, p).value))
  }

  /** A client that reads every page and follows every reference holds the stored value, unless a value on
      the way cannot be read. Pages of arrays and of objects look alike, so it needs the type that the
      reference to the value announces. */
  method ReadValue(s: Snapshot, path: string, typ: string, limit: nat, ghost v: Value) returns (r: Result<Value>)
    requires limit <= DEFAULT_LIMIT && Resolve(s.root, path) == Ok(v) && Stored(v) && typ == TypeName(v)
    ensures r.Ok? ==> r.value == v
    ensures r.Err? ==> Unreadable(s, path)
    decreases v, 1
  {
    hide OverBudget;
    hide PageOf;
    var page := ReadToolResult(s, path, 0, limit);
    if page.Err? {
      assert Blocked(s, path, path);
      return Err(page.error);
    }
    if typ == "string" {
      var text := ReadText(s, path, limit, v);
      assert text.Err? ==> Blocked(s, path, path);
      return if text.Ok? then Ok(Text(text.value)) else Err(text.error);
    }
    if typ == "value" {
      ScalarIsShown(s, path, limit, v, page.value);
      return Ok(if page.value.value.Some? then page.value.value.value else Null);
    }
    var entries := ReadEntries(s, path, limit, v);
    if entries.Err? {
      assert Blocked(s, path, path);
      return Err(entries.error);
    }
    var values := ReadMembers(s, path, entries.value, limit, v);
    if values.Err? {
      return Err(values.error);
    }
    if typ == "array" {
      KeysAreMembers(v);
      assert v.items == values.value;
      return Ok(Array(values.value));
    }
    var members := Assemble(entries.value, values.value, At(s, path), v);
    return Ok(Object(members));
  }

  lemma ScalarIsShown(s: Snapshot, path: string, limit: nat, v: Value, page: Envelope)
    requires TypeName(v) == "value" && PageOf(At(s, path), 0, limit, v, page)
    ensures page.value == if v.Null? then None else Some(v)
  {
  }

  /** The members themselves, those shown by reference read from their own paths. */
  method ReadMembers(s: Snapshot, path: string, entries: seq<Entry>, limit: nat, ghost v: Value)
    returns (r: Result<seq<Value>>)
    requires limit <= DEFAULT_LIMIT && Resolve(s.root, path) == Ok(v) && Stored(v)
    requires Container(v) && |entries| == Count(v) && Prefix(At(s, path), v, entries)
    ensures r.Ok? ==> |r.value| == Count(v) && forall i :: 0 <= i < Count(v) ==> r.value[i] == MemberAt(v, i)
    ensures r.Err? ==> Unreadable(s, path)
    decreases v, 0
  {
    hide Blocked;
    hide Stored;
    var values := [];
    for i := 0 to |entries|
      invariant |values| == i && forall k :: 0 <= k < i ==> values[k] == MemberAt(v, k)
    {
      assert EntryOf(At(s, path), v, i, entries[i]);
      match entries[i].value
      case Real(w) =>
        values := values + [w];
      case Reference(typ, child) =>
        MemberHasPath(s.root, path, v, i);
        var w := ReadValue(s, child, typ, limit, MemberAt(v, i));
        if w.Err? {
          UnreadableBelow(s, path, child);
          return Err(w.error);
        }
        values := values + [w.value];
    }
    return Ok(values);
  }

  lemma UnreadableBelow(s: Snapshot, path: string, child: string)
    requires path <= child && Unreadable(s, child)
    ensures Unreadable(s, path)
  {
    var p :| Blocked(s, child, p);
    assert Blocked(s, path, p);
  }

  /** The path of an entry names the member it stands for. */
  lemma MemberHasPath(root: Value, path: string, v: Value, i: nat)
    requires Resolve(root, path) == Ok(v) && Container(v) && Stored(v) && i < Count(v)
    ensures Resolve(root, PointerChild(path, KeyAt(v, i))) == Ok(MemberAt(v, i))
    ensures Stored(MemberAt(v, i))
    ensures MemberAt(v, i) < v
  {
    KeysAreMembers(v);
    ChildPathNamesMember(root, path, v, KeyAt(v, i), i);
  }

  method Assemble(entries: seq<Entry>, values: seq<Value>, ghost c: Reader, ghost v: Value)
    returns (members: map<string, Value>)
    requires v.Object? && |entries| == |values| == Count(v) && Prefix(c, v, entries)
    requires forall i :: 0 <= i < Count(v) ==> values[i] == MemberAt(v, i)
    ensures members == v.members
  {
    hide KeyAt;
    hide MemberAt;
    members := map[];
    for i := 0 to |entries|
      invariant forall k :: 0 <= k < i ==> KeyAt(v, k) in members
      invariant forall key :: key in members ==> key in v.members && members[key] == v.members[key]
    {
      assert EntryOf(c, v, i, entries[i]);
      MemberOfKey(v, i);
      members := members[entries[i].key := values[i]];
    }
    forall key | key in v.members
      ensures key in members
    {
      var k := PlaceOfKey(v, key);
    }
  }

  lemma MemberOfKey(v: Value, i: nat)
    requires v.Object? && i < Count(v)
    ensures KeyAt(v, i) in v.members && v.members[KeyAt(v, i)] == MemberAt(v, i)
  {
    KeysAreMembers(v);
  }

  lemma PlaceOfKey(v: Value, key: string) returns (k: nat)
    requires v.Object? && key in v.members
    ensures k < Count(v) && KeyAt(v, k) == key
  {
    KeysAreMembers(v);
    assert key in Keys(v);
    k :| 0 <= k < |Keys(v)| && Keys(v)[k] == key;
  }

  /** Containers with the same keys in the same order and the same members have the same pages. */
  lemma PagesShowMembersOnly(c: Reader, a: Value, o: Value, offset: nat, items: seq<Entry>)
    requires Container(a) && Container(o) && Keys(a) == Keys(o) && Count(a) == Count(o)
    requires forall i :: 0 <= i < Count(a) ==> MemberAt(a, i) == MemberAt(o, i)
    ensures Lists(c, a, offset, items) <==> Lists(c, o, offset, items)
  {
    KeysAreMembers(a);
    KeysAreMembers(o);
    hide Keys;
    hide MemberAt;
    hide Container;
    if offset + |items| <= Count(a) {
      forall k | 0 <= k < |items|
        ensures NextEntry(c, a, offset, items[..k]) == NextEntry(c, o, offset, items[..k])
      {
        assert KeyAt(a, offset + k) == KeyAt(o, offset + k);
      }
    }
  }

  lemma IndicesDiffer()
    ensures forall i: nat, k: nat :: Itoa(i) == Itoa(k) ==> i == k
  {
    forall i: nat, k: nat | Itoa(i) == Itoa(k)
      ensures i == k
    {
      DigitsOfItoa(i);
      DigitsOfItoa(k);
    }
  }

  /** The object that has the members of an array under their indices. */
  ghost function Indexed(items: seq<Value>): Value {
    IndicesDiffer();
    Object(map i | 0 <= i < |items| :: Itoa(i) := items[i])
  }

  /** The pages of an array are those of the object with its indices as keys exactly if the keys sort like
      the indices, which is so for up to ten members. */
  lemma PagesHideTheKind(c: Reader, items: seq<Value>, offset: nat, page: seq<Entry>)
    ensures Keys(Array(items)) == Keys(Indexed(items)) <==> |items| <= 10
    ensures |items| <= 10 ==> (Lists(c, Array(items), offset, page) <==> Lists(c, Indexed(items), offset, page))
  {
    var a, o := Array(items), Indexed(items);
    if |items| <= 10 {
      IndicesAscend(items);
      KeysAreMembers(o);
      IndicesDiffer();
      assert forall i :: 0 <= i < Count(a) ==> KeyAt(o, i) == Itoa(i) && MemberAt(o, i) == items[i];
      PagesShowMembersOnly(c, a, o, offset, page);
    } else {
      TenComesBeforeNine();
      assert Keys(a)[9] == Itoa(9) && Keys(a)[10] == Itoa(10);
      assert !Sorting.Ascending(Keys(a));
    }
  }

  lemma TenComesBeforeNine()
    ensures !Sorting.Less(Itoa(9), Itoa(10))
  {
    assert Itoa(9) == "9" && Itoa(10) == "10";
  }

  lemma IndicesAscend(items: seq<Value>)
    requires |items| <= 10
    ensures Keys(Array(items)) == Keys(Indexed(items))
  {
    var keys, members := Keys(Array(items)), Indexed(items).members;
    forall i, k | 0 <= i < k < |keys|
      ensures Sorting.Less(keys[i], keys[k])
    {
      assert keys[i] == [DigitChar(i)] && keys[k] == [DigitChar(k)];
    }
    forall key
      ensures key in members.Keys <==> key in keys
    {
      if key in members.Keys {
        var i :| 0 <= i < |items| && Itoa(i) == key;
        assert keys[i] == key;
      }
    }
    Sorting.ListsIsUnique(keys, Keys(Indexed(items)), members.Keys);
  }
}
