/** Bounded pages of a stored snapshot (internal/mcpserver/read.go, readPage). */
module ReadPage {
  import opened Wrappers
  import opened Decimal
  import opened Bytes
  import opened Json
  import opened JsonPointer
  import Sorting
  import Utf8

  /** What an entry shows: the member itself, or where to read it. */
  datatype Shown = Real(v: Value) | Reference(valueType: string, path: string)

  datatype Entry = Entry(key: string, path: string, value: Shown)

  datatype Envelope = Envelope(
    token: string, typ: string, path: string, offset: nat, complete: bool,
    items: Option<seq<Entry>>, value: Option<Value>, next: Option<nat>)

  /** What is the same for all entries of a page. Whether an encoded answer stays within the response
      budget is a parameter: fits for a whole page, entryFits for one entry alone. */
  datatype Reader = Reader(fits: Envelope -> bool, entryFits: Entry -> bool, token: string, path: string)

  const DEFAULT_LIMIT := 8192

  function EffectiveLimit(limit: nat): (n: nat)
    ensures 0 < limit <= 8192 ==> n == limit
    ensures limit == 0 || 8192 < limit ==> n == 8192
  {
    if limit == 0 || limit > DEFAULT_LIMIT then DEFAULT_LIMIT else limit
  }

  function TypeName(v: Value): string {
    match v
    case Object(_) => "object"
    case Array(_) => "array"
    case Text(_) => "string"
    case _ => "value"
  }

  function ReferenceValue(path: string, v: Value): Shown {
    Reference(TypeName(v), path)
  }

  // ---------- members of a container ----------

  predicate Container(v: Value) {
    v.Array? || v.Object?
  }

  function Count(v: Value): nat
    requires Container(v)
  {
    if v.Array? then |v.items| else |v.members|
  }

  /** The keys of a container in reading order. */
  ghost function Keys(v: Value): (keys: seq<string>)
    requires Container(v)
  {
    if v.Array? then seq(|v.items|, (i: nat) => Itoa(i)) else Sorting.Sorted(v.members.Keys)
  }

  lemma KeysAreMembers(v: Value)
    requires Container(v)
    ensures |Keys(v)| == Count(v)
    ensures v.Object? ==> forall i :: 0 <= i < |Keys(v)| ==> Keys(v)[i] in v.members
  {
    if v.Object? {
      SizeOfList(Sorting.Sorted(v.members.Keys), v.members.Keys);
      assert |v.members.Keys| == |v.members|;
    }
  }

  lemma {:induction false} SizeOfList(s: seq<string>, keys: set<string>)
    requires Sorting.Lists(s, keys)
    ensures |s| == |keys|
  {
    if s == [] {
      assert keys == {};
    } else {
      assert s[0] in keys;
      Sorting.RestLists(s, keys);
      SizeOfList(s[1..], keys - {s[0]});
    }
  }

  ghost function MemberAt(v: Value, i: nat): Value
    requires Container(v) && i < Count(v)
  {
    KeysAreMembers(v);
    if v.Array? then v.items[i] else v.members[Keys(v)[i]]
  }

  ghost function KeyAt(v: Value, i: nat): string
    requires Container(v) && i < Count(v)
  {
    KeysAreMembers(v);
    Keys(v)[i]
  }

  ghost function RealEntry(c: Reader, v: Value, i: nat): Entry
    requires Container(v) && i < Count(v)
  {
    Entry(KeyAt(v, i), PointerChild(c.path, KeyAt(v, i)), Real(MemberAt(v, i)))
  }

  ghost function ReferenceEntry(c: Reader, v: Value, i: nat): Entry
    requires Container(v) && i < Count(v)
  {
    var child := PointerChild(c.path, KeyAt(v, i));
    Entry(KeyAt(v, i), child, ReferenceValue(child, MemberAt(v, i)))
  }

  // ---------- pages ----------

  function EntriesPage(c: Reader, offset: nat, count: nat, items: seq<Entry>): Envelope {
    var next := offset + |items|;
    Envelope(c.token, "entries", c.path, offset, next == count, Some(items), None, Some(next))
  }

  function TextPage(c: Reader, offset: nat, next: nat, s: Bytes): Envelope
    requires offset <= next <= |s|
  {
    Envelope(c.token, "string", c.path, offset, next == |s|, None, Some(Text(s[offset..next])), Some(next))
  }

  function ScalarPage(c: Reader, offset: nat, v: Value): Envelope {
    Envelope(c.token, "value", c.path, offset, true, None, if v.Null? then None else Some(v), None)
  }

  /** The page with one more entry stays within the budget if that entry shows its value. */
  ghost predicate ValueFits(c: Reader, v: Value, offset: nat, items: seq<Entry>)
    requires Container(v) && offset + |items| < Count(v)
  {
    var full := RealEntry(c, v, offset + |items|);
    c.entryFits(full) && c.fits(EntriesPage(c, offset, Count(v), items + [full]))
  }

  /** The next entry after the items: it shows its value exactly when that fits. */
  ghost function NextEntry(c: Reader, v: Value, offset: nat, items: seq<Entry>): Entry
    requires Container(v) && offset + |items| < Count(v)
  {
    if ValueFits(c, v, offset, items) then RealEntry(c, v, offset + |items|)
    else ReferenceEntry(c, v, offset + |items|)
  }

  /** The items are the members from offset on, and the page fits at every length. */
  ghost predicate Lists(c: Reader, v: Value, offset: nat, items: seq<Entry>)
    requires Container(v)
  {
    && offset + |items| <= Count(v)
    && forall k :: 0 <= k < |items| ==>
         && items[k] == NextEntry(c, v, offset, items[..k])
         && c.fits(EntriesPage(c, offset, Count(v), items[..k] + [items[k]]))
  }

  /** No further entry fits. */
  ghost predicate Full(c: Reader, v: Value, offset: nat, items: seq<Entry>)
    requires Container(v) && offset + |items| < Count(v)
  {
    !c.fits(EntriesPage(c, offset, Count(v), items + [NextEntry(c, v, offset, items)]))
  }

  /** The entry for the next member, unless the page with it would not fit. */
  method TakeEntry(c: Reader, offset: nat, items: seq<Entry>, v: Value, key: string)
    returns (taken: Option<Entry>)
    requires Container(v) && offset + |items| < Count(v) && key == KeyAt(v, offset + |items|)
    ensures taken == if Full(c, v, offset, items) then None else Some(NextEntry(c, v, offset, items))
  {
    hide Itoa;
    hide PointerChild;
    hide TypeName;
    KeysAreMembers(v);
    var end := offset + |items|;
    var value := if v.Array? then v.items[end] else v.members[key];
    var child := PointerChild(c.path, key);
    var entry := Entry(key, child, Real(value));
    assert entry == RealEntry(c, v, end);
    if !c.entryFits(entry) {
      entry := entry.(value := ReferenceValue(child, value));
    }
    var out := EntriesPage(c, offset, Count(v), items + [entry]);
    if !c.fits(out) {
      entry := entry.(value := ReferenceValue(child, value));
      out := EntriesPage(c, offset, Count(v), items + [entry]);
    }
    return if c.fits(out) then Some(entry) else None;
  }

  lemma FirstFits(c: Reader, v: Value, offset: nat, items: seq<Entry>)
    requires Container(v) && Lists(c, v, offset, items)
    ensures items != [] ==> !Full(c, v, offset, [])
  {
    if items != [] {
      assert items[..0] == [];
    }
  }

  lemma KeysInOrder(v: Value)
    requires Container(v)
    ensures v.Object? ==> |Sorting.Sorted(v.members.Keys)| == Count(v)
    ensures forall i :: 0 <= i < Count(v) ==>
              KeyAt(v, i) == if v.Array? then Itoa(i) else Sorting.Sorted(v.members.Keys)[i]
  {
    hide Itoa;
    KeysAreMembers(v);
  }

  /** A page of an array or object. It can be empty only at the end, and stops early only at the limit
      or before an entry that does not fit even as a reference. */
  method ReadEntriesPage(c: Reader, offset: nat, limit: nat, v: Value) returns (r: Result<Envelope>)
    requires Container(v) && 0 < limit
    ensures r.Err? <==> offset > Count(v) || (offset < Count(v) && Full(c, v, offset, []))
    ensures r.Ok? ==> r.value.items.Some? && |r.value.items.value| <= limit
    ensures r.Ok? ==>
              var items := r.value.items.value;
              && Lists(c, v, offset, items)
              && r.value == EntriesPage(c, offset, Count(v), items)
              && (items == [] ==> offset == Count(v))
              && (offset + |items| < Count(v) && |items| < limit ==>
                    Full(c, v, offset, items))
  {
    hide Itoa;
    hide Keys;
    hide KeyAt;
    hide NextEntry;
    hide Full;
    KeysInOrder(v);
    var keys := [];
    if v.Object? {
      keys := Sorting.SortedKeys(v.members.Keys);
    }
    var count := Count(v);
    if offset > count {
      return Err("offset out of range");
    }
    var items: seq<Entry> := [];
    var end := offset;
    while end < count && end - offset < limit
      invariant offset <= end <= count && end - offset <= limit && |items| == end - offset
      invariant Lists(c, v, offset, items)
    {
      var entry := TakeEntry(c, offset, items, v, if v.Array? then Itoa(end) else keys[end]);
      if entry.None? {
        if items == [] {
          return Err("object key or result path exceeds response budget; narrow the original query");
        }
        break;
      }
      ListsSnoc(c, v, offset, items);
      items := items + [entry.value];
      end := end + 1;
    }
    FirstFits(c, v, offset, items);
    return Ok(EntriesPage(c, offset, count, items));
  }

  lemma ListsSnoc(c: Reader, v: Value, offset: nat, items: seq<Entry>)
    requires Container(v) && offset + |items| < Count(v) && Lists(c, v, offset, items)
    requires !Full(c, v, offset, items)
    ensures Lists(c, v, offset, items + [NextEntry(c, v, offset, items)])
  {
    var more := items + [NextEntry(c, v, offset, items)];
    assert more[..|items|] == items;
    forall k | 0 <= k < |items|
      ensures more[k] == NextEntry(c, v, offset, more[..k])
      ensures c.fits(EntriesPage(c, offset, Count(v), more[..k] + [more[k]]))
    {
      assert more[..k] == items[..k];
    }
  }

  /** What a fragment of at most size bytes reaches: no character starts between its end and the limit, and
      it is longer than that only if it is a single character. */
  ghost predicate Fragmented(s: Bytes, offset: nat, size: nat, next: nat) {
    && offset <= next <= |s|
    && (forall k :: next < k <= offset + size && k < |s| ==> !Utf8.RuneStart(s[k]))
    && (next - offset <= size || (offset < |s| && next - offset == Utf8.DecodeWidth(s[offset..])))
  }

  /** A fragment of twice the size, or one byte more, did not fit. */
  ghost predicate TwiceTooLong(c: Reader, s: Bytes, offset: nat, limit: nat, size: nat) {
    exists larger, next :: 0 < larger <= limit && size < larger <= 2 * size + 1 && Fragmented(s, offset, larger, next)
                           && !c.fits(TextPage(c, offset, next, s))
  }

  /** The page is the first to fit of the sizes that are tried: the limit, and then half of the one before. */
  ghost predicate FirstToFit(c: Reader, s: Bytes, offset: nat, limit: nat, next: nat) {
    exists size :: 0 < size <= limit && Fragmented(s, offset, size, next)
                   && (size == limit || TwiceTooLong(c, s, offset, limit, size))
  }

  /** A page of a text, shortened until it fits. */
  method ReadTextPage(c: Reader, offset: nat, limit: nat, s: Bytes)
    returns (r: Result<Envelope>)
    requires 0 < limit
    ensures r.Ok? ==>
              && r.value.next.Some? && offset <= r.value.next.value <= |s| && c.fits(r.value)
              && r.value == TextPage(c, offset, r.value.next.value, s)
              && (offset < |s| ==> offset < r.value.next.value)
    ensures r.Ok? ==> FirstToFit(c, s, offset, limit, r.value.next.value)
    ensures r.Ok? && Utf8.Valid(s) ==>
              && Utf8.Valid(s[offset..r.value.next.value])
              && (r.value.next.value < |s| ==> Utf8.RuneStart(s[r.value.next.value]))
    ensures r.Err? && offset <= |s| && (offset < |s| ==> Utf8.RuneStart(s[offset])) ==>
              exists next :: offset <= next <= |s| && next <= offset + 4 && !c.fits(TextPage(c, offset, next, s))
    ensures offset > |s| || (offset < |s| && !Utf8.RuneStart(s[offset])) ==> r.Err?
  {
    var size := limit;
    while true
      invariant 0 < size <= limit
      invariant size == limit || TwiceTooLong(c, s, offset, limit, size)
      decreases size
    {
      var f := Utf8.Utf8Fragment(s, offset, size);
      if f.Invalid? {
        return Err("invalid UTF-8 byte offset or limit");
      }
      var out := Envelope(c.token, "string", c.path, offset, f.done, None, Some(Text(f.bytes)), Some(f.next));
      assert out == TextPage(c, offset, f.next, s);
      assert Fragmented(s, offset, size, f.next);
      if c.fits(out) {
        return Ok(out);
      }
      if size <= 4 {
        return Err("result path exceeds response budget");
      }
      size := if size / 2 > 4 then size / 2 else 4;
    }
  }

  method ReadPage(c: Reader, offset: int, limit: int, v: Value) returns (r: Result<Envelope>)
    ensures offset < 0 || limit < 0 ==> r.Err?
    ensures r.Ok? ==> r.value.offset == offset && r.value.token == c.token && r.value.path == c.path
    ensures r.Ok? ==> c.fits(r.value) || (Container(v) && offset == Count(v))
    ensures r.Ok? && Container(v) ==>
              && r.value.items.Some? && |r.value.items.value| <= EffectiveLimit(limit)
              && Lists(c, v, offset, r.value.items.value)
              && r.value == EntriesPage(c, offset, Count(v), r.value.items.value)
              && (r.value.items.value == [] ==> offset == Count(v))
              && (offset + |r.value.items.value| < Count(v) && |r.value.items.value| < EffectiveLimit(limit) ==>
                    Full(c, v, offset, r.value.items.value))
    ensures r.Ok? && v.Text? ==>
              && r.value.next.Some? && offset <= r.value.next.value <= |v.bytes|
              && r.value == TextPage(c, offset, r.value.next.value, v.bytes)
              && FirstToFit(c, v.bytes, offset, EffectiveLimit(limit), r.value.next.value)
              && (offset < |v.bytes| ==> offset < r.value.next.value)
              && (Utf8.Valid(v.bytes) ==> Utf8.Valid(v.bytes[offset..r.value.next.value]))
    ensures r.Ok? && !v.Text? && !Container(v) ==> r.value == ScalarPage(c, offset, v)
    ensures 0 <= offset && 0 <= limit && r.Err? ==>
              match v
              case Text(s) =>
                offset > |s| || (offset < |s| && !Utf8.RuneStart(s[offset])) ||
                exists next :: offset <= next <= |s| && next <= offset + 4 && !c.fits(TextPage(c, offset, next, s))
              case Array(_) =>
                offset > Count(v) || (offset < Count(v) && Full(c, v, offset, []))
              case Object(_) =>
                offset > Count(v) || (offset < Count(v) && Full(c, v, offset, []))
              case _ => !c.fits(ScalarPage(c, offset, v))
    ensures 0 <= offset && 0 <= limit && r.Ok? && v.Text? && Utf8.Valid(v.bytes) ==>
              r.value.complete || Utf8.RuneStart(v.bytes[r.value.next.value])
  {
    if offset < 0 || limit < 0 {
      return Err("negative offset or limit");
    }
    var size := EffectiveLimit(limit);
    match v
    case Text(s) =>
      r := ReadTextPage(c, offset, size, s);
    case Array(_) =>
      r := ReadEntriesPage(c, offset, size, v);
      NonEmptyFits(c, v, offset, r);
    case Object(_) =>
      r := ReadEntriesPage(c, offset, size, v);
      NonEmptyFits(c, v, offset, r);
    case _ =>
      var out := ScalarPage(c, offset, v);
      if !c.fits(out) {
        return Err("result path exceeds response budget");
      }
      return Ok(out);
  }

  lemma NonEmptyFits(c: Reader, v: Value, offset: nat, r: Result<Envelope>)
    requires Container(v)
    requires r.Ok? ==>
               && r.value.items.Some? && Lists(c, v, offset, r.value.items.value)
               && r.value == EntriesPage(c, offset, Count(v), r.value.items.value)
               && (r.value.items.value == [] ==> offset == Count(v))
    ensures r.Ok? ==> c.fits(r.value) || offset == Count(v)
  {
    if r.Ok? && r.value.items.value != [] {
      var items := r.value.items.value;
      assert items[..|items| - 1] + [items[|items| - 1]] == items;
    }
  }
}
