/** Printing a runtime file: RenderRuntimeEnv and collectRuntimeExtensions
    (internal/config/runtime_env.go), for a schema as internal/config/runtime_schema.go has it. */
module RuntimeRender {
  import opened Wrappers
  import opened Bytes
  import opened Decimal
  import opened Quoting
  import opened RuntimeValue
  import opened RuntimeParse
  import Sorting

  datatype Owner = Mgsctl | Setup | Application | Other(name: string)

  datatype Field = Field(
    key: string, group: Bytes, descriptionZH: Bytes, descriptionEN: Bytes, example: Bytes,
    defaultValue: Bytes, secret: bool, owner: Owner, restartRequired: bool, validate: Bytes -> bool)

  datatype Schema = Schema(version: int, fields: seq<Field>)

  const VERSION_KEY := "RUNTIME_SCHEMA_VERSION"

  predicate Blank(text: Bytes) {
    TrimSpace(text) == []
  }

  /** RuntimeSchema.Validate. */
  predicate ValidSchema(schema: Schema) {
    && schema.version > 0
    && (forall i :: 0 <= i < |schema.fields| ==>
          var f := schema.fields[i];
          && ValidKey(f.key)
          && !Blank(f.group) && !Blank(f.descriptionZH) && !Blank(f.descriptionEN)
          && (f.secret ==> Blank(f.example))
          && !f.owner.Other?)
    && (forall i, k :: 0 <= i < k < |schema.fields| ==> schema.fields[i].key != schema.fields[k].key)
  }

  function Keys(fields: seq<Field>): set<string> {
    set i | 0 <= i < |fields| :: fields[i].key
  }

  // ---------- text ----------

  /** The bytes of an ASCII text. */
  function Text(s: string): (text: Bytes)
    ensures |text| == |s|
  {
    seq(|s|, (i: nat) requires i < |s| => if s[i] as int < 0x80 then (s[i] as int) as Byte else HASH)
  }

  /** The UTF-8 bytes of any text. */
  function Utf8Text(s: string): Bytes {
    if s == "" then [] else
      assert ValidRune(s[0] as nat);
      Encode(s[0] as nat) + Utf8Text(s[1..])
  }

  predicate OneLine(text: Bytes) {
    NEWLINE !in text && CARRIAGE_RETURN !in text
  }

  /** The value a field is printed with. */
  function FieldValue(version: int, values: map<string, Bytes>, f: Field): (value: Bytes)
    requires version > 0
    ensures f.key == VERSION_KEY ==> value == Text(Itoa(version))
    ensures f.key != VERSION_KEY && f.key in values ==> value == values[f.key]
    ensures f.key != VERSION_KEY && f.key !in values ==> value == f.defaultValue
  {
    if f.key == VERSION_KEY then Text(Itoa(version))
    else if f.key in values then values[f.key]
    else f.defaultValue
  }

  function KeyLine(printable: nat -> bool, key: string, value: Bytes): Bytes {
    Text(key) + [EQUALS] + Encoded(printable, value)
  }

  function EnglishHeader(): Bytes {
    Text("# Generated runtime configuration. ") + Text("Update values through mgsctl ") + Text("or the setup interface.")
  }

  function ChineseHeader(): Bytes {
    Text("# ") + Utf8Text("自动生成的运行时配置。请通过 mgsctl 或初始化界面更新配置值。")
  }

  function Header(): seq<Bytes> {
    [EnglishHeader(), ChineseHeader()]
  }

  function GroupLine(f: Field): Bytes {
    Text("# ---- ") + f.group + Text(" ----")
  }

  function ChineseLine(f: Field): Bytes {
    Text("# [") + Utf8Text("中文") + Text("] ") + f.descriptionZH
  }

  function OwnerName(owner: Owner): string {
    match owner
    case Mgsctl => "mgsctl"
    case Setup => "setup"
    case Application => "application"
    case Other(name) => name
  }

  function TrueOrFalse(b: bool): string {
    if b then "true" else "false"
  }

  function OwnerLine(f: Field): Bytes {
    Text("# Owner: ") + Text(OwnerName(f.owner)) + Text("; Restart required: ") + Text(TrueOrFalse(f.restartRequired))
  }

  /** The example, which secret fields do not show. */
  function ExampleLines(f: Field): seq<Bytes> {
    if f.secret then [Text("# Example: <redacted>")]
    else if f.example != [] then [Text("# Example: ") + f.example]
    else []
  }

  /** The remarks above a field. */
  function Remarks(f: Field, newGroup: bool): seq<Bytes> {
    (if newGroup then [[], GroupLine(f)] else []) +
    [ChineseLine(f), Text("# [English] ") + f.descriptionEN, OwnerLine(f)] +
    ExampleLines(f)
  }

  function FieldLines(printable: nat -> bool, f: Field, newGroup: bool, value: Bytes): seq<Bytes> {
    Remarks(f, newGroup) + [KeyLine(printable, f.key, value)]
  }

  function FieldsLines(printable: nat -> bool, version: int, values: map<string, Bytes>, fields: seq<Field>,
                       lastGroup: Bytes): seq<Bytes>
    requires version > 0
  {
    if fields == [] then []
    else
      FieldLines(printable, fields[0], fields[0].group != lastGroup, FieldValue(version, values, fields[0])) +
      FieldsLines(printable, version, values, fields[1..], fields[0].group)
  }

  function KeyLines(printable: nat -> bool, entries: seq<Entry>): seq<Bytes> {
    if entries == [] then []
    else [KeyLine(printable, entries[0].key, entries[0].value)] + KeyLines(printable, entries[1..])
  }

  function ExtensionLines(printable: nat -> bool, entries: seq<Entry>): seq<Bytes> {
    if entries == [] then []
    else [[], Text("# Extension fields / ") + Utf8Text("扩展字段")] + KeyLines(printable, entries)
  }

  // ---------- extensions ----------

  /** The entries whose keys are not known, each with the supplied value if there is one. */
  function Kept(extensions: seq<Entry>, values: map<string, Bytes>, known: set<string>): (kept: seq<Entry>)
    ensures forall i :: 0 <= i < |kept| ==> kept[i].key !in known
  {
    if extensions == [] then []
    else
      var last := extensions[|extensions| - 1];
      Kept(extensions[..|extensions| - 1], values, known) +
      if last.key in known then []
      else [if last.key in values then Entry(last.key, values[last.key]) else last]
  }

  function KeysOf(entries: seq<Entry>): set<string> {
    set i | 0 <= i < |entries| :: entries[i].key
  }

  /** The keys of supplied values that neither the schema nor the extensions name. */
  function ExtraKeys(extensions: seq<Entry>, values: map<string, Bytes>, known: set<string>): set<string> {
    values.Keys - known - KeysOf(extensions)
  }

  function EntriesFor(keys: seq<string>, values: map<string, Bytes>): (entries: seq<Entry>)
    requires forall i :: 0 <= i < |keys| ==> keys[i] in values
    ensures |entries| == |keys|
    ensures forall i :: 0 <= i < |keys| ==> entries[i] == Entry(keys[i], values[keys[i]])
  {
    if keys == [] then []
    else EntriesFor(keys[..|keys| - 1], values) + [Entry(keys[|keys| - 1], values[keys[|keys| - 1]])]
  }

  /** The extensions in their own order, then the extra values in the order of their keys. */
  ghost function Collected(extensions: seq<Entry>, values: map<string, Bytes>, known: set<string>): seq<Entry> {
    var extra := Sorting.Sorted(ExtraKeys(extensions, values, known));
    assert forall i :: 0 <= i < |extra| ==> extra[i] in ExtraKeys(extensions, values, known);
    Kept(extensions, values, known) + EntriesFor(extra, values)
  }

  /** All keys are well-formed and no extension comes twice. */
  predicate Collectable(extensions: seq<Entry>, values: map<string, Bytes>, known: set<string>) {
    && (forall i :: 0 <= i < |extensions| ==> ValidKey(extensions[i].key))
    && (forall i, k :: 0 <= i < k < |extensions| && extensions[i].key == extensions[k].key ==> extensions[k].key in known)
    && (forall key :: key in values && key !in known ==> ValidKey(key))
  }

  method CollectRuntimeExtensions(values: map<string, Bytes>, extensions: seq<Entry>, known: set<string>)
    returns (r: Result<seq<Entry>>)
    ensures r.Ok? <==> Collectable(extensions, values, known)
    ensures r.Ok? ==> r.value == Collected(extensions, values, known)
  {
    hide Kept;
    hide ValidKey;
    hide KeysOf;
    hide EntriesFor;
    var kept, seen := KeepExtensions(values, extensions, known);
    if kept.Err? {
      return kept;
    }
    var extraKeys := FindExtraKeys(values, known, seen);
    if extraKeys.Err? {
      return Err(extraKeys.error);
    }
    assert extraKeys.value == ExtraKeys(extensions, values, known);
    var sorted := Sorting.SortedKeys(extraKeys.value);
    assert forall i :: 0 <= i < |sorted| ==> sorted[i] in extraKeys.value;
    var extra := ListExtras(sorted, values);
    return Ok(kept.value + extra);
  }

  /** The second loop: the keys not seen yet, which a map gives in no particular order. */
  method FindExtraKeys(values: map<string, Bytes>, known: set<string>, seen: set<string>) returns (r: Result<set<string>>)
    requires forall key :: key in seen ==> ValidKey(key)
    ensures r.Ok? <==> forall key :: key in values && key !in known ==> ValidKey(key)
    ensures r.Ok? ==> r.value == values.Keys - known - seen
  {
    hide ValidKey;
    var extraKeys: set<string> := {};
    var left := values.Keys;
    while left != {}
      invariant left <= values.Keys
      invariant extraKeys == (values.Keys - left) - known - seen
      invariant forall key :: key in values && key !in left && key !in known ==> ValidKey(key)
    {
      var key :| key in left;
      left := left - {key};
      if key in known || key in seen {
        continue;
      }
      if !ValidKey(key) {
        return Err("extension field key is invalid");
      }
      extraKeys := extraKeys + {key};
    }
    return Ok(extraKeys);
  }

  /** The third loop: the extra values in order. */
  method ListExtras(keys: seq<string>, values: map<string, Bytes>) returns (entries: seq<Entry>)
    requires forall i :: 0 <= i < |keys| ==> keys[i] in values
    ensures entries == EntriesFor(keys, values)
  {
    entries := [];
    for n := 0 to |keys|
      invariant entries == EntriesFor(keys[..n], values)
    {
      assert keys[..n + 1][..n] == keys[..n];
      entries := entries + [Entry(keys[n], values[keys[n]])];
    }
    assert keys[..|keys|] == keys;
  }

  /** The first loop: the extensions themselves, and the keys seen. */
  method KeepExtensions(values: map<string, Bytes>, extensions: seq<Entry>, known: set<string>)
    returns (r: Result<seq<Entry>>, seen: set<string>)
    ensures r.Ok? <==>
              && (forall i :: 0 <= i < |extensions| ==> ValidKey(extensions[i].key))
              && (forall i, k :: 0 <= i < k < |extensions| && extensions[i].key == extensions[k].key ==>
                    extensions[k].key in known)
    ensures r.Ok? ==> r.value == Kept(extensions, values, known) && seen == KeysOf(extensions) - known
    ensures r.Ok? ==> forall key :: key in seen ==> ValidKey(key)
  {
    hide ValidKey;
    var result: seq<Entry> := [];
    seen := {};
    for n := 0 to |extensions|
      invariant result == Kept(extensions[..n], values, known)
      invariant seen == KeysOf(extensions[..n]) - known
      invariant forall i :: 0 <= i < n ==> ValidKey(extensions[i].key)
      invariant forall i, k :: 0 <= i < k < n && extensions[i].key == extensions[k].key ==> extensions[k].key in known
    {
      var entry := extensions[n];
      assert extensions[..n + 1][..n] == extensions[..n];
      assert KeysOf(extensions[..n + 1]) == KeysOf(extensions[..n]) + {entry.key};
      if !ValidKey(entry.key) {
        return Err("extension field key is invalid"), seen;
      }
      if entry.key in known {
        continue;
      }
      if entry.key in seen {
        return Err("extension field key is duplicated"), seen;
      }
      seen := seen + {entry.key};
      if entry.key in values {
        entry := entry.(value := values[entry.key]);
      }
      result := result + [entry];
    }
    assert extensions[..|extensions|] == extensions;
    return Ok(result), seen;
  }

  // ---------- the file ----------

  ghost function Extensions(schema: Schema, values: map<string, Bytes>, extensions: seq<Entry>): seq<Entry> {
    Collected(extensions, values, Keys(schema.fields))
  }

  /** The value of a field may stand in the file and, unless empty, satisfies the field. */
  predicate Admissible(version: int, values: map<string, Bytes>, f: Field)
    requires version > 0
  {
    var value := FieldValue(version, values, f);
    ValidValue(value) && (value == [] || f.validate(value))
  }

  /** The schema is valid and all values can be printed. */
  ghost predicate Renderable(schema: Schema, values: map<string, Bytes>, extensions: seq<Entry>) {
    && ValidSchema(schema)
    && (forall i :: 0 <= i < |schema.fields| ==> Admissible(schema.version, values, schema.fields[i]))
    && Collectable(extensions, values, Keys(schema.fields))
    && (forall i :: 0 <= i < |Extensions(schema, values, extensions)| ==>
          ValidValue(Extensions(schema, values, extensions)[i].value))
  }

  ghost function Rendered(printable: nat -> bool, schema: Schema, values: map<string, Bytes>, extensions: seq<Entry>)
    : seq<Bytes>
    requires schema.version > 0
  {
    Header() + FieldsLines(printable, schema.version, values, schema.fields, []) +
    ExtensionLines(printable, Extensions(schema, values, extensions))
  }

  /** Printing succeeds exactly on renderable input. */
  method RenderRuntimeEnv(printable: nat -> bool, schema: Schema, values: map<string, Bytes>, extensions: seq<Entry>)
    returns (r: Result<Bytes>)
    ensures r.Ok? <==> Renderable(schema, values, extensions)
    ensures r.Ok? ==> r.value == Flatten(Rendered(printable, schema, values, extensions))
  {
    hide Text;
    hide Utf8Text;
    hide Encoded;
    hide KeyLine;
    hide ValidValue;
    hide Header;
    hide FieldsLines;
    hide ExtensionLines;
    hide Collectable;
    hide Collected;
    hide FieldValue;
    hide Flatten;
    if !ValidSchema(schema) {
      return Err("validate runtime schema");
    }
    var known := Keys(schema.fields);
    var fields := RenderFields(printable, schema, values);
    if fields.Err? {
      return fields;
    }
    var entries := CollectRuntimeExtensions(values, extensions, known);
    if entries.Err? {
      return Err(entries.error);
    }
    assert entries.value == Extensions(schema, values, extensions);
    var output := Flatten(Header()) + fields.value;
    var more := RenderExtensions(printable, entries.value);
    if more.Err? {
      return more;
    }
    FlattenSum(Header(), FieldsLines(printable, schema.version, values, schema.fields, []));
    FlattenSum(Header() + FieldsLines(printable, schema.version, values, schema.fields, []),
               ExtensionLines(printable, entries.value));
    return Ok(output + more.value);
  }

  method RenderFields(printable: nat -> bool, schema: Schema, values: map<string, Bytes>) returns (r: Result<Bytes>)
    requires ValidSchema(schema)
    ensures r.Ok? <==> forall i :: 0 <= i < |schema.fields| ==> Admissible(schema.version, values, schema.fields[i])
    ensures r.Ok? ==> r.value == Flatten(FieldsLines(printable, schema.version, values, schema.fields, []))
  {
    hide Flatten;
    hide FieldLines;
    hide FieldsLines;
    hide FieldValue;
    hide Admissible;
    var output: Bytes := [];
    var lastGroup: Bytes := [];
    ghost var all := Flatten(FieldsLines(printable, schema.version, values, schema.fields, []));
    assert schema.fields[0..] == schema.fields;
    for n := 0 to |schema.fields|
      invariant forall i :: 0 <= i < n ==> Admissible(schema.version, values, schema.fields[i])
      invariant output + Flatten(FieldsLines(printable, schema.version, values, schema.fields[n..], lastGroup)) == all
    {
      var f := schema.fields[n];
      var text := RenderField(printable, schema.version, values, f, lastGroup);
      if text.Err? {
        return text;
      }
      OneMoreField(printable, schema.version, values, schema.fields, n, lastGroup);
      ghost var rest := Flatten(FieldsLines(printable, schema.version, values, schema.fields[n + 1..], f.group));
      assert output + (text.value + rest) == output + text.value + rest;
      output := output + text.value;
      lastGroup := f.group;
    }
    assert schema.fields[|schema.fields|..] == [];
    FlattenNothing(printable, schema.version, values, lastGroup);
    return Ok(output);
  }

  lemma FlattenNothing(printable: nat -> bool, version: int, values: map<string, Bytes>, lastGroup: Bytes)
    requires version > 0
    ensures Flatten(FieldsLines(printable, version, values, [], lastGroup)) == []
  {
  }

  lemma OneMoreField(printable: nat -> bool, version: int, values: map<string, Bytes>, fields: seq<Field>, n: nat,
                     lastGroup: Bytes)
    requires version > 0 && n < |fields|
    ensures var f := fields[n];
            Flatten(FieldsLines(printable, version, values, fields[n..], lastGroup)) ==
            Flatten(FieldLines(printable, f, f.group != lastGroup, FieldValue(version, values, f))) +
            Flatten(FieldsLines(printable, version, values, fields[n + 1..], f.group))
  {
    hide Flatten;
    hide FieldLines;
    hide FieldValue;
    var f := fields[n];
    assert fields[n..][1..] == fields[n + 1..];
    FlattenSum(FieldLines(printable, f, f.group != lastGroup, FieldValue(version, values, f)),
               FieldsLines(printable, version, values, fields[n + 1..], f.group));
  }

  /** One field with its remarks. */
  method RenderField(printable: nat -> bool, version: int, values: map<string, Bytes>, f: Field, lastGroup: Bytes)
    returns (r: Result<Bytes>)
    requires version > 0
    ensures r.Ok? <==> Admissible(version, values, f)
    ensures r.Ok? ==>
              r.value == Flatten(FieldLines(printable, f, f.group != lastGroup, FieldValue(version, values, f)))
  {
    hide Flatten;
    hide FieldLines;
    hide FieldValue;
    hide ValidValue;
    hide Encoded;
    var value := FieldValue(version, values, f);
    if value != [] && !f.validate(value) {
      return Err("validate runtime field");
    }
    var encoded := EncodeRuntimeEnvValue(printable, value);
    if encoded.Err? {
      return encoded;
    }
    return Ok(Flatten(FieldLines(printable, f, f.group != lastGroup, value)));
  }

  method RenderExtensions(printable: nat -> bool, entries: seq<Entry>) returns (r: Result<Bytes>)
    ensures r.Ok? <==> forall i :: 0 <= i < |entries| ==> ValidValue(entries[i].value)
    ensures r.Ok? ==> r.value == Flatten(ExtensionLines(printable, entries))
  {
    hide Text;
    hide Utf8Text;
    hide Encoded;
    hide KeyLine;
    hide ValidValue;
    if entries == [] {
      return Ok([]);
    }
    var intro: seq<Bytes> := [[], Text("# Extension fields / ") + Utf8Text("扩展字段")];
    var output := Flatten(intro);
    FlattenSum(intro, KeyLines(printable, entries));
    assert entries[0..] == entries;
    for n := 0 to |entries|
      invariant forall i :: 0 <= i < n ==> ValidValue(entries[i].value)
      invariant output + Flatten(KeyLines(printable, entries[n..])) == Flatten(ExtensionLines(printable, entries))
    {
      var encoded := EncodeRuntimeEnvValue(printable, entries[n].value);
      if encoded.Err? {
        return encoded;
      }
      assert entries[n..][1..] == entries[n + 1..];
      var line := [KeyLine(printable, entries[n].key, entries[n].value)];
      FlattenSum(line, KeyLines(printable, entries[n + 1..]));
      output := output + Flatten(line);
    }
    return Ok(output);
  }
}
