/** Printing and parsing a runtime file undo each other (internal/config/runtime_env.go). */
module RuntimeRoundTrip {
  import opened Wrappers
  import opened Bytes
  import opened Decimal
  import opened Quoting
  import opened RuntimeValue
  import opened RuntimeParse
  import opened RuntimeRender
  import Sorting
  import Strings

  // ---------- literal texts ----------

  /** Printable ASCII. */
  predicate Clean(s: string) {
    forall i :: 0 <= i < |s| ==> ' ' <= s[i] <= '~'
  }

  lemma TextIsOneLine(s: string)
    requires Clean(s)
    ensures OneLine(Text(s))
  {
  }

  lemma {:induction false} Utf8TextIsOneLine(s: string)
    requires forall i :: 0 <= i < |s| ==> s[i] >= ' '
    ensures OneLine(Utf8Text(s))
  {
    if s != "" {
      Utf8TextIsOneLine(s[1..]);
      EncodeBreaksNoLine(s[0] as nat);
    }
  }

  lemma EncodeBreaksNoLine(v: nat)
    requires ValidRune(v) && v != 0x0A && v != 0x0D
    ensures OneLine(Encode(v))
  {
  }

  lemma OneLineSum(a: Bytes, b: Bytes)
    requires OneLine(a) && OneLine(b)
    ensures OneLine(a + b)
  {
  }

  // ---------- lines that read as entries ----------

  /** The lines are read one by one as these entries. */
  ghost predicate Reads(lines: seq<Bytes>, entries: seq<Entry>) {
    && (forall i :: 0 <= i < |lines| ==> OneLine(lines[i]) && !ReadLine(lines[i]).Malformed?)
    && PairsOf(lines) == entries
  }

  lemma ReadsSum(a: seq<Bytes>, ea: seq<Entry>, b: seq<Bytes>, eb: seq<Entry>)
    requires Reads(a, ea) && Reads(b, eb)
    ensures Reads(a + b, ea + eb)
  {
    hide ReadLine;
    PairsOfSum(a, b);
  }

  /** An empty line or a remark. */
  predicate Remark(line: Bytes) {
    OneLine(line) && (line == [] || line[0] == HASH)
  }

  lemma RemarkIsSkipped(line: Bytes)
    requires Remark(line)
    ensures ReadLine(line) == Skipped
  {
    if line != [] {
      SolidFrontStays(line);
    }
  }

  lemma {:induction false} RemarksReadAsNothing(lines: seq<Bytes>)
    requires forall i :: 0 <= i < |lines| ==> Remark(lines[i])
    ensures Reads(lines, [])
  {
    hide ReadLine;
    forall i | 0 <= i < |lines|
      ensures ReadLine(lines[i]) == Skipped
    {
      RemarkIsSkipped(lines[i]);
    }
    if lines != [] {
      RemarksReadAsNothing(lines[1..]);
    }
  }

  lemma RemarkOf(s: string, text: Bytes)
    requires s != "" && s[0] == '#' && Clean(s) && OneLine(text)
    ensures Remark(Text(s) + text) && !HasBom(Text(s) + text)
  {
    TextIsOneLine(s);
    OneLineSum(Text(s), text);
    assert (Text(s) + text)[0] == Text(s)[0];
  }

  // ---------- one printed entry ----------

  lemma KeyAsText(key: string)
    requires ValidKey(key)
    ensures var text := Text(key);
            && text != [] && |text| == |key| && EQUALS !in text && OneLine(text) && Chars(text) == key
            && Solid(text[0]) && Solid(text[|text| - 1]) && text[0] != HASH
  {
    assert Chars(Text(key)) == key;
  }

  /** The line of an entry reads as that entry. */
  lemma KeyLineReads(printable: nat -> bool, key: string, value: Bytes)
    requires ValidKey(key) && ValidValue(value)
    ensures OneLine(KeyLine(printable, key, value))
    ensures ReadLine(KeyLine(printable, key, value)) == Pair(Entry(key, value))
  {
    hide Text;
    hide Encoded;
    hide ParseRuntimeEnvValue;
    hide ValidKey;
    KeyAsText(key);
    ParseOfEncode(printable, value);
    var text, encoded := Text(key), Encoded(printable, value);
    var line := KeyLine(printable, key, value);
    assert line == text + [EQUALS] + encoded;
    Strings.FirstPlace(text, EQUALS, encoded);
    assert line[..|text|] == text && line[|text| + 1..] == encoded;
    assert line[0] == text[0];
    SolidFrontStays(line);
    SolidIsNotTrimmed(text);
  }

  lemma OnePair(printable: nat -> bool, key: string, value: Bytes)
    requires ValidKey(key) && ValidValue(value)
    ensures Reads([KeyLine(printable, key, value)], [Entry(key, value)])
  {
    hide ReadLine;
    hide KeyLine;
    KeyLineReads(printable, key, value);
    var lines := [KeyLine(printable, key, value)];
    assert lines[1..] == [];
    assert PairsOf(lines) == PairOf(lines[0]);
  }

  // ---------- the whole file ----------

  /** The texts of the schema have no line breaks. */
  predicate PlainTexts(schema: Schema) {
    forall i :: 0 <= i < |schema.fields| ==>
      var f := schema.fields[i];
      OneLine(f.group) && OneLine(f.descriptionZH) && OneLine(f.descriptionEN) && OneLine(f.example)
  }

  function FieldEntries(version: int, values: map<string, Bytes>, fields: seq<Field>): (entries: seq<Entry>)
    requires version > 0
    ensures |entries| == |fields|
    ensures forall i :: 0 <= i < |fields| ==> entries[i] == Entry(fields[i].key, FieldValue(version, values, fields[i]))
  {
    if fields == [] then []
    else [Entry(fields[0].key, FieldValue(version, values, fields[0]))] + FieldEntries(version, values, fields[1..])
  }

  /** What the file says: the fields in the order of the schema, then the extensions. */
  ghost function Intended(schema: Schema, values: map<string, Bytes>, extensions: seq<Entry>): Document
    requires schema.version > 0
  {
    DocumentOf(FieldEntries(schema.version, values, schema.fields) + Extensions(schema, values, extensions),
               Keys(schema.fields))
  }

  lemma GroupRemark(f: Field)
    requires OneLine(f.group)
    ensures Remark(GroupLine(f))
  {
    hide Text;
    hide OneLine;
    hide Remark;
    TextIsOneLine(" ----");
    OneLineSum(f.group, Text(" ----"));
    RemarkOf("# ---- ", f.group + Text(" ----"));
    assert GroupLine(f) == Text("# ---- ") + (f.group + Text(" ----"));
  }

  lemma ChineseRemark(f: Field)
    requires OneLine(f.descriptionZH)
    ensures Remark(ChineseLine(f))
  {
    hide Text;
    hide Utf8Text;
    hide OneLine;
    hide Remark;
    var rest := Utf8Text("中文") + Text("] ");
    Utf8TextIsOneLine("中文");
    TextIsOneLine("] ");
    OneLineSum(Utf8Text("中文"), Text("] "));
    OneLineSum(rest, f.descriptionZH);
    RemarkOf("# [", rest + f.descriptionZH);
    assert ChineseLine(f) == Text("# [") + (rest + f.descriptionZH);
  }

  lemma WordsAreOneLine(owner: Owner, b: bool)
    requires !owner.Other?
    ensures OneLine(Text(OwnerName(owner))) && OneLine(Text(TrueOrFalse(b)))
  {
    hide Text;
    TextIsOneLine(OwnerName(owner));
    TextIsOneLine(TrueOrFalse(b));
  }

  lemma OwnerRemark(f: Field)
    requires !f.owner.Other?
    ensures Remark(OwnerLine(f))
  {
    hide Text;
    hide OneLine;
    hide Remark;
    hide OwnerName;
    hide TrueOrFalse;
    var owner, middle, restart := OwnerName(f.owner), "; Restart required: ", TrueOrFalse(f.restartRequired);
    WordsAreOneLine(f.owner, f.restartRequired);
    TextIsOneLine(middle);
    OneLineSum(Text(owner), Text(middle));
    OneLineSum(Text(owner) + Text(middle), Text(restart));
    var rest := Text(owner) + Text(middle) + Text(restart);
    RemarkOf("# Owner: ", rest);
    assert OwnerLine(f) == Text("# Owner: ") + rest;
  }

  lemma ExampleRemark(f: Field)
    requires OneLine(f.example)
    ensures forall i :: 0 <= i < |ExampleLines(f)| ==> Remark(ExampleLines(f)[i])
  {
    hide Text;
    hide Remark;
    RemarkOf("# Example: <redacted>", []);
    assert Text("# Example: <redacted>") + [] == Text("# Example: <redacted>");
    RemarkOf("# Example: ", f.example);
  }

  lemma RemarksAreRemarks(f: Field, newGroup: bool)
    requires OneLine(f.group) && OneLine(f.descriptionZH) && OneLine(f.descriptionEN) && OneLine(f.example)
    requires !f.owner.Other?
    ensures Reads(Remarks(f, newGroup), [])
  {
    hide Text;
    hide ChineseLine;
    hide OwnerLine;
    hide GroupLine;
    hide ExampleLines;
    hide Reads;
    ChineseRemark(f);
    RemarkOf("# [English] ", f.descriptionEN);
    GroupRemark(f);
    OwnerRemark(f);
    ExampleRemark(f);
    RemarksReadAsNothing(Remarks(f, newGroup));
  }

  lemma {:induction false} FieldsRead(printable: nat -> bool, version: int, values: map<string, Bytes>,
                                      fields: seq<Field>, lastGroup: Bytes)
    requires version > 0
    requires forall i :: 0 <= i < |fields| ==>
               var f := fields[i];
               && OneLine(f.group) && OneLine(f.descriptionZH) && OneLine(f.descriptionEN) && OneLine(f.example)
               && !f.owner.Other?
               && ValidKey(f.key) && ValidValue(FieldValue(version, values, f))
    ensures Reads(FieldsLines(printable, version, values, fields, lastGroup), FieldEntries(version, values, fields))
  {
    hide Reads;
    hide Remarks;
    hide KeyLine;
    hide FieldValue;
    hide ValidValue;
    hide ValidKey;
    if fields == [] {
      RemarksReadAsNothing([]);
    } else {
      var f, newGroup := fields[0], fields[0].group != lastGroup;
      var value := FieldValue(version, values, f);
      RemarksAreRemarks(f, newGroup);
      OnePair(printable, f.key, value);
      ReadsSum(Remarks(f, newGroup), [], [KeyLine(printable, f.key, value)], [Entry(f.key, value)]);
      assert [] + [Entry(f.key, value)] == [Entry(f.key, value)];
      FieldsRead(printable, version, values, fields[1..], f.group);
      ReadsSum(FieldLines(printable, f, newGroup, value), [Entry(f.key, value)],
               FieldsLines(printable, version, values, fields[1..], f.group), FieldEntries(version, values, fields[1..]));
    }
  }

  lemma {:induction false} KeyLinesRead(printable: nat -> bool, entries: seq<Entry>)
    requires forall i :: 0 <= i < |entries| ==> ValidKey(entries[i].key) && ValidValue(entries[i].value)
    ensures Reads(KeyLines(printable, entries), entries)
  {
    hide Reads;
    hide KeyLine;
    hide ValidValue;
    hide ValidKey;
    if entries == [] {
      RemarksReadAsNothing([]);
    } else {
      OnePair(printable, entries[0].key, entries[0].value);
      KeyLinesRead(printable, entries[1..]);
      ReadsSum([KeyLine(printable, entries[0].key, entries[0].value)], [entries[0]],
               KeyLines(printable, entries[1..]), entries[1..]);
      assert entries == [entries[0]] + entries[1..];
    }
  }

  lemma ExtensionsRead(printable: nat -> bool, entries: seq<Entry>)
    requires forall i :: 0 <= i < |entries| ==> ValidKey(entries[i].key) && ValidValue(entries[i].value)
    ensures Reads(ExtensionLines(printable, entries), entries)
  {
    hide Reads;
    hide Text;
    hide Utf8Text;
    hide KeyLine;
    hide ValidValue;
    hide ValidKey;
    if entries == [] {
      RemarksReadAsNothing([]);
    } else {
      var heading := Text("# Extension fields / ") + Utf8Text("扩展字段");
      Utf8TextIsOneLine("扩展字段");
      RemarkOf("# Extension fields / ", Utf8Text("扩展字段"));
      RemarksReadAsNothing([[], heading]);
      KeyLinesRead(printable, entries);
      ReadsSum([[], heading], [], KeyLines(printable, entries), entries);
      assert [] + entries == entries;
    }
  }

  lemma RemarkInPieces(start: string, middle: string, end: string)
    requires start != "" && start[0] == '#' && Clean(start)
    requires Clean(middle)
    requires Clean(end)
    ensures Remark(Text(start) + Text(middle) + Text(end)) && !HasBom(Text(start) + Text(middle) + Text(end))
  {
    hide Text;
    hide OneLine;
    hide HasBom;
    TextIsOneLine(middle);
    TextIsOneLine(end);
    OneLineSum(Text(middle), Text(end));
    RemarkOf(start, Text(middle) + Text(end));
    assert Text(start) + Text(middle) + Text(end) == Text(start) + (Text(middle) + Text(end));
  }

  lemma ChineseHeaderIsRemark()
    ensures Remark(ChineseHeader())
  {
    hide Text;
    hide Utf8Text;
    hide OneLine;
    var chinese := "自动生成的运行时配置。请通过 mgsctl 或初始化界面更新配置值。";
    Utf8TextIsOneLine(chinese);
    RemarkOf("# ", Utf8Text(chinese));
  }

  lemma EnglishHeaderIsRemark()
    ensures Remark(EnglishHeader()) && !HasBom(EnglishHeader())
  {
    hide Text;
    hide Remark;
    hide HasBom;
    RemarkInPieces("# Generated runtime configuration. ", "Update values through mgsctl ", "or the setup interface.");
  }

  lemma HeaderReads()
    ensures Reads(Header(), []) && !HasBom(Header()[0])
  {
    hide EnglishHeader;
    hide ChineseHeader;
    hide Remark;
    hide HasBom;
    hide Reads;
    EnglishHeaderIsRemark();
    ChineseHeaderIsRemark();
    RemarksReadAsNothing(Header());
  }

  lemma FileReads(printable: nat -> bool, schema: Schema, values: map<string, Bytes>, extensions: seq<Entry>)
    requires Renderable(schema, values, extensions) && PlainTexts(schema)
    ensures Reads(Rendered(printable, schema, values, extensions),
                  FieldEntries(schema.version, values, schema.fields) + Extensions(schema, values, extensions))
  {
    hide Reads;
    hide Header;
    hide FieldsLines;
    hide ExtensionLines;
    hide FieldValue;
    hide FieldEntries;
    HeaderReads();
    var entries := Extensions(schema, values, extensions);
    CollectedKeys(extensions, values, Keys(schema.fields));
    FieldsRead(printable, schema.version, values, schema.fields, []);
    ExtensionsRead(printable, entries);
    var fields := FieldEntries(schema.version, values, schema.fields);
    ReadsSum(Header(), [], FieldsLines(printable, schema.version, values, schema.fields, []), fields);
    ReadsSum(Header() + FieldsLines(printable, schema.version, values, schema.fields, []), [] + fields,
             ExtensionLines(printable, entries), entries);
    assert [] + fields == fields;
  }

  lemma KeysOfSum(a: seq<Entry>, b: seq<Entry>)
    ensures KeysOf(a + b) == KeysOf(a) + KeysOf(b)
  {
    forall key | key in KeysOf(b)
      ensures key in KeysOf(a + b)
    {
      var i :| 0 <= i < |b| && b[i].key == key;
      assert (a + b)[|a| + i].key == key;
    }
    forall key | key in KeysOf(a)
      ensures key in KeysOf(a + b)
    {
      var i :| 0 <= i < |a| && a[i].key == key;
      assert (a + b)[i].key == key;
    }
  }

  lemma {:induction false} KeptKeys(extensions: seq<Entry>, values: map<string, Bytes>, known: set<string>)
    requires forall i :: 0 <= i < |extensions| ==> ValidKey(extensions[i].key)
    requires forall i, k :: 0 <= i < k < |extensions| && extensions[i].key == extensions[k].key ==> extensions[k].key in known
    ensures var kept := Kept(extensions, values, known);
            && (forall i :: 0 <= i < |kept| ==> ValidKey(kept[i].key))
            && Distinct(kept)
            && KeysOf(kept) == KeysOf(extensions) - known
            && (forall i :: 0 <= i < |kept| && kept[i].key in values ==> kept[i].value == values[kept[i].key])
            && (forall i :: 0 <= i < |kept| && kept[i].key !in values ==> kept[i] in extensions)
  {
    hide ValidKey;
    if extensions != [] {
      var front, last := extensions[..|extensions| - 1], extensions[|extensions| - 1];
      KeptKeys(front, values, known);
      assert extensions == front + [last] && KeysOf([last]) == {last.key};
      KeysOfSum(front, [last]);
      var before := Kept(front, values, known);
      if last.key !in known {
        assert last.key !in KeysOf(front);
        var kept := Kept(extensions, values, known);
        var entry := kept[|before|];
        assert kept == before + [entry] && KeysOf([entry]) == {last.key};
        KeysOfSum(before, [entry]);
        assert forall i :: 0 <= i < |before| ==> before[i].key in KeysOf(before);
      } else {
        assert Kept(extensions, values, known) == before;
      }
    }
  }

  lemma ExtraEntries(keys: seq<string>, values: map<string, Bytes>)
    requires Sorting.Ascending(keys) && forall i :: 0 <= i < |keys| ==> keys[i] in values
    ensures Distinct(EntriesFor(keys, values))
    ensures KeysOf(EntriesFor(keys, values)) == set key | key in keys
  {
    assert forall i :: 0 <= i < |keys| ==> EntriesFor(keys, values)[i].key == keys[i];
    forall i, k | 0 <= i < k < |keys|
      ensures keys[i] != keys[k]
    {
      Sorting.LessIsTotal(keys[i], keys[k]);
    }
  }

  /** The keys of the collected extensions are unknown, well-formed, each there once, and all there are;
      a supplied value goes before the one an extension brings. */
  lemma CollectedKeys(extensions: seq<Entry>, values: map<string, Bytes>, known: set<string>)
    requires Collectable(extensions, values, known)
    ensures var entries := Collected(extensions, values, known);
            && (forall i :: 0 <= i < |entries| ==> ValidKey(entries[i].key) && entries[i].key !in known)
            && Distinct(entries)
            && KeysOf(entries) == (KeysOf(extensions) + values.Keys) - known
            && (forall i :: 0 <= i < |entries| && entries[i].key in values ==> entries[i].value == values[entries[i].key])
            && (forall i :: 0 <= i < |entries| && entries[i].key !in values ==> entries[i] in extensions)
  {
    hide ValidKey;
    var extraKeys := ExtraKeys(extensions, values, known);
    var keys := Sorting.Sorted(extraKeys);
    assert forall i :: 0 <= i < |keys| ==> keys[i] in extraKeys;
    KeptKeys(extensions, values, known);
    ExtraEntries(keys, values);
    var kept, extra := Kept(extensions, values, known), EntriesFor(keys, values);
    assert forall i :: 0 <= i < |kept| ==> kept[i].key in KeysOf(kept);
    KeysOfSum(kept, extra);
    assert KeysOf(extra) == extraKeys;
  }

  // ---------- printing, then parsing ----------

  lemma PrintedFileIsDistinct(schema: Schema, values: map<string, Bytes>, extensions: seq<Entry>)
    requires Renderable(schema, values, extensions)
    ensures Distinct(FieldEntries(schema.version, values, schema.fields) + Extensions(schema, values, extensions))
  {
    hide Collected;
    hide FieldValue;
    CollectedKeys(extensions, values, Keys(schema.fields));
    forall i | 0 <= i < |schema.fields|
      ensures schema.fields[i].key in Keys(schema.fields)
    {
    }
  }

  lemma ContentsOfOneLines(lines: seq<Bytes>)
    requires forall i :: 0 <= i < |lines| ==> OneLine(lines[i])
    requires lines != [] && !HasBom(lines[0])
    ensures Contents(lines) == lines
  {
  }

  lemma ParseOfReads(lines: seq<Bytes>, entries: seq<Entry>)
    requires Reads(lines, entries) && Distinct(entries) && lines != [] && !HasBom(lines[0])
    ensures WellFormed(Lines(Flatten(lines))) <==> forall i :: 0 <= i < |lines| ==> |lines[i]| < LINE_LIMIT
    ensures PairsOf(Contents(Lines(Flatten(lines)))) == entries
  {
    hide ReadLine;
    hide Distinct;
    hide HasBom;
    hide PairsOf;
    LinesOfFlatten(lines);
    ContentsOfOneLines(lines);
  }

  lemma VersionIsPositive(schema: Schema, values: map<string, Bytes>, extensions: seq<Entry>)
    requires Renderable(schema, values, extensions)
    ensures schema.version > 0 && Collectable(extensions, values, Keys(schema.fields))
  {
  }

  /** A printed file parses exactly if all its lines fit the scanner, and then it says what was meant. */
  lemma ParseOfRender(printable: nat -> bool, schema: Schema, values: map<string, Bytes>, extensions: seq<Entry>)
    requires Renderable(schema, values, extensions) && PlainTexts(schema)
    ensures var lines := Rendered(printable, schema, values, extensions);
            && (WellFormed(Lines(Flatten(lines))) <==> forall i :: 0 <= i < |lines| ==> |lines[i]| < LINE_LIMIT)
            && DocumentOf(PairsOf(Contents(Lines(Flatten(lines)))), Keys(schema.fields)) ==
               Intended(schema, values, extensions)
  {
    VersionIsPositive(schema, values, extensions);
    FileReads(printable, schema, values, extensions);
    PrintedFileIsDistinct(schema, values, extensions);
    HeaderReads();
    hide *;
    StartsWithHeader(printable, schema, values, extensions);
    var entries := FieldEntries(schema.version, values, schema.fields) + Extensions(schema, values, extensions);
    ParseOfReads(Rendered(printable, schema, values, extensions), entries);
    IntendedIs(schema, values, extensions);
  }

  lemma IntendedIs(schema: Schema, values: map<string, Bytes>, extensions: seq<Entry>)
    requires schema.version > 0
    ensures Intended(schema, values, extensions) ==
            DocumentOf(FieldEntries(schema.version, values, schema.fields) + Extensions(schema, values, extensions),
                       Keys(schema.fields))
  {
  }

  lemma StartsWithHeader(printable: nat -> bool, schema: Schema, values: map<string, Bytes>, extensions: seq<Entry>)
    requires schema.version > 0
    ensures var lines := Rendered(printable, schema, values, extensions);
            lines != [] && lines[0] == Header()[0]
  {
    hide Extensions;
    hide FieldsLines;
  }

  /** The program's own functions: what is printed is parsed as it was meant. */
  method PrintThenParse(printable: nat -> bool, schema: Schema, values: map<string, Bytes>, extensions: seq<Entry>)
    returns (printed: Result<Bytes>, parsed: Result<Document>)
    requires PlainTexts(schema)
    ensures printed.Ok? <==> Renderable(schema, values, extensions)
    ensures printed.Ok? ==>
              var lines := Rendered(printable, schema, values, extensions);
              parsed.Ok? <==> forall i :: 0 <= i < |lines| ==> |lines[i]| < LINE_LIMIT
    ensures printed.Ok? && parsed.Ok? ==> parsed.value == Intended(schema, values, extensions)
  {
    hide Renderable;
    hide Rendered;
    hide WellFormed;
    hide Intended;
    printed := RenderRuntimeEnv(printable, schema, values, extensions);
    if printed.Err? {
      return printed, Err(printed.error);
    }
    ParseOfRender(printable, schema, values, extensions);
    parsed := ParseRuntimeEnv(printed.value, Keys(schema.fields));
  }

  // ---------- what was meant ----------

  /** Every entry of the file is in the document under its key, and nothing else is. */
  lemma IntendedEntries(schema: Schema, values: map<string, Bytes>, extensions: seq<Entry>)
    requires Renderable(schema, values, extensions)
    ensures var doc := Intended(schema, values, extensions);
            && doc.entries ==
               FieldEntries(schema.version, values, schema.fields) + Extensions(schema, values, extensions)
            && (forall key :: key in doc.values <==> key in KeysOf(doc.entries))
            && (forall i :: 0 <= i < |doc.entries| ==>
                  doc.entries[i].key in doc.values && doc.values[doc.entries[i].key] == doc.entries[i].value)
  {
    hide ValuesOf;
    hide Unknown;
    hide Collected;
    hide Distinct;
    VersionIsPositive(schema, values, extensions);
    hide Renderable;
    hide FieldEntries;
    PrintedFileIsDistinct(schema, values, extensions);
    ValuesAreEntries(Intended(schema, values, extensions).entries);
  }

  /** The document has exactly the keys of the schema, of the supplied values and of the extensions. The
      schema version is the schema's, other supplied values are kept, missing fields have their default
      and missing extensions the value they brought. */
  lemma IntendedValues(schema: Schema, values: map<string, Bytes>, extensions: seq<Entry>, key: string)
    requires Renderable(schema, values, extensions)
    ensures var known := Keys(schema.fields);
            key in Intended(schema, values, extensions).values <==>
            key in known || key in values || key in KeysOf(extensions)
    ensures forall i :: 0 <= i < |schema.fields| && schema.fields[i].key == key ==>
              var value := Intended(schema, values, extensions).values[key];
              && (key == VERSION_KEY ==> value == Text(Itoa(schema.version)))
              && (key != VERSION_KEY && key in values ==> value == values[key])
              && (key != VERSION_KEY && key !in values ==> value == schema.fields[i].defaultValue)
              && ValidValue(value) && (value == [] || schema.fields[i].validate(value))
    ensures key !in Keys(schema.fields) && key in values ==>
              Intended(schema, values, extensions).values[key] == values[key]
    ensures key !in Keys(schema.fields) && key !in values && key in KeysOf(extensions) ==>
              Entry(key, Intended(schema, values, extensions).values[key]) in extensions
  {
    IntendedKeys(schema, values, extensions);
    FieldsAndExtensions(schema, values, extensions);
    VersionIsPositive(schema, values, extensions);
    CollectedKeys(extensions, values, Keys(schema.fields));
    var more := Extensions(schema, values, extensions);
    forall i | 0 <= i < |schema.fields|
      ensures var value := FieldValue(schema.version, values, schema.fields[i]);
              ValidValue(value) && (value == [] || schema.fields[i].validate(value))
    {
      assert Admissible(schema.version, values, schema.fields[i]);
    }
    hide *;
    if key !in Keys(schema.fields) && (key in values || key in KeysOf(extensions)) {
      assert key in KeysOf(more);
      var i := PlaceOf(more, key);
    }
  }

  lemma PlaceOf(entries: seq<Entry>, key: string) returns (i: nat)
    requires key in KeysOf(entries)
    ensures i < |entries| && entries[i].key == key
  {
    i :| 0 <= i < |entries| && entries[i].key == key;
  }

  lemma IntendedKeys(schema: Schema, values: map<string, Bytes>, extensions: seq<Entry>)
    requires Renderable(schema, values, extensions)
    ensures Intended(schema, values, extensions).values.Keys ==
            Keys(schema.fields) + (KeysOf(extensions) + values.Keys)
  {
    VersionIsPositive(schema, values, extensions);
    IntendedEntries(schema, values, extensions);
    CollectedKeys(extensions, values, Keys(schema.fields));
    KeysOfSum(FieldEntries(schema.version, values, schema.fields), Extensions(schema, values, extensions));
    KeysOfFields(schema.version, values, schema.fields);
    var doc := Intended(schema, values, extensions);
    assert doc.values.Keys == KeysOf(doc.entries);
    hide *;
    KnownAndUnknown(Keys(schema.fields), KeysOf(extensions) + values.Keys);
  }

  lemma KnownAndUnknown(known: set<string>, keys: set<string>)
    ensures known + (keys - known) == known + keys
  {
  }

  /** Under its key every field and every extension has the value it is printed with. */
  lemma FieldsAndExtensions(schema: Schema, values: map<string, Bytes>, extensions: seq<Entry>)
    requires Renderable(schema, values, extensions)
    ensures var doc, more := Intended(schema, values, extensions), Extensions(schema, values, extensions);
            && (forall i :: 0 <= i < |schema.fields| ==>
                  && schema.fields[i].key in doc.values
                  && doc.values[schema.fields[i].key] == FieldValue(schema.version, values, schema.fields[i]))
            && (forall i :: 0 <= i < |more| ==> more[i].key in doc.values && doc.values[more[i].key] == more[i].value)
  {
    VersionIsPositive(schema, values, extensions);
    IntendedEntries(schema, values, extensions);
    var doc, fields := Intended(schema, values, extensions), FieldEntries(schema.version, values, schema.fields);
    hide *;
    BothParts(fields, Extensions(schema, values, extensions), doc.values);
    assert forall i :: 0 <= i < |fields| ==>
        fields[i] == Entry(schema.fields[i].key, FieldValue(schema.version, values, schema.fields[i]));
  }

  lemma BothParts(front: seq<Entry>, tail: seq<Entry>, values: map<string, Bytes>)
    requires var entries := front + tail;
             forall i :: 0 <= i < |entries| ==> entries[i].key in values && values[entries[i].key] == entries[i].value
    ensures forall i :: 0 <= i < |front| ==> front[i].key in values && values[front[i].key] == front[i].value
    ensures forall i :: 0 <= i < |tail| ==> tail[i].key in values && values[tail[i].key] == tail[i].value
  {
    forall i | 0 <= i < |front|
      ensures front[i].key in values && values[front[i].key] == front[i].value
    {
      assert (front + tail)[i] == front[i];
    }
    forall i | 0 <= i < |tail|
      ensures tail[i].key in values && values[tail[i].key] == tail[i].value
    {
      assert (front + tail)[|front| + i] == tail[i];
    }
  }

  lemma KeysOfFields(version: int, values: map<string, Bytes>, fields: seq<Field>)
    requires version > 0
    ensures KeysOf(FieldEntries(version, values, fields)) == Keys(fields)
  {
    hide FieldValue;
    var entries := FieldEntries(version, values, fields);
    forall i | 0 <= i < |fields|
      ensures entries[i].key in Keys(fields) && fields[i].key in KeysOf(entries)
    {
      assert entries[i].key == fields[i].key;
    }
  }

  /** The extensions of the document are those collected, in their order. */
  lemma IntendedExtensions(schema: Schema, values: map<string, Bytes>, extensions: seq<Entry>)
    requires Renderable(schema, values, extensions)
    ensures Intended(schema, values, extensions).extensions == Extensions(schema, values, extensions)
  {
    hide Collected;
    hide FieldValue;
    var known := Keys(schema.fields);
    var fields, more := FieldEntries(schema.version, values, schema.fields), Extensions(schema, values, extensions);
    CollectedKeys(extensions, values, known);
    forall i | 0 <= i < |fields|
      ensures fields[i].key in known
    {
      assert schema.fields[i].key in known;
    }
    UnknownOfKnown(fields, more, known);
  }

  lemma {:induction false} UnknownOfKnown(a: seq<Entry>, b: seq<Entry>, known: set<string>)
    requires forall i :: 0 <= i < |a| ==> a[i].key in known
    requires forall i :: 0 <= i < |b| ==> b[i].key !in known
    ensures Unknown(a + b, known) == b
    decreases |a| + |b|
  {
    if b != [] {
      assert (a + b)[..|a + b| - 1] == a + b[..|b| - 1];
      UnknownOfKnown(a, b[..|b| - 1], known);
      assert b == b[..|b| - 1] + [b[|b| - 1]];
    } else if a != [] {
      assert a + b == a && (a + b)[..|a + b| - 1] == a[..|a| - 1] + [];
      UnknownOfKnown(a[..|a| - 1], [], known);
    }
  }

  // ---------- printing again ----------

  lemma {:induction false} KeptAgain(entries: seq<Entry>, values: map<string, Bytes>, known: set<string>)
    requires forall i :: 0 <= i < |entries| ==>
               entries[i].key !in known && entries[i].key in values && values[entries[i].key] == entries[i].value
    ensures Kept(entries, values, known) == entries
  {
    if entries != [] {
      KeptAgain(entries[..|entries| - 1], values, known);
      assert entries == entries[..|entries| - 1] + [entries[|entries| - 1]];
    }
  }

  /** Collecting from what was printed changes nothing. */
  lemma CollectAgain(schema: Schema, values: map<string, Bytes>, extensions: seq<Entry>)
    requires Renderable(schema, values, extensions)
    ensures var doc := Intended(schema, values, extensions);
            && Collectable(doc.extensions, doc.values, Keys(schema.fields))
            && Extensions(schema, doc.values, doc.extensions) == Extensions(schema, values, extensions)
  {
    var doc, more := Intended(schema, values, extensions), Extensions(schema, values, extensions);
    VersionIsPositive(schema, values, extensions);
    IntendedExtensions(schema, values, extensions);
    IntendedKeys(schema, values, extensions);
    CollectedKeys(extensions, values, Keys(schema.fields));
    FieldsAndExtensions(schema, values, extensions);
    hide *;
    CollectNothingNew(more, doc.values, Keys(schema.fields));
    SameExtensions(schema, doc.values, doc.extensions);
  }

  lemma SameExtensions(schema: Schema, values: map<string, Bytes>, extensions: seq<Entry>)
    ensures Extensions(schema, values, extensions) == Collected(extensions, values, Keys(schema.fields))
  {
  }

  /** Entries that are unknown, distinct and supplied are collected as they are. */
  lemma CollectNothingNew(entries: seq<Entry>, values: map<string, Bytes>, known: set<string>)
    requires forall i :: 0 <= i < |entries| ==> ValidKey(entries[i].key) && entries[i].key !in known
    requires forall i :: 0 <= i < |entries| ==> entries[i].key in values && values[entries[i].key] == entries[i].value
    requires Distinct(entries) && values.Keys - known <= KeysOf(entries)
    ensures Collectable(entries, values, known) && Collected(entries, values, known) == entries
  {
    hide ValidKey;
    KeptAgain(entries, values, known);
    assert ExtraKeys(entries, values, known) == {};
    Sorting.ListsIsUnique(Sorting.Sorted({}), [], {});
    forall key | key in values && key !in known
      ensures ValidKey(key)
    {
      assert key in KeysOf(entries);
      var i := PlaceOf(entries, key);
    }
  }

  lemma {:induction false} FieldsAgain(printable: nat -> bool, version: int, values: map<string, Bytes>,
                                       other: map<string, Bytes>, fields: seq<Field>, lastGroup: Bytes)
    requires version > 0
    requires forall i :: 0 <= i < |fields| ==> FieldValue(version, values, fields[i]) == FieldValue(version, other, fields[i])
    ensures FieldsLines(printable, version, values, fields, lastGroup) == FieldsLines(printable, version, other, fields, lastGroup)
  {
    hide FieldLines;
    hide FieldValue;
    if fields != [] {
      FieldsAgain(printable, version, values, other, fields[1..], fields[0].group);
    }
  }

  /** Printing what was parsed gives the same file again, byte for byte. */
  lemma RenderIsFixpoint(printable: nat -> bool, schema: Schema, values: map<string, Bytes>, extensions: seq<Entry>)
    requires Renderable(schema, values, extensions)
    ensures var doc := Intended(schema, values, extensions);
            && Renderable(schema, doc.values, doc.extensions)
            && Rendered(printable, schema, doc.values, doc.extensions) == Rendered(printable, schema, values, extensions)
  {
    var doc := Intended(schema, values, extensions);
    VersionIsPositive(schema, values, extensions);
    CollectAgain(schema, values, extensions);
    FieldsAndExtensions(schema, values, extensions);
    forall i | 0 <= i < |schema.fields|
      ensures FieldValue(schema.version, doc.values, schema.fields[i]) == FieldValue(schema.version, values, schema.fields[i])
    {
      hide Intended;
      assert schema.fields[i].key in doc.values;
    }
    hide *;
    SameInputPrintsSame(printable, schema, values, extensions, doc.values, doc.extensions);
  }

  lemma SameInputPrintsSame(printable: nat -> bool, schema: Schema, values: map<string, Bytes>, extensions: seq<Entry>,
                            others: map<string, Bytes>, more: seq<Entry>)
    requires Renderable(schema, values, extensions) && Collectable(more, others, Keys(schema.fields))
    requires Extensions(schema, others, more) == Extensions(schema, values, extensions)
    requires forall i :: 0 <= i < |schema.fields| ==>
               FieldValue(schema.version, others, schema.fields[i]) == FieldValue(schema.version, values, schema.fields[i])
    ensures Renderable(schema, others, more)
    ensures Rendered(printable, schema, others, more) == Rendered(printable, schema, values, extensions)
  {
    VersionIsPositive(schema, values, extensions);
    SameInputIsRenderable(schema, values, extensions, others, more);
    FieldsAgain(printable, schema.version, others, values, schema.fields, []);
    hide Extensions;
    hide Renderable;
    hide FieldValue;
    hide Header;
    hide FieldsLines;
    hide ExtensionLines;
  }

  lemma SameInputIsRenderable(schema: Schema, values: map<string, Bytes>, extensions: seq<Entry>,
                              others: map<string, Bytes>, more: seq<Entry>)
    requires Renderable(schema, values, extensions) && Collectable(more, others, Keys(schema.fields))
    requires Extensions(schema, others, more) == Extensions(schema, values, extensions)
    requires forall i :: 0 <= i < |schema.fields| ==>
               FieldValue(schema.version, others, schema.fields[i]) == FieldValue(schema.version, values, schema.fields[i])
    ensures Renderable(schema, others, more)
  {
    hide Extensions;
    hide Collectable;
    hide FieldValue;
    hide ValidValue;
    hide ValidSchema;
    hide Admissible;
    VersionIsPositive(schema, values, extensions);
    forall i | 0 <= i < |schema.fields|
      ensures Admissible(schema.version, others, schema.fields[i])
    {
      AdmissibleByValue(schema.version, values, others, schema.fields[i]);
    }
  }

  lemma AdmissibleByValue(version: int, values: map<string, Bytes>, others: map<string, Bytes>, f: Field)
    requires version > 0 && FieldValue(version, others, f) == FieldValue(version, values, f)
    ensures Admissible(version, others, f) <==> Admissible(version, values, f)
  {
    hide FieldValue;
    hide ValidValue;
  }

  // ---------- rewriting a file that was edited by hand ----------

  lemma {:induction false} UnknownEntries(entries: seq<Entry>, known: set<string>)
    requires Distinct(entries)
    ensures Distinct(Unknown(entries, known))
    ensures forall i :: 0 <= i < |Unknown(entries, known)| ==>
              Unknown(entries, known)[i] in entries && Unknown(entries, known)[i].key !in known
    ensures KeysOf(Unknown(entries, known)) == KeysOf(entries) - known
  {
    if entries != [] {
      var front, last := entries[..|entries| - 1], entries[|entries| - 1];
      UnknownEntries(front, known);
      assert entries == front + [last] && KeysOf([last]) == {last.key};
      KeysOfSum(front, [last]);
      KeysOfSum(Unknown(front, known), [last]);
      assert Unknown(front, known) + [] == Unknown(front, known);
    }
  }

  lemma {:induction false} PairsAreValid(lines: seq<Bytes>)
    ensures forall i :: 0 <= i < |PairsOf(lines)| ==>
              ValidKey(PairsOf(lines)[i].key) && ValidValue(PairsOf(lines)[i].value)
  {
    if lines != [] {
      PairsAreValid(lines[1..]);
      PairIsValid(lines[0]);
    }
  }

  lemma PairIsValid(line: Bytes)
    ensures forall i :: 0 <= i < |PairOf(line)| ==> ValidKey(PairOf(line)[i].key) && ValidValue(PairOf(line)[i].value)
  {
    hide ValidKey;
    hide TrimSpace;
    hide TrimBlanks;
    hide QuoteAt;
    hide Unquote;
  }

  /** Reading any well-formed file and printing it again keeps its extensions with their values and
      order, needs no further keys, and can fail only on a field of the schema. */
  lemma RewriteKeepsExtensions(lines: seq<Bytes>, schema: Schema)
    requires WellFormed(lines) && ValidSchema(schema)
    ensures var doc := DocumentOf(PairsOf(Contents(lines)), Keys(schema.fields));
            && Extensions(schema, doc.values, doc.extensions) == doc.extensions
            && (Renderable(schema, doc.values, doc.extensions) <==>
                  forall i :: 0 <= i < |schema.fields| ==> Admissible(schema.version, doc.values, schema.fields[i]))
  {
    hide ValidKey;
    hide ValidValue;
    hide Admissible;
    hide Collected;
    hide Collectable;
    hide ReadLine;
    var known := Keys(schema.fields);
    var entries := PairsOf(Contents(lines));
    PairsAreValid(Contents(lines));
    ValuesAreEntries(entries);
    UnknownEntries(entries, known);
    EntriesAreCollected(entries, known);
  }

  lemma EntriesAreCollected(entries: seq<Entry>, known: set<string>)
    requires Distinct(entries) && forall i :: 0 <= i < |entries| ==> ValidKey(entries[i].key)
    ensures Collectable(Unknown(entries, known), ValuesOf(entries), known)
    ensures Collected(Unknown(entries, known), ValuesOf(entries), known) == Unknown(entries, known)
  {
    hide ValidKey;
    hide ValuesOf;
    hide Collected;
    hide Collectable;
    ValuesAreEntries(entries);
    UnknownEntries(entries, known);
    hide Unknown;
    CollectNothingNew(Unknown(entries, known), ValuesOf(entries), known);
  }

  /** Everything the file said is still said after the rewriting, but for the schema version. */
  lemma RewriteKeepsValues(lines: seq<Bytes>, schema: Schema, key: string)
    requires WellFormed(lines) && ValidSchema(schema)
    requires var doc := DocumentOf(PairsOf(Contents(lines)), Keys(schema.fields));
             key in doc.values && Renderable(schema, doc.values, doc.extensions)
    ensures var doc := DocumentOf(PairsOf(Contents(lines)), Keys(schema.fields));
            var again := Intended(schema, doc.values, doc.extensions);
            && key in again.values && again.extensions == doc.extensions
            && (key == VERSION_KEY && key in Keys(schema.fields) ==> again.values[key] == Text(Itoa(schema.version)))
            && (key != VERSION_KEY || key !in Keys(schema.fields) ==> again.values[key] == doc.values[key])
  {
    var doc := DocumentOf(PairsOf(Contents(lines)), Keys(schema.fields));
    RewriteKeepsExtensions(lines, schema);
    hide *;
    IntendedExtensions(schema, doc.values, doc.extensions);
    IntendedValues(schema, doc.values, doc.extensions, key);
    if key in Keys(schema.fields) {
      var i := FieldOf(schema.fields, key);
      FieldKeepsValue(schema.version, doc.values, schema.fields[i]);
    }
  }

  lemma FieldOf(fields: seq<Field>, key: string) returns (i: nat)
    requires key in Keys(fields)
    ensures i < |fields| && fields[i].key == key
  {
    i :| 0 <= i < |fields| && fields[i].key == key;
  }

  lemma FieldKeepsValue(version: int, values: map<string, Bytes>, f: Field)
    requires version > 0 && f.key in values
    ensures FieldValue(version, values, f) ==
            if f.key == VERSION_KEY then Text(Itoa(version)) else values[f.key]
  {
  }

  // ---------- lines too long for the scanner ----------

  lemma {:induction false} KeyLineAt(printable: nat -> bool, entries: seq<Entry>, i: nat)
    requires i < |entries|
    ensures i < |KeyLines(printable, entries)|
    ensures KeyLines(printable, entries)[i] == KeyLine(printable, entries[i].key, entries[i].value)
  {
    hide KeyLine;
    if i > 0 {
      KeyLineAt(printable, entries[1..], i - 1);
    }
  }

  lemma KeyLineIsLonger(printable: nat -> bool, key: string, value: Bytes)
    ensures |KeyLine(printable, key, value)| > |value|
  {
    hide IsPlain;
    QuoteGrows(printable, value);
  }

  /** An extension of a mebibyte or more can be printed but never parsed back. */
  lemma LongValueIsLost(printable: nat -> bool, schema: Schema, values: map<string, Bytes>, extensions: seq<Entry>, i: nat)
    requires Renderable(schema, values, extensions) && PlainTexts(schema)
    requires var entries := Extensions(schema, values, extensions);
             i < |entries| && |entries[i].value| >= LINE_LIMIT
    ensures !WellFormed(Lines(Flatten(Rendered(printable, schema, values, extensions))))
  {
    VersionIsPositive(schema, values, extensions);
    hide Collected;
    hide FieldsLines;
    hide Renderable;
    hide PlainTexts;
    hide WellFormed;
    hide KeyLine;
    hide Header;
    hide Lines;
    hide Text;
    hide Utf8Text;
    hide Intended;
    var entries := Extensions(schema, values, extensions);
    var front := Header() + FieldsLines(printable, schema.version, values, schema.fields, []);
    var lines := Rendered(printable, schema, values, extensions);
    KeyLineAt(printable, entries, i);
    KeyLineIsLonger(printable, entries[i].key, entries[i].value);
    assert lines[|front| + 2 + i] == KeyLines(printable, entries)[i];
    ParseOfRender(printable, schema, values, extensions);
  }

  /** One input of that kind: a value of a mebibyte of the letter a. */
  lemma MebibyteIsLost(printable: nat -> bool)
    ensures var schema, values := Schema(1, []), map["LONG" := seq(LINE_LIMIT, _ => 0x61)];
            && Renderable(schema, values, [])
            && !WellFormed(Lines(Flatten(Rendered(printable, schema, values, []))))
  {
    hide Rendered;
    var schema, values := Schema(1, []), map["LONG" := seq(LINE_LIMIT, _ => 0x61)];
    assert Keys(schema.fields) == {} && KeysOf([]) == {};
    assert Sorting.Lists(["LONG"], {"LONG"});
    assert ExtraKeys([], values, {}) == {"LONG"};
    Sorting.ListsIsUnique(Sorting.Sorted({"LONG"}), ["LONG"], {"LONG"});
    assert Extensions(schema, values, []) == [Entry("LONG", values["LONG"])];
    LongValueIsLost(printable, schema, values, [], 0);
  }
}
