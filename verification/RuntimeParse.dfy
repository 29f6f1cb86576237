/** Reading a runtime file: ParseRuntimeEnv (internal/config/runtime_env.go). */
module RuntimeParse {
  import opened Wrappers
  import opened Bytes
  import opened Quoting
  import opened RuntimeValue
  import Strings

  datatype Entry = Entry(key: string, value: Bytes)

  datatype Document = Document(values: map<string, Bytes>, entries: seq<Entry>, extensions: seq<Entry>)

  /** The scanner's buffer: a line must end before it is full. */
  const LINE_LIMIT := 0x10_0000

  // ---------- lines ----------

  /** The pieces between line feeds; nothing follows the last one. */
  function Lines(data: Bytes): seq<Bytes> {
    if data == [] then []
    else
      var i := Strings.IndexOf(data, NEWLINE);
      if i < 0 then [data] else [data[..i]] + Lines(data[i + 1..])
  }

  function Flatten(lines: seq<Bytes>): Bytes {
    if lines == [] then [] else lines[0] + [NEWLINE] + Flatten(lines[1..])
  }

  lemma LinesOfOneMore(line: Bytes, rest: Bytes)
    requires NEWLINE !in line
    ensures Lines(line + [NEWLINE] + rest) == [line] + Lines(rest)
  {
    var data := line + [NEWLINE] + rest;
    Strings.FirstPlace(line, NEWLINE, rest);
    assert data[..|line|] == line && data[|line| + 1..] == rest;
  }

  lemma {:induction false} LinesOfFlatten(lines: seq<Bytes>)
    requires forall i :: 0 <= i < |lines| ==> NEWLINE !in lines[i]
    ensures Lines(Flatten(lines)) == lines
  {
    if lines != [] {
      LinesOfOneMore(lines[0], Flatten(lines[1..]));
      LinesOfFlatten(lines[1..]);
    }
  }

  lemma {:induction false} FlattenSum(a: seq<Bytes>, b: seq<Bytes>)
    ensures Flatten(a + b) == Flatten(a) + Flatten(b)
  {
    if a == [] {
      assert a + b == b;
    } else {
      FlattenSum(a[1..], b);
      assert (a + b)[1..] == a[1..] + b;
    }
  }

  function TrimReturn(line: Bytes): Bytes {
    if line != [] && line[|line| - 1] == CARRIAGE_RETURN then line[..|line| - 1] else line
  }

  predicate HasBom(line: Bytes) {
    3 <= |line| && line[0] == 0xEF && line[1] == 0xBB && line[2] == 0xBF
  }

  /** The text of a line: the scanner takes one carriage return away and the parser another, and the first
      line may begin with a byte order mark. */
  function Content(raw: Bytes, first: bool): Bytes {
    var line := TrimReturn(TrimReturn(raw));
    if first && HasBom(line) then line[3..] else line
  }

  function Contents(lines: seq<Bytes>): (contents: seq<Bytes>)
    ensures |contents| == |lines|
  {
    seq(|lines|, (i: nat) requires i < |lines| => Content(lines[i], i == 0))
  }

  // ---------- one line ----------

  predicate ValidKey(key: string) {
    && key != "" && 'A' <= key[0] <= 'Z'
    && forall i :: 0 <= i < |key| ==> 'A' <= key[i] <= 'Z' || '0' <= key[i] <= '9' || key[i] == '_'
  }

  /** A key as text, one character for each byte. */
  function Chars(s: Bytes): (key: string)
    ensures |key| == |s| && forall i :: 0 <= i < |s| ==> key[i] as int == s[i] as int
  {
    seq(|s|, (i: nat) requires i < |s| => (s[i] as int) as char)
  }

  datatype Line = Skipped | Pair(entry: Entry) | Malformed(error: string)

  const EQUALS: Byte := 0x3D

  function ReadLine(line: Bytes): Line {
    var trimmed := TrimSpace(line);
    if trimmed == [] || trimmed[0] == HASH then Skipped
    else
      var equals := Strings.IndexOf(line, EQUALS);
      if equals < 0 then Malformed("expected KEY=VALUE")
      else
        var key := Chars(TrimSpace(line[..equals]));
        if !ValidKey(key) then Malformed("invalid key")
        else
          match ParseRuntimeEnvValue(line[equals + 1..])
          case Ok(value) => Pair(Entry(key, value))
          case Err(e) => Malformed(e)
  }

  /** The loop body's reading of a line. */
  method ParseLine(line: Bytes) returns (r: Line)
    ensures r == ReadLine(line)
  {
    hide ParseRuntimeEnvValue;
    var trimmed := TrimSpace(line);
    if trimmed == [] || trimmed[0] == HASH {
      return Skipped;
    }
    var equals := Strings.IndexOf(line, EQUALS);
    if equals < 0 {
      return Malformed("expected KEY=VALUE");
    }
    var key := Chars(TrimSpace(line[..equals]));
    if !ValidKey(key) {
      return Malformed("invalid key");
    }
    var value := ParseValue(line[equals + 1..]);
    return if value.Ok? then Pair(Entry(key, value.value)) else Malformed(value.error);
  }

  // ---------- the document ----------

  function PairOf(line: Bytes): seq<Entry> {
    match ReadLine(line)
    case Pair(entry) => [entry]
    case _ => []
  }

  /** The entries that the lines hold, in order. */
  function PairsOf(lines: seq<Bytes>): seq<Entry> {
    if lines == [] then [] else PairOf(lines[0]) + PairsOf(lines[1..])
  }

  lemma {:induction false} PairsOfSum(a: seq<Bytes>, b: seq<Bytes>)
    ensures PairsOf(a + b) == PairsOf(a) + PairsOf(b)
  {
    hide PairOf;
    if a == [] {
      assert a + b == b;
    } else {
      PairsOfSum(a[1..], b);
      assert (a + b)[1..] == a[1..] + b && (a + b)[0] == a[0];
      assert PairOf(a[0]) + (PairsOf(a[1..]) + PairsOf(b)) == PairOf(a[0]) + PairsOf(a[1..]) + PairsOf(b);
    }
  }

  predicate Distinct(entries: seq<Entry>) {
    forall i, k :: 0 <= i < k < |entries| ==> entries[i].key != entries[k].key
  }

  function ValuesOf(entries: seq<Entry>): map<string, Bytes> {
    if entries == [] then map[]
    else
      var last := entries[|entries| - 1];
      ValuesOf(entries[..|entries| - 1])[last.key := last.value]
  }

  /** The entries whose keys are not known, in order. */
  function Unknown(entries: seq<Entry>, known: set<string>): seq<Entry> {
    if entries == [] then []
    else
      var last := entries[|entries| - 1];
      Unknown(entries[..|entries| - 1], known) + if last.key in known then [] else [last]
  }

  lemma {:induction false} ValuesAreEntries(entries: seq<Entry>)
    ensures forall key :: key in ValuesOf(entries) <==> exists i :: 0 <= i < |entries| && entries[i].key == key
    ensures Distinct(entries) ==> forall i :: 0 <= i < |entries| ==>
              entries[i].key in ValuesOf(entries) && ValuesOf(entries)[entries[i].key] == entries[i].value
  {
    if entries != [] {
      ValuesAreEntries(entries[..|entries| - 1]);
    }
  }

  function DocumentOf(entries: seq<Entry>, known: set<string>): Document {
    Document(ValuesOf(entries), entries, Unknown(entries, known))
  }

  // ---------- files written elsewhere ----------

  const BOM: Bytes := [0xEF, 0xBB, 0xBF]

  /** The same lines with carriage returns before the line feeds. */
  function WithReturns(lines: seq<Bytes>): seq<Bytes> {
    if lines == [] then [] else [lines[0] + [CARRIAGE_RETURN]] + WithReturns(lines[1..])
  }

  lemma {:induction false} ReturnsAt(lines: seq<Bytes>)
    ensures |WithReturns(lines)| == |lines|
    ensures forall i :: 0 <= i < |lines| ==> WithReturns(lines)[i] == lines[i] + [CARRIAGE_RETURN]
  {
    if lines != [] {
      ReturnsAt(lines[1..]);
    }
  }

  predicate Bare(line: Bytes) {
    NEWLINE !in line && CARRIAGE_RETURN !in line
  }

  /** A byte order mark at the start and carriage returns at the ends of lines make no difference. */
  lemma MarkAndReturnsDoNotMatter(lines: seq<Bytes>)
    requires forall i :: 0 <= i < |lines| ==> Bare(lines[i])
    requires lines != [] && !HasBom(lines[0])
    ensures Contents(Lines(BOM + Flatten(WithReturns(lines)))) == lines
    ensures Contents(Lines(Flatten(lines))) == lines
  {
    var marked := Marked(lines);
    MarkedLines(lines);
    MarkIsFirst(WithReturns(lines));
    hide *;
    ContentsByLine(marked, lines);
    ContentsByLine(lines, lines);
    LinesOfFlatten(marked);
    LinesOfFlatten(lines);
  }

  function Marked(lines: seq<Bytes>): seq<Bytes>
    requires lines != []
  {
    ReturnsAt(lines);
    WithReturns(lines)[0 := BOM + WithReturns(lines)[0]]
  }

  lemma MarkedLines(lines: seq<Bytes>)
    requires forall i :: 0 <= i < |lines| ==> Bare(lines[i])
    requires lines != [] && !HasBom(lines[0])
    ensures |Marked(lines)| == |lines| && WithReturns(lines) != []
    ensures Marked(lines) == WithReturns(lines)[0 := BOM + WithReturns(lines)[0]]
    ensures forall i :: 0 <= i < |lines| ==> NEWLINE !in Marked(lines)[i] && NEWLINE !in lines[i]
    ensures forall i :: 0 <= i < |lines| ==>
              Content(Marked(lines)[i], i == 0) == lines[i] && Content(lines[i], i == 0) == lines[i]
  {
    ReturnsAt(lines);
    hide WithReturns;
    hide Content;
    hide HasBom;
    forall i | 0 <= i < |lines|
      ensures NEWLINE !in Marked(lines)[i] && NEWLINE !in lines[i]
      ensures Content(Marked(lines)[i], i == 0) == lines[i] && Content(lines[i], i == 0) == lines[i]
    {
      ReturnIsTrimmed(lines[i], i == 0, Marked(lines)[i]);
    }
  }

  lemma MarkIsFirst(lines: seq<Bytes>)
    requires lines != []
    ensures BOM + Flatten(lines) == Flatten(lines[0 := BOM + lines[0]])
  {
    var marked := lines[0 := BOM + lines[0]];
    assert lines[1..] == marked[1..];
    assert BOM + (lines[0] + [NEWLINE] + Flatten(lines[1..])) == BOM + lines[0] + [NEWLINE] + Flatten(lines[1..]);
  }

  lemma ContentsByLine(raw: seq<Bytes>, lines: seq<Bytes>)
    requires |raw| == |lines| && forall i :: 0 <= i < |raw| ==> Content(raw[i], i == 0) == lines[i]
    ensures Contents(raw) == lines
  {
    hide Content;
  }

  lemma ReturnIsTrimmed(line: Bytes, first: bool, raw: Bytes)
    requires Bare(line) && (first ==> !HasBom(line))
    requires raw == (if first then BOM else []) + (line + [CARRIAGE_RETURN])
    ensures Content(raw, first) == line && Content(line, first) == line && NEWLINE !in raw
  {
    var text := (if first then BOM else []) + line;
    assert raw == text + [CARRIAGE_RETURN] && raw[..|raw| - 1] == text;
    assert line != [] ==> line[|line| - 1] in line;
    assert TrimReturn(raw) == text && TrimReturn(text) == text && TrimReturn(line) == line;
    assert first ==> text[3..] == line;
  }

  /** A last line without a line feed counts as well. */
  lemma {:induction false} LastLineCounts(lines: seq<Bytes>, last: Bytes)
    requires forall i :: 0 <= i < |lines| ==> NEWLINE !in lines[i]
    requires NEWLINE !in last && last != []
    ensures Lines(Flatten(lines) + last) == lines + [last]
  {
    hide Lines;
    if lines == [] {
      assert Flatten(lines) + last == last;
      OnlyLine(last);
    } else {
      var rest := Flatten(lines[1..]) + last;
      assert Flatten(lines) + last == lines[0] + [NEWLINE] + rest;
      hide Flatten;
      LinesOfOneMore(lines[0], rest);
      LastLineCounts(lines[1..], last);
      assert lines == [lines[0]] + lines[1..];
    }
  }

  lemma OnlyLine(line: Bytes)
    requires NEWLINE !in line && line != []
    ensures Lines(line) == [line]
  {
  }

  /** White space around the key is dropped, around the value it is the value's business. */
  lemma PairWithSpaces(left: Bytes, key: Bytes, right: Bytes, value: Bytes)
    requires Space(left) && Space(right) && EQUALS !in key && key != []
    requires ValidKey(Chars(key))
    ensures ReadLine(left + key + right + [EQUALS] + value) ==
            match ParseRuntimeEnvValue(value) {
              case Ok(v) => Pair(Entry(Chars(key), v))
              case Err(e) => Malformed(e)
            }
  {
    var front := left + key + right;
    var line := front + [EQUALS] + value;
    KeyIsSolid(key);
    TrimSpaceIsCore(left, key, right);
    SpaceHasNo(left, EQUALS);
    SpaceHasNo(right, EQUALS);
    hide *;
    assert EQUALS !in front;
    Strings.FirstPlace(front, EQUALS, value);
    PairStartsWithKey(left, key, right + [EQUALS] + value);
    Regroup(left, key, right, [EQUALS], value);
    ReadLineOfPair(line, front, key, value);
  }

  lemma Regroup(a: Bytes, b: Bytes, c: Bytes, d: Bytes, e: Bytes)
    ensures a + (b + (c + d + e)) == a + b + c + d + e
  {
  }

  lemma ReadLineOfPair(line: Bytes, front: Bytes, key: Bytes, value: Bytes)
    requires line == front + [EQUALS] + value && Strings.IndexOf(line, EQUALS) == |front|
    requires TrimSpace(front) == key && ValidKey(Chars(key))
    requires TrimSpace(line) != [] && TrimSpace(line)[0] != HASH
    ensures ReadLine(line) ==
            match ParseRuntimeEnvValue(value) {
              case Ok(v) => Pair(Entry(Chars(key), v))
              case Err(e) => Malformed(e)
            }
  {
    hide ParseRuntimeEnvValue;
    hide ValidKey;
    hide TrimSpace;
    assert line[..|front|] == front && line[|front| + 1..] == value;
  }

  lemma SpaceHasNo(s: Bytes, b: Byte)
    requires Space(s) && !IsSpaceByte(b)
    ensures b !in s
  {
  }

  lemma PairStartsWithKey(left: Bytes, key: Bytes, rest: Bytes)
    requires Space(left) && key != [] && Solid(key[0])
    ensures var trimmed := TrimSpace(left + (key + rest)); trimmed != [] && trimmed[0] == key[0]
  {
    assert (key + rest)[0] == key[0];
    TrimLeftIsCore(left, key + rest);
    SolidFrontStays(key + rest);
  }

  lemma KeyIsSolid(key: Bytes)
    requires key != [] && ValidKey(Chars(key))
    ensures Solid(key[0]) && Solid(key[|key| - 1]) && key[0] != HASH
  {
    assert Chars(key)[|key| - 1] as int == key[|key| - 1] as int;
  }

  /** Every line is short enough and well-formed, and no key comes twice. */
  ghost predicate WellFormed(lines: seq<Bytes>) {
    && (forall i :: 0 <= i < |lines| ==> |lines[i]| < LINE_LIMIT)
    && (forall i :: 0 <= i < |lines| ==> !ReadLine(Contents(lines)[i]).Malformed?)
    && Distinct(PairsOf(Contents(lines)))
  }

  /** The first k lines are fine, and the document holds their entries. */
  ghost predicate ReadSoFar(lines: seq<Bytes>, k: nat, document: Document, known: set<string>) {
    && k <= |lines|
    && (forall i :: 0 <= i < k ==> |lines[i]| < LINE_LIMIT && !ReadLine(Contents(lines)[i]).Malformed?)
    && Distinct(PairsOf(Contents(lines)[..k]))
    && document == DocumentOf(PairsOf(Contents(lines)[..k]), known)
  }

  /** Parsing succeeds exactly on well-formed lines and keeps the entries in order. */
  method ParseRuntimeEnv(data: Bytes, known: set<string>) returns (r: Result<Document>)
    ensures r.Ok? <==> WellFormed(Lines(data))
    ensures r.Ok? ==> r.value == DocumentOf(PairsOf(Contents(Lines(data))), known)
  {
    ghost var lines := Lines(data);
    var document := Document(map[], [], []);
    NothingRead(data, lines, known);
    hide *;
    var rest := data;
    var lineNumber := 0;
    while rest != []
      invariant ReadSoFar(lines, lineNumber, document, known)
      invariant lineNumber <= |lines| && Lines(rest) == lines[lineNumber..]
      decreases |rest|
    {
      var raw, more := Scan(rest);
      TakeLine(rest, lines, lineNumber);
      rest := more;
      var read := AddLine(lines, raw, lineNumber, document, known);
      if read.Err? {
        return read;
      }
      document := read.value;
      lineNumber := lineNumber + 1;
    }
    NothingLeft(lines, lineNumber, document, known);
    return Ok(document);
  }

  /** The next line and what follows its line feed. */
  method Scan(rest: Bytes) returns (raw: Bytes, more: Bytes)
    requires rest != []
    ensures var end := Strings.IndexOf(rest, NEWLINE);
            && raw == (if end < 0 then rest else rest[..end])
            && more == if end < 0 then [] else rest[end + 1..]
    ensures |more| < |rest|
  {
    var end := Strings.IndexOf(rest, NEWLINE);
    raw := if end < 0 then rest else rest[..end];
    more := if end < 0 then [] else rest[end + 1..];
  }

  /** One turn of the loop. */
  method AddLine(ghost lines: seq<Bytes>, raw: Bytes, k: nat, document: Document, known: set<string>)
    returns (r: Result<Document>)
    requires ReadSoFar(lines, k, document, known) && k < |lines| && raw == lines[k]
    ensures r.Ok? ==> ReadSoFar(lines, k + 1, r.value, known)
    ensures r.Err? ==> !WellFormed(lines)
  {
    hide *;
    BadLine(lines, k);
    if |raw| >= LINE_LIMIT {
      return Err("scan runtime env");
    }
    ContentAt(lines, k);
    var parsed := ParseLine(Content(raw, k == 0));
    match parsed
    case Malformed(e) =>
      return Err(e);
    case Skipped =>
      SkippedLine(lines, k, document, known);
      return Ok(document);
    case Pair(entry) =>
      PairLine(lines, k, document, entry, known);
      var added, more := AddEntry(document, entry, known);
      return if added then Ok(more) else Err("duplicate key");
  }

  lemma ContentAt(lines: seq<Bytes>, k: nat)
    requires k < |lines|
    ensures Contents(lines)[k] == Content(lines[k], k == 0)
  {
    hide Content;
  }

  lemma BadLine(lines: seq<Bytes>, k: nat)
    requires k < |lines|
    ensures |lines[k]| >= LINE_LIMIT || ReadLine(Contents(lines)[k]).Malformed? ==> !WellFormed(lines)
  {
    hide ReadLine;
    hide Contents;
  }

  lemma SkippedLine(lines: seq<Bytes>, k: nat, document: Document, known: set<string>)
    requires ReadSoFar(lines, k, document, known) && k < |lines| && |lines[k]| < LINE_LIMIT
    requires ReadLine(Contents(lines)[k]) == Skipped
    ensures ReadSoFar(lines, k + 1, document, known)
  {
    hide ReadLine;
    hide Contents;
    hide PairsOf;
    OneMoreLine(lines, k);
    hide DocumentOf;
    hide Distinct;
  }

  /** With an entry, reading goes on exactly if its key is new. */
  lemma PairLine(lines: seq<Bytes>, k: nat, document: Document, entry: Entry, known: set<string>)
    requires ReadSoFar(lines, k, document, known) && k < |lines| && |lines[k]| < LINE_LIMIT
    requires ReadLine(Contents(lines)[k]) == Pair(entry)
    ensures entry.key in document.values ==> !WellFormed(lines)
    ensures entry.key !in document.values ==> ReadSoFar(lines, k + 1, With(document, entry, known), known)
  {
    hide *;
    var entries := PairsOf(Contents(lines)[..k]);
    OneMoreLine(lines, k);
    OnePairOf(Contents(lines)[k], entry);
    EntriesSoFar(lines, k, document, known);
    PairExtends(entries, document, entry, known);
    if entry.key in document.values {
      NotDistinct(Contents(lines), k + 1);
      RepeatedKey(lines);
    } else {
      OneMoreRead(lines, k, document, With(document, entry, known), known);
    }
  }

  lemma EntriesSoFar(lines: seq<Bytes>, k: nat, document: Document, known: set<string>)
    requires ReadSoFar(lines, k, document, known)
    ensures var entries := PairsOf(Contents(lines)[..k]);
            Distinct(entries) && document == DocumentOf(entries, known)
  {
  }

  lemma RepeatedKey(lines: seq<Bytes>)
    requires !Distinct(PairsOf(Contents(lines)))
    ensures !WellFormed(lines)
  {
  }

  lemma PairExtends(entries: seq<Entry>, document: Document, entry: Entry, known: set<string>)
    requires document == DocumentOf(entries, known) && Distinct(entries)
    ensures entry.key !in document.values <==> Distinct(entries + [entry])
    ensures DocumentOf(entries + [entry], known) == With(document, entry, known)
  {
    AddingIsDistinct(entries, entry);
    AddingExtends(entries, entry, known);
    hide ValuesOf;
    hide Unknown;
    hide Distinct;
  }

  lemma OneMoreRead(lines: seq<Bytes>, k: nat, before: Document, after: Document, known: set<string>)
    requires ReadSoFar(lines, k, before, known) && k < |lines| && |lines[k]| < LINE_LIMIT
    requires !ReadLine(Contents(lines)[k]).Malformed?
    requires Distinct(PairsOf(Contents(lines)[..k + 1]))
    requires after == DocumentOf(PairsOf(Contents(lines)[..k + 1]), known)
    ensures ReadSoFar(lines, k + 1, after, known)
  {
    hide ReadLine;
    hide Contents;
    hide PairsOf;
    hide DocumentOf;
    hide Distinct;
  }

  lemma OnePairOf(line: Bytes, entry: Entry)
    requires ReadLine(line) == Pair(entry)
    ensures PairOf(line) == [entry]
  {
    hide ReadLine;
  }

  /** The document with one more entry. */
  function With(document: Document, entry: Entry, known: set<string>): Document {
    Document(document.values[entry.key := entry.value], document.entries + [entry],
             if entry.key in known then document.extensions else document.extensions + [entry])
  }

  /** Adds an entry unless its key is taken. */
  method AddEntry(before: Document, entry: Entry, known: set<string>) returns (added: bool, document: Document)
    ensures added <==> entry.key !in before.values
    ensures document == if added then With(before, entry, known) else before
  {
    document := before;
    if entry.key in document.values {
      return false, document;
    }
    document := document.(values := document.values[entry.key := entry.value], entries := document.entries + [entry]);
    if entry.key !in known {
      document := document.(extensions := document.extensions + [entry]);
    }
    return true, document;
  }

  lemma AddingIsDistinct(entries: seq<Entry>, entry: Entry)
    requires Distinct(entries)
    ensures entry.key !in ValuesOf(entries) <==> Distinct(entries + [entry])
  {
    hide ValuesOf;
    ValuesAreEntries(entries);
    var more := entries + [entry];
    if i :| 0 <= i < |entries| && entries[i].key == entry.key {
      assert more[i].key == more[|entries|].key;
    }
  }

  lemma AddingExtends(entries: seq<Entry>, entry: Entry, known: set<string>)
    ensures ValuesOf(entries + [entry]) == ValuesOf(entries)[entry.key := entry.value]
    ensures Unknown(entries + [entry], known) ==
            if entry.key in known then Unknown(entries, known) else Unknown(entries, known) + [entry]
  {
    assert (entries + [entry])[..|entries|] == entries;
  }

  lemma NothingRead(data: Bytes, lines: seq<Bytes>, known: set<string>)
    requires lines == Lines(data)
    ensures ReadSoFar(lines, 0, Document(map[], [], []), known) && Lines(data) == lines[0..]
  {
    hide Contents;
    assert Contents(lines)[..0] == [];
  }

  lemma NothingLeft(lines: seq<Bytes>, k: nat, document: Document, known: set<string>)
    requires ReadSoFar(lines, k, document, known) && Lines([]) == lines[k..]
    ensures WellFormed(lines) && document == DocumentOf(PairsOf(Contents(lines)), known)
  {
    assert lines == lines[..k] + lines[k..];
    hide ReadLine;
    hide Contents;
    hide PairsOf;
    assert Contents(lines)[..k] == Contents(lines);
  }

  lemma TakeLine(rest: Bytes, lines: seq<Bytes>, k: nat)
    requires rest != [] && k <= |lines| && Lines(rest) == lines[k..]
    ensures var end := Strings.IndexOf(rest, NEWLINE);
            && k < |lines| && lines[k] == (if end < 0 then rest else rest[..end])
            && Lines(if end < 0 then [] else rest[end + 1..]) == lines[k + 1..]
  {
    LinesUnfold(rest);
    hide Lines;
    hide Strings.IndexOf;
    assert lines[k] == lines[k..][0] && lines[k + 1..] == lines[k..][1..];
  }

  lemma LinesUnfold(rest: Bytes)
    requires rest != []
    ensures var end := Strings.IndexOf(rest, NEWLINE);
            Lines(rest) == [if end < 0 then rest else rest[..end]] + Lines(if end < 0 then [] else rest[end + 1..])
  {
    hide Strings.IndexOf;
  }

  lemma OneMoreLine(lines: seq<Bytes>, k: nat)
    requires k < |lines|
    ensures Contents(lines)[k] == Content(lines[k], k == 0)
    ensures PairsOf(Contents(lines)[..k + 1]) == PairsOf(Contents(lines)[..k]) + PairOf(Contents(lines)[k])
    ensures PairOf(Contents(lines)[k]) == [] ==> PairsOf(Contents(lines)[..k + 1]) == PairsOf(Contents(lines)[..k])
  {
    hide PairOf;
    var contents := Contents(lines);
    assert contents[..k + 1] == contents[..k] + [contents[k]];
    PairsOfSum(contents[..k], [contents[k]]);
    assert [contents[k]][1..] == [];
    assert PairsOf([contents[k]]) == PairOf(contents[k]);
  }

  lemma NotDistinct(lines: seq<Bytes>, k: nat)
    requires k <= |lines| && !Distinct(PairsOf(lines[..k]))
    ensures !Distinct(PairsOf(lines))
  {
    assert lines == lines[..k] + lines[k..];
    PairsOfSum(lines[..k], lines[k..]);
    var pairs := PairsOf(lines[..k]);
    var i, m :| 0 <= i < m < |pairs| && pairs[i].key == pairs[m].key;
    assert PairsOf(lines)[i] == pairs[i] && PairsOf(lines)[m] == pairs[m];
  }
}
