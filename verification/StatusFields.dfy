/** KEY=VALUE fields in fenced text blocks: the parser of
    `scripts/validate_source_freshness.py` and the printer of
    `scripts/generate_readme_status_block.py`. */
module StatusFields {
  import opened Results
  import opened Texts
  import opened BoundedBlock

  // ---------------------------------------------------------------- one line

  predicate IsKeyChar(c: char) { 'A' <= c <= 'Z' || '0' <= c <= '9' || c == '_' }

  /** How many leading characters may belong to a key. */
  function KeyLength(s: string): (n: nat)
    ensures n <= |s|
  {
    if s == "" || !IsKeyChar(s[0]) then 0 else 1 + KeyLength(s[1..])
  }

  datatype Field = Field(key: string, value: string)

  /** `^([A-Z][A-Z0-9_]*)=(.*)$` on a stripped line. */
  function ParseField(s: string): Option<Field> {
    var n := KeyLength(s);
    if s != "" && 'A' <= s[0] <= 'Z' && n < |s| && s[n] == '=' then Some(Field(s[..n], s[n + 1..])) else None
  }

  // ---------------------------------------------------------------- the parser

  const OPEN_FENCE := "```text"
  const CLOSE_FENCE := "```"

  datatype Extraction = Extraction(inTextBlock: bool, fields: map<string, string>)

  function ReadLine(st: Extraction, line: string): Extraction {
    var stripped := Strip(line);
    if stripped == OPEN_FENCE then st.(inTextBlock := true)
    else if stripped == CLOSE_FENCE then st.(inTextBlock := false)
    else if !st.inTextBlock then st
    else
      match ParseField(stripped)
      case None => st
      case Some(field) => st.(fields := st.fields[field.key := field.value])
  }

  function ReadLines(st: Extraction, lines: seq<string>): Extraction
    decreases lines
  {
    if lines == [] then st else ReadLines(ReadLine(st, lines[0]), lines[1..])
  }

  const NOTHING_READ := Extraction(false, map[])

  function Extracted(text: string): map<string, string> { ReadLines(NOTHING_READ, SplitLines(text)).fields }

  lemma {:induction false} ReadLinesApart(st: Extraction, xs: seq<string>, ys: seq<string>)
    ensures ReadLines(st, xs + ys) == ReadLines(ReadLines(st, xs), ys)
    decreases xs
  {
    if xs == [] {
      assert xs + ys == ys;
    } else {
      assert (xs + ys)[1..] == xs[1..] + ys;
      ReadLinesApart(ReadLine(st, xs[0]), xs[1..], ys);
    }
  }

  /** The line loop with its flag and its dictionary. */
  method ExtractFields(text: string) returns (fields: map<string, string>)
    ensures fields == Extracted(text)
  {
    var lines := SplitLines(text);
    fields := map[];
    var inTextBlock := false;
    for k := 0 to |lines|
      invariant ReadLines(NOTHING_READ, lines) == ReadLines(Extraction(inTextBlock, fields), lines[k..])
    {
      assert lines[k..][1..] == lines[k + 1..];
      var stripped := Strip(lines[k]);
      if stripped == OPEN_FENCE {
        inTextBlock := true;
      } else if stripped == CLOSE_FENCE {
        inTextBlock := false;
      } else if inTextBlock {
        var field := ParseField(stripped);
        if field.Some? {
          fields := fields[field.value.key := field.value.value];
        }
      }
    }
  }

  /** What every extracted field looks like. */
  ghost predicate IsFieldTable(fields: map<string, string>) {
    forall k :: k in fields ==> IsKey(k) && IsValue(fields[k])
  }

  predicate AllKeyChars(s: string) { forall i :: 0 <= i < |s| ==> IsKeyChar(s[i]) }

  predicate IsKey(k: string) { k != "" && 'A' <= k[0] <= 'Z' && AllKeyChars(k) }

  /** One line without trailing space. */
  predicate IsValue(v: string) { OneLine(v) && (v == "" || !IsSpace(v[|v| - 1])) }

  lemma {:induction false} KeyLengthIsKey(s: string)
    ensures AllKeyChars(s[..KeyLength(s)])
  {
    if s != "" && IsKeyChar(s[0]) {
      KeyLengthIsKey(s[1..]);
      assert s[..KeyLength(s)] == [s[0]] + s[1..][..KeyLength(s[1..])];
    }
  }

  lemma ParsedFieldIsClean(s: string)
    requires IsStripped(s) && OneLine(s) && ParseField(s).Some?
    ensures IsKey(ParseField(s).value.key) && IsValue(ParseField(s).value.value)
  {
    KeyLengthIsKey(s);
  }

  lemma {:induction false} ReadLinesKeepsTable(st: Extraction, lines: seq<string>)
    requires IsFieldTable(st.fields) && forall i :: 0 <= i < |lines| ==> OneLine(lines[i])
    ensures IsFieldTable(ReadLines(st, lines).fields)
    decreases lines
  {
    if lines != [] {
      var stripped := Strip(lines[0]);
      StripStrips(lines[0]);
      if ParseField(stripped).Some? { ParsedFieldIsClean(stripped); }
      ReadLinesKeepsTable(ReadLine(st, lines[0]), lines[1..]);
    }
  }

  /** Whatever the document, keys are keys and values are one trimmed line. */
  lemma ExtractedIsFieldTable(text: string)
    ensures IsFieldTable(Extracted(text))
  {
    ReadLinesKeepsTable(NOTHING_READ, SplitLines(text));
  }

  // ---------------------------------------------------------------- the printer

  const README_BEGIN_MARKER := "<!-- SOURCE_STATUS:GENERATED:BEGIN -->"
  const README_END_MARKER := "<!-- SOURCE_STATUS:GENERATED:END -->"

  const ECHOED_FIELDS: seq<string> := [
    "OBSERVED_AT_UTC", "COMPLETED_THROUGH_PHASE", "CURRENT_PHASE", "CURRENT_PHASE_STATE",
    "PHASE_13_COMPLETE", "PHASE_14_ALLOWED"]

  const SOURCE_KEY := "GENERATED_FROM"
  const SOURCES := "docs/project_sources/"
  const STATE_FILE := "03_CURRENT_DEVELOPMENT_STATE.md"
  const INDEX_FILE := "00_SOURCE_AUTHORITY_INDEX.md"
  const SOURCE_PATH := SOURCES + STATE_FILE
  const INDEX_PATH := SOURCES + INDEX_FILE
  const MACHINE_KEY := "THIS_BLOCK_IS_MACHINE_GENERATED"

  function Concatenated(pieces: seq<string>): string {
    if pieces == [] then "" else pieces[0] + Concatenated(pieces[1..])
  }

  const NOTE_PIECES: seq<string> := [
    "<!-- generated by scripts/", "generate_readme_status_block.py", " -- do not edit by hand -->"]

  const PROSE_HEAD: seq<string> := ["This block is machine-generated from ", "[`", SOURCE_PATH, "`](", SOURCE_PATH]
  const PROSE_MIDDLE: seq<string> := [
    ") and is not ", "Human-authored ", "explanatory text. ", "It is a dated ", "projection, not a ",
    "perpetual truth source "]
  const PROSE_TAIL: seq<string> := ["-- see [`", INDEX_PATH, "`](", INDEX_PATH, ")."]

  const NOTE := Concatenated(NOTE_PIECES)
  const PROSE := Concatenated(PROSE_HEAD) + Concatenated(PROSE_MIDDLE) + Concatenated(PROSE_TAIL)

  const README_PREAMBLE: seq<string> := [
    README_BEGIN_MARKER, NOTE, "", "### Source status (generated)", "", PROSE, "", OPEN_FENCE]

  const README_CLOSING: seq<string> := [
    FieldLine(SOURCE_KEY, SOURCE_PATH),
    FieldLine(MACHINE_KEY, "true"),
    CLOSE_FENCE,
    "",
    README_END_MARKER]

  function FieldLine(key: string, value: string): string { key + "=" + value }

  /** One line for each of the keys that is recorded, in order. */
  function EchoLines(keys: seq<string>, recorded: map<string, string>): seq<string> {
    if keys == [] then []
    else
      var before := EchoLines(keys[..|keys| - 1], recorded);
      var key := keys[|keys| - 1];
      if key in recorded then before + [FieldLine(key, recorded[key])] else before
  }

  function ReadmeLines(recorded: map<string, string>): seq<string> {
    README_PREAMBLE + EchoLines(ECHOED_FIELDS, recorded) + README_CLOSING
  }

  method EchoFields(keys: seq<string>, recorded: map<string, string>, lines: seq<string>) returns (r: seq<string>)
    ensures r == lines + EchoLines(keys, recorded)
  {
    r := lines;
    for k := 0 to |keys|
      invariant r == lines + EchoLines(keys[..k], recorded)
    {
      assert keys[..k + 1][..k] == keys[..k];
      if keys[k] in recorded {
        r := r + [FieldLine(keys[k], recorded[keys[k]])];
      }
    }
    assert keys[..|keys|] == keys;
  }

  method RenderReadmeBlock(recorded: map<string, string>) returns (block: string)
    ensures block == JoinLines(ReadmeLines(recorded))
  {
    var lines := EchoFields(ECHOED_FIELDS, recorded, README_PREAMBLE);
    lines := lines + README_CLOSING;
    block := JoinLines(lines);
  }

  // ---------------------------------------------------------------- reading back what was printed

  lemma {:induction false} KeyLengthOfFieldLine(k: string, v: string)
    requires AllKeyChars(k)
    ensures KeyLength(FieldLine(k, v)) == |k|
  {
    if k != "" {
      assert FieldLine(k, v)[1..] == FieldLine(k[1..], v);
      KeyLengthOfFieldLine(k[1..], v);
    }
  }

  lemma FieldLineParses(k: string, v: string)
    requires IsKey(k)
    ensures ParseField(FieldLine(k, v)) == Some(Field(k, v))
  {
    var line := FieldLine(k, v);
    KeyLengthOfFieldLine(k, v);
    assert line[0] == k[0] && line[..|k|] == k && line[|k|] == '=' && line[|k| + 1..] == v;
  }

  lemma FieldLineIsTrimmed(k: string, v: string)
    requires IsKey(k) && IsValue(v)
    ensures OneLine(FieldLine(k, v)) && Strip(FieldLine(k, v)) == FieldLine(k, v)
    ensures FieldLine(k, v) != OPEN_FENCE && FieldLine(k, v) != CLOSE_FENCE
  {
    var line := FieldLine(k, v);
    assert line[0] == k[0];
    assert line[|line| - 1] == if v == "" then '=' else v[|v| - 1];
    assert OneLine(k) && OneLine("=");
    StripStrips(line);
  }

  /** Inside a text block a printed field is read as that field. */
  lemma FieldLineReads(k: string, v: string, m: map<string, string>)
    requires IsKey(k) && IsValue(v)
    ensures OneLine(FieldLine(k, v))
    ensures ReadLine(Extraction(true, m), FieldLine(k, v)) == Extraction(true, m[k := v])
  {
    FieldLineParses(k, v);
    FieldLineIsTrimmed(k, v);
  }

  function Echoed(keys: seq<string>, recorded: map<string, string>): map<string, string> {
    map k | k in recorded && k in keys :: recorded[k]
  }

  lemma EchoedOneMore(before: seq<string>, key: string, recorded: map<string, string>)
    ensures Echoed(before + [key], recorded) ==
            if key in recorded then Echoed(before, recorded)[key := recorded[key]] else Echoed(before, recorded)
  {
  }

  ghost predicate EchoIsRead(keys: seq<string>, recorded: map<string, string>) {
    ReadLines(Extraction(true, map[]), EchoLines(keys, recorded)) == Extraction(true, Echoed(keys, recorded))
  }

  lemma EchoOneMore(before: seq<string>, key: string, recorded: map<string, string>)
    requires IsFieldTable(recorded) && EchoIsRead(before, recorded)
    ensures EchoIsRead(before + [key], recorded)
  {
    EchoedOneMore(before, key, recorded);
    assert (before + [key])[..|before|] == before;
    if key in recorded {
      var line := FieldLine(key, recorded[key]);
      FieldLineReads(key, recorded[key], Echoed(before, recorded));
      ReadLinesApart(Extraction(true, map[]), EchoLines(before, recorded), [line]);
    }
  }

  lemma {:induction false} EchoReads(keys: seq<string>, recorded: map<string, string>)
    requires IsFieldTable(recorded)
    ensures EchoIsRead(keys, recorded)
  {
    if keys == [] {
      assert Echoed(keys, recorded) == map[];
    } else {
      var (before, key) := (keys[..|keys| - 1], keys[|keys| - 1]);
      EchoReads(before, recorded);
      EchoOneMore(before, key, recorded);
      assert keys == before + [key];
    }
  }

  lemma {:induction false} EchoIsLines(keys: seq<string>, recorded: map<string, string>)
    requires IsFieldTable(recorded)
    ensures AllLines(EchoLines(keys, recorded))
  {
    if keys != [] {
      var key := keys[|keys| - 1];
      EchoIsLines(keys[..|keys| - 1], recorded);
      if key in recorded { FieldLineIsTrimmed(key, recorded[key]); }
    }
  }

  /** Outside a text block a line that opens none is skipped. */
  predicate OpensNothing(line: string) { line == "" || (!IsSpace(line[0]) && line[0] != '`') }

  lemma {:induction false} LeadingCharStays(s: string)
    requires s != "" && !IsSpace(s[0])
    ensures StripRight(s) != "" && StripRight(s)[0] == s[0]
  {
    if IsSpace(s[|s| - 1]) { LeadingCharStays(s[..|s| - 1]); }
  }

  lemma SkipsLine(st: Extraction, line: string)
    requires !st.inTextBlock && OpensNothing(line)
    ensures ReadLine(st, line) == st
  {
    if line != "" { LeadingCharStays(line); }
  }

  lemma {:induction false} SkipsLines(st: Extraction, lines: seq<string>)
    requires !st.inTextBlock && forall i :: 0 <= i < |lines| ==> OpensNothing(lines[i])
    ensures ReadLines(st, lines) == st
    decreases lines
  {
    if lines != [] {
      SkipsLine(st, lines[0]);
      SkipsLines(st, lines[1..]);
    }
  }

  lemma FencesStrip()
    ensures Strip(OPEN_FENCE) == OPEN_FENCE && Strip(CLOSE_FENCE) == CLOSE_FENCE
    ensures OneLine(OPEN_FENCE) && OneLine(CLOSE_FENCE)
  {
    StripStrips(OPEN_FENCE);
    StripStrips(CLOSE_FENCE);
  }

  predicate Printable(s: string) { forall i :: 0 <= i < |s| ==> ' ' <= s[i] <= '~' }

  predicate AllPrintable(pieces: seq<string>) { forall i :: 0 <= i < |pieces| ==> Printable(pieces[i]) }

  lemma {:induction false} ConcatenatedIsPrintable(pieces: seq<string>)
    requires AllPrintable(pieces)
    ensures Printable(Concatenated(pieces))
  {
    if pieces != [] { ConcatenatedIsPrintable(pieces[1..]); }
  }

  lemma StateFileIsPrintable()
    ensures Printable(STATE_FILE)
  {
  }

  lemma IndexFileIsPrintable()
    ensures Printable(INDEX_FILE)
  {
  }

  lemma SourcesIsPrintable()
    ensures Printable(SOURCES)
  {
  }

  lemma PrintableJoin(a: string, b: string)
    requires Printable(a) && Printable(b)
    ensures Printable(a + b)
  {
  }

  lemma PathsArePrintable()
    ensures Printable(SOURCE_PATH) && Printable(INDEX_PATH)
  {
    SourcesIsPrintable();
    StateFileIsPrintable();
    IndexFileIsPrintable();
    PrintableJoin(SOURCES, STATE_FILE);
    PrintableJoin(SOURCES, INDEX_FILE);
  }

  lemma ProseHeadIsPrintable()
    ensures AllPrintable(PROSE_HEAD)
  {
    PathsArePrintable();
    assert Printable(PROSE_HEAD[0]) && Printable(PROSE_HEAD[1]) && Printable(PROSE_HEAD[3]);
  }

  lemma ProseMiddleIsPrintable()
    ensures AllPrintable(PROSE_MIDDLE)
  {
    ProseMiddleStarts();
    ProseMiddleEnds();
    assert PROSE_MIDDLE[..3][0] == PROSE_MIDDLE[0] && PROSE_MIDDLE[..3][1] == PROSE_MIDDLE[1];
    assert PROSE_MIDDLE[..3][2] == PROSE_MIDDLE[2];
  }

  lemma ProseMiddleStarts()
    ensures AllPrintable(PROSE_MIDDLE[..3])
  {
    assert Printable(PROSE_MIDDLE[0]) && Printable(PROSE_MIDDLE[1]) && Printable(PROSE_MIDDLE[2]);
  }

  lemma ProseMiddleEnds()
    ensures Printable(PROSE_MIDDLE[3]) && Printable(PROSE_MIDDLE[4]) && Printable(PROSE_MIDDLE[5])
  {
  }

  lemma ProseTailIsPrintable()
    ensures AllPrintable(PROSE_TAIL)
  {
    PathsArePrintable();
    assert Printable(PROSE_TAIL[0]) && Printable(PROSE_TAIL[2]) && Printable(PROSE_TAIL[4]);
  }

  lemma NotePiecesArePrintable()
    ensures AllPrintable(NOTE_PIECES)
  {
    assert Printable(NOTE_PIECES[0]) && Printable(NOTE_PIECES[1]) && Printable(NOTE_PIECES[2]);
  }

  lemma ProseIsOneLine()
    ensures OneLine(NOTE) && OneLine(PROSE) && OneLine(SOURCE_PATH)
  {
    PathsArePrintable();
    NotePiecesArePrintable();
    ProseHeadIsPrintable();
    ProseMiddleIsPrintable();
    ProseTailIsPrintable();
    ConcatenatedIsPrintable(NOTE_PIECES);
    ConcatenatedIsPrintable(PROSE_HEAD);
    ConcatenatedIsPrintable(PROSE_MIDDLE);
    ConcatenatedIsPrintable(PROSE_TAIL);
  }

  lemma ProseOpensNothing()
    ensures OpensNothing(NOTE) && OpensNothing(PROSE)
  {
    assert NOTE == NOTE_PIECES[0] + Concatenated(NOTE_PIECES[1..]);
    assert Concatenated(PROSE_HEAD) == PROSE_HEAD[0] + Concatenated(PROSE_HEAD[1..]);
    assert NOTE[0] == '<' && PROSE[0] == 'T';
  }

  lemma PreambleOpensBlock()
    ensures ReadLines(NOTHING_READ, README_PREAMBLE) == Extraction(true, map[])
  {
    var skipped := README_PREAMBLE[..7];
    assert README_PREAMBLE == skipped + [OPEN_FENCE];
    ProseOpensNothing();
    assert OpensNothing(README_BEGIN_MARKER) && OpensNothing("") && OpensNothing("### Source status (generated)");
    SkipsLines(NOTHING_READ, skipped);
    ReadLinesApart(NOTHING_READ, skipped, [OPEN_FENCE]);
    FencesStrip();
  }

  lemma ClosingKeys()
    ensures IsKey(SOURCE_KEY) && IsKey(MACHINE_KEY) && IsValue(SOURCE_PATH) && IsValue("true")
  {
    ProseIsOneLine();
    assert SOURCE_PATH[|SOURCE_PATH| - 1] == 'd';
  }

  lemma ClosingReads(m: map<string, string>)
    ensures ReadLines(Extraction(true, m), README_CLOSING) ==
            Extraction(false, m[SOURCE_KEY := SOURCE_PATH][MACHINE_KEY := "true"])
  {
    ClosingKeys();
    FencesStrip();
    FieldLineReads(SOURCE_KEY, SOURCE_PATH, m);
    FieldLineReads(MACHINE_KEY, "true", m[SOURCE_KEY := SOURCE_PATH]);
    ClosingStep(m, FieldLine(SOURCE_KEY, SOURCE_PATH), FieldLine(MACHINE_KEY, "true"));
  }

  lemma ClosingStep(m: map<string, string>, first: string, second: string)
    requires ReadLine(Extraction(true, m), first) == Extraction(true, m[SOURCE_KEY := SOURCE_PATH])
    requires ReadLine(Extraction(true, m[SOURCE_KEY := SOURCE_PATH]), second) ==
             Extraction(true, m[SOURCE_KEY := SOURCE_PATH][MACHINE_KEY := "true"])
    requires Strip(CLOSE_FENCE) == CLOSE_FENCE
    ensures ReadLines(Extraction(true, m), [first, second, CLOSE_FENCE, "", README_END_MARKER]) ==
            Extraction(false, m[SOURCE_KEY := SOURCE_PATH][MACHINE_KEY := "true"])
  {
    var tail := ["", README_END_MARKER];
    var filled := m[SOURCE_KEY := SOURCE_PATH][MACHINE_KEY := "true"];
    SkipsLines(Extraction(false, filled), tail);
    ReadOne(Extraction(true, m), first, [second] + ([CLOSE_FENCE] + tail));
    ReadOne(Extraction(true, m[SOURCE_KEY := SOURCE_PATH]), second, [CLOSE_FENCE] + tail);
    ReadOne(Extraction(true, filled), CLOSE_FENCE, tail);
    assert [first, second, CLOSE_FENCE, "", README_END_MARKER] == [first] + ([second] + ([CLOSE_FENCE] + tail));
  }

  lemma ReadOne(st: Extraction, line: string, rest: seq<string>)
    ensures ReadLines(st, [line] + rest) == ReadLines(ReadLine(st, line), rest)
  {
    assert ([line] + rest)[1..] == rest;
  }

  predicate AllLines(lines: seq<string>) { forall i :: 0 <= i < |lines| ==> OneLine(lines[i]) }

  lemma PreambleIsLines()
    ensures AllLines(README_PREAMBLE)
  {
    ProseIsOneLine();
    FencesStrip();
    MarkersAreLines();
  }

  lemma ClosingIsLines()
    ensures AllLines(README_CLOSING)
  {
    ClosingKeys();
    FencesStrip();
    MarkersAreLines();
    FieldLineReads(SOURCE_KEY, SOURCE_PATH, map[]);
    FieldLineReads(MACHINE_KEY, "true", map[]);
  }

  lemma ReadmeLinesAreLines(recorded: map<string, string>)
    requires IsFieldTable(recorded)
    ensures AllLines(ReadmeLines(recorded))
  {
    PreambleIsLines();
    ClosingIsLines();
    EchoIsLines(ECHOED_FIELDS, recorded);
    LinesJoin(README_PREAMBLE, EchoLines(ECHOED_FIELDS, recorded));
    LinesJoin(README_PREAMBLE + EchoLines(ECHOED_FIELDS, recorded), README_CLOSING);
  }

  lemma LinesJoin(xs: seq<string>, ys: seq<string>)
    requires AllLines(xs) && AllLines(ys)
    ensures AllLines(xs + ys)
  {
  }

  lemma BeginMarkerIsLine()
    ensures OneLine(README_BEGIN_MARKER)
  {
    assert Printable(README_BEGIN_MARKER);
  }

  lemma HeadingIsLine()
    ensures OneLine("### Source status (generated)")
  {
    assert Printable("### Source status (generated)");
  }

  lemma EndMarkerIsLine()
    ensures OneLine(README_END_MARKER)
  {
    assert Printable(README_END_MARKER);
  }

  lemma MarkersAreLines()
    ensures OneLine(README_BEGIN_MARKER) && OneLine(README_END_MARKER) && OneLine("### Source status (generated)")
  {
    BeginMarkerIsLine();
    HeadingIsLine();
    EndMarkerIsLine();
  }

  /** Parsing the printed block of any field table gives exactly the echoed
      fields and the block's own two. */
  lemma PrintedBlockParses(recorded: map<string, string>)
    requires IsFieldTable(recorded)
    ensures Extracted(JoinLines(ReadmeLines(recorded))) ==
            Echoed(ECHOED_FIELDS, recorded)[SOURCE_KEY := SOURCE_PATH][MACHINE_KEY := "true"]
  {
    var echo := EchoLines(ECHOED_FIELDS, recorded);
    var lines := ReadmeLines(recorded);
    ReadmeLinesAreLines(recorded);
    assert lines[|lines| - 1] == README_CLOSING[4];
    SplitOfJoin(lines);
    ReadLinesApart(NOTHING_READ, README_PREAMBLE + echo, README_CLOSING);
    ReadLinesApart(NOTHING_READ, README_PREAMBLE, echo);
    PreambleOpensBlock();
    EchoReads(ECHOED_FIELDS, recorded);
    ClosingReads(Echoed(ECHOED_FIELDS, recorded));
  }

  /** Round trip: for every document, parsing the rendered block of its extracted
      fields recovers every echoed field unchanged and invents none of them. */
  lemma EchoRoundTrip(document: string, key: string)
    requires key in ECHOED_FIELDS
    ensures var recorded := Extracted(document);
            var reread := Extracted(JoinLines(ReadmeLines(recorded)));
            && (key in reread <==> key in recorded)
            && (key in recorded ==> reread[key] == recorded[key])
  {
    ExtractedIsFieldTable(document);
    PrintedBlockParses(Extracted(document));
    EchoedAreNotTheBlocksOwn(key);
  }

  lemma EchoedAreNotTheBlocksOwn(key: string)
    requires key in ECHOED_FIELDS
    ensures key != SOURCE_KEY && key != MACHINE_KEY
  {
    assert |SOURCE_KEY| == 14 && SOURCE_KEY[0] == 'G';
    assert |MACHINE_KEY| == 31;
  }
}
