/** When a reflow can compute its outputs, down to the values it echoes, and a
    checkout whose lost receipt no further reflow repairs. */
module ReflowRefusals {
  import opened Results
  import opened Ordering
  import opened Texts
  import opened BoundedBlock
  import opened StatusFields
  import opened SourceReflow
  import opened ReflowConvergence

  // ---------------------------------------------------------------- counting markers line by line

  predicate Plain(s: string) { forall i :: 0 <= i < |s| ==> s[i] != '<' }

  predicate OnOneLine(m: string) { forall i :: 0 <= i < |m| ==> m[i] != '\n' }

  lemma {:induction false} PlainBefore(a: string, b: string, m: string)
    requires IsMarker(m) && Plain(a)
    ensures Count(a + b, m) == Count(b, m)
    decreases |a|
  {
    if a == "" {
      assert a + b == b;
    } else {
      assert (a + b)[0] == a[0] && (a + b)[1..] == a[1..] + b;
      PlainBefore(a[1..], b, m);
    }
  }

  lemma PlainHasNone(s: string, m: string)
    requires IsMarker(m) && Plain(s)
    ensures Count(s, m) == 0
  {
    PlainBefore(s, "", m);
    assert s + "" == s;
  }

  /** A text that opens with a bracket, has no other, and does not begin with m. */
  lemma OtherBracketHasNone(s: string, m: string)
    requires IsMarker(m) && s != "" && Plain(s[1..]) && !(m <= s)
    ensures Count(s, m) == 0
  {
    PlainHasNone(s[1..], m);
  }

  lemma MarkerStaysOnItsLine(a: string, b: string, m: string)
    requires OnOneLine(m) && m <= a + "\n" + b
    ensures m <= a
  {
    var joined := a + "\n" + b;
    assert joined[|a|] == '\n';
    assert forall i :: 0 <= i < |m| ==> m[i] == joined[i];
  }

  lemma {:induction false} NewlineApart(a: string, b: string, m: string)
    requires IsMarker(m) && OnOneLine(m)
    ensures Count(a + "\n" + b, m) == Count(a, m) + Count(b, m)
    decreases |a|
  {
    var joined := a + "\n" + b;
    if a == "" {
      assert joined[0] == '\n' && joined[1..] == b;
    } else if m <= a {
      assert m <= joined && joined[|m|..] == a[|m|..] + "\n" + b;
      NewlineApart(a[|m|..], b, m);
    } else {
      assert joined[1..] == a[1..] + "\n" + b;
      if m <= joined { MarkerStaysOnItsLine(a, b, m); }
      NewlineApart(a[1..], b, m);
    }
  }

  ghost function CountIn(lines: seq<string>, m: string): nat
    requires m != ""
  {
    if lines == [] then 0 else Count(lines[0], m) + CountIn(lines[1..], m)
  }

  lemma {:induction false} JoinCounts(lines: seq<string>, m: string)
    requires IsMarker(m) && OnOneLine(m)
    ensures Count(JoinLines(lines), m) == CountIn(lines, m)
  {
    if |lines| == 1 {
      assert CountIn(lines[1..], m) == 0;
    } else if lines != [] {
      NewlineApart(lines[0], JoinLines(lines[1..]), m);
      JoinCounts(lines[1..], m);
    }
  }

  lemma {:induction false} CountInApart(xs: seq<string>, ys: seq<string>, m: string)
    requires m != ""
    ensures CountIn(xs + ys, m) == CountIn(xs, m) + CountIn(ys, m)
  {
    if xs == [] {
      assert xs + ys == ys;
    } else {
      assert (xs + ys)[1..] == xs[1..] + ys;
      CountInApart(xs[1..], ys, m);
    }
  }

  // ---------------------------------------------------------------- echoed values

  /** The value holds neither marker. */
  ghost predicate Unmarked(v: string, begin: string, end: string)
    requires begin != "" && end != ""
  {
    Count(v, begin) == 0 && Count(v, end) == 0
  }

  predicate PlainKeys(keys: seq<string>) { forall i :: 0 <= i < |keys| ==> Plain(keys[i]) }

  lemma FieldCounts(key: string, value: string, m: string)
    requires IsMarker(m) && Plain(key)
    ensures Count(FieldLine(key, value), m) == Count(value, m)
  {
    PlainBefore(key + "=", value, m);
  }

  lemma {:induction false} EchoCounts(keys: seq<string>, recorded: map<string, string>, m: string)
    requires IsMarker(m) && PlainKeys(keys)
    ensures CountIn(EchoLines(keys, recorded), m) == 0 <==>
            forall i :: 0 <= i < |keys| && keys[i] in recorded ==> Count(recorded[keys[i]], m) == 0
  {
    if keys != [] {
      var n := |keys| - 1;
      EchoCounts(keys[..n], recorded, m);
      if keys[n] in recorded {
        CountInApart(EchoLines(keys[..n], recorded), [FieldLine(keys[n], recorded[keys[n]])], m);
        FieldCounts(keys[n], recorded[keys[n]], m);
        assert CountIn([FieldLine(keys[n], recorded[keys[n]])][1..], m) == 0;
      }
    }
  }

  /** Every recorded value among the keys is free of both markers. */
  ghost predicate EchoesUnmarked(keys: seq<string>, recorded: map<string, string>, begin: string, end: string)
    requires begin != "" && end != ""
  {
    forall i :: 0 <= i < |keys| && keys[i] in recorded ==> Unmarked(recorded[keys[i]], begin, end)
  }

  // ---------------------------------------------------------------- a block holds each marker once

  /** The two markers differ somewhere and lie on one line each. */
  ghost predicate MarkerPair(begin: string, end: string) {
    && IsMarker(begin) && IsMarker(end) && OnOneLine(begin) && OnOneLine(end)
    && exists i :: 0 <= i < |begin| && i < |end| && begin[i] != end[i]
  }

  lemma MarkersApart(begin: string, end: string)
    requires MarkerPair(begin, end)
    ensures begin != end && Count(begin, end) == 0 && Count(end, begin) == 0
  {
    var i :| 0 <= i < |begin| && i < |end| && begin[i] != end[i];
    OtherBracketHasNone(begin, end);
    OtherBracketHasNone(end, begin);
  }

  /** A line with no marker in sight: no bracket, or a leading one that opens neither. */
  predicate Harmless(line: string, begin: string, end: string) {
    Plain(line) || (line != "" && Plain(line[1..]) && !(begin <= line) && !(end <= line))
  }

  lemma HarmlessIsUnmarked(line: string, begin: string, end: string)
    requires IsMarker(begin) && IsMarker(end) && Harmless(line, begin, end)
    ensures Unmarked(line, begin, end)
  {
    if Plain(line) {
      PlainHasNone(line, begin);
      PlainHasNone(line, end);
    } else {
      OtherBracketHasNone(line, begin);
      OtherBracketHasNone(line, end);
    }
  }

  predicate AllHarmless(lines: seq<string>, begin: string, end: string) {
    forall i :: 0 <= i < |lines| ==> Harmless(lines[i], begin, end)
  }

  lemma HarmlessCount(lines: seq<string>, begin: string, end: string)
    requires IsMarker(begin) && IsMarker(end) && AllHarmless(lines, begin, end)
    ensures CountIn(lines, begin) == 0 && CountIn(lines, end) == 0
  {
    forall i | 0 <= i < |lines| ensures Unmarked(lines[i], begin, end) { HarmlessIsUnmarked(lines[i], begin, end); }
    LinesCount(lines, begin);
    LinesCount(lines, end);
  }

  function BlockLines(
      begin: string, head: seq<string>, fields: seq<string>, echoes: seq<string>, tail: seq<string>, end: string)
    : seq<string>
  {
    ([begin] + head) + (fields + (echoes + (tail + [end])))
  }

  /** A block - its begin marker, harmless lines, some lines, the echoes, harmless
      lines, its end marker - holds each marker once exactly when neither one of those
      lines nor an echoed value holds one. */
  lemma BlockHoldsOnceExactly(begin: string, head: seq<string>, fields: seq<string>, keys: seq<string>,
                              recorded: map<string, string>, tail: seq<string>, end: string)
    requires MarkerPair(begin, end) && PlainKeys(keys) && AllHarmless(head, begin, end) && AllHarmless(tail, begin, end)
    ensures var lines := BlockLines(begin, head, fields, EchoLines(keys, recorded), tail, end);
            HoldsEachOnce(JoinLines(lines), begin, end) <==>
            && (forall i :: 0 <= i < |fields| ==> Unmarked(fields[i], begin, end))
            && EchoesUnmarked(keys, recorded, begin, end)
  {
    var echoes := EchoLines(keys, recorded);
    MarkersApart(begin, end);
    CountOfItself(begin);
    CountOfItself(end);
    HarmlessCount(head, begin, end);
    HarmlessCount(tail, begin, end);
    CountOfBlock(begin, head, fields, echoes, tail, end, begin);
    CountOfBlock(begin, head, fields, echoes, tail, end, end);
    EchoCounts(keys, recorded, begin);
    EchoCounts(keys, recorded, end);
    LinesCount(fields, begin);
    LinesCount(fields, end);
  }

  lemma {:induction false} LinesCount(lines: seq<string>, m: string)
    requires m != ""
    ensures CountIn(lines, m) == 0 <==> forall i :: 0 <= i < |lines| ==> Count(lines[i], m) == 0
  {
    if lines != [] {
      LinesCount(lines[1..], m);
      if forall i :: 0 <= i < |lines| ==> Count(lines[i], m) == 0 {
        forall i | 0 <= i < |lines[1..]| ensures Count(lines[1..][i], m) == 0 { assert lines[1..][i] == lines[i + 1]; }
      }
      if CountIn(lines, m) == 0 {
        forall i | 0 <= i < |lines|
          ensures Count(lines[i], m) == 0
        {
          if i > 0 { assert lines[1..][i - 1] == lines[i]; }
        }
      }
    }
  }

  lemma CountInOne(line: string, m: string)
    requires m != ""
    ensures CountIn([line], m) == Count(line, m)
  {
    assert [line][1..] == [];
  }

  lemma CountOfBlock(begin: string, head: seq<string>, fields: seq<string>, echoes: seq<string>, tail: seq<string>,
                     end: string, m: string)
    requires IsMarker(m) && OnOneLine(m) && CountIn(head, m) == 0 && CountIn(tail, m) == 0
    ensures Count(JoinLines(BlockLines(begin, head, fields, echoes, tail, end)), m) ==
            Count(begin, m) + CountIn(fields, m) + CountIn(echoes, m) + Count(end, m)
  {
    JoinCounts(BlockLines(begin, head, fields, echoes, tail, end), m);
    CountInApart([begin] + head, fields + (echoes + (tail + [end])), m);
    CountInApart(fields, echoes + (tail + [end]), m);
    CountInApart(echoes, tail + [end], m);
    CountInApart([begin], head, m);
    CountInApart(tail, [end], m);
    CountInOne(begin, m);
    CountInOne(end, m);
  }

  // ---------------------------------------------------------------- the two blocks

  lemma ReadmeMarkerPair()
    ensures MarkerPair(README_BEGIN_MARKER, README_END_MARKER)
  {
    ReadmeMarkersAreMarkers();
    assert README_BEGIN_MARKER[29] == 'B' && README_END_MARKER[29] == 'E';
  }

  lemma HandoffMarkerPair()
    ensures MarkerPair(HANDOFF_BEGIN_MARKER, HANDOFF_END_MARKER)
  {
    HandoffMarkersAreMarkers();
    assert HANDOFF_BEGIN_MARKER[30] == 'B' && HANDOFF_END_MARKER[30] == 'E';
  }

  lemma {:induction false} ConcatenatedIsPlain(pieces: seq<string>)
    requires forall i :: 0 <= i < |pieces| ==> Plain(pieces[i])
    ensures Plain(Concatenated(pieces))
  {
    if pieces != [] { ConcatenatedIsPlain(pieces[1..]); }
  }

  /** A comment that opens with a bracket and differs from both markers in place 5. */
  lemma NoteIsHarmless(pieces: seq<string>, begin: string, end: string)
    requires |pieces| == 3 && |pieces[0]| > 5 && Plain(pieces[0][1..]) && Plain(pieces[1]) && Plain(pieces[2])
    requires |begin| > 5 && |end| > 5 && begin[5] != pieces[0][5] && end[5] != pieces[0][5]
    ensures Harmless(Concatenated(pieces), begin, end)
  {
    var (note, rest) := (Concatenated(pieces), Concatenated(pieces[1..]));
    ConcatenatedIsPlain(pieces[1..]);
    assert note == pieces[0] + rest && note[1..] == pieces[0][1..] + rest && note[5] == pieces[0][5];
  }

  lemma ReadmeNoteIsHarmless()
    ensures Harmless(NOTE, README_BEGIN_MARKER, README_END_MARKER)
  {
    NoteIsHarmless(NOTE_PIECES, README_BEGIN_MARKER, README_END_MARKER);
  }

  lemma HandoffNoteIsHarmless()
    ensures Harmless(HANDOFF_NOTE, HANDOFF_BEGIN_MARKER, HANDOFF_END_MARKER)
  {
    NoteIsHarmless(HANDOFF_NOTE_PIECES, HANDOFF_BEGIN_MARKER, HANDOFF_END_MARKER);
  }

  lemma PathsArePlain()
    ensures Plain(SOURCE_PATH) && Plain(INDEX_PATH)
  {
    assert Plain(SOURCES) && Plain(STATE_FILE) && Plain(INDEX_FILE);
  }

  lemma ProseIsPlain()
    ensures Plain(PROSE)
  {
    PathsArePlain();
    assert Plain(PROSE_HEAD[0]) && Plain(PROSE_HEAD[1]) && Plain(PROSE_HEAD[3]);
    ConcatenatedIsPlain(PROSE_HEAD);
    ProseRestIsPlain();
  }

  lemma ProseRestIsPlain()
    ensures Plain(Concatenated(PROSE_MIDDLE)) && Plain(Concatenated(PROSE_TAIL))
  {
    PathsArePlain();
    assert Plain(PROSE_MIDDLE[0]) && Plain(PROSE_MIDDLE[1]) && Plain(PROSE_MIDDLE[2]);
    assert Plain(PROSE_MIDDLE[3]) && Plain(PROSE_MIDDLE[4]) && Plain(PROSE_MIDDLE[5]);
    ConcatenatedIsPlain(PROSE_MIDDLE);
    assert Plain(PROSE_TAIL[0]) && Plain(PROSE_TAIL[2]) && Plain(PROSE_TAIL[4]);
    ConcatenatedIsPlain(PROSE_TAIL);
  }

  lemma KeysArePlain()
    ensures PlainKeys(ECHOED_FIELDS) && PlainKeys(HANDOFF_KEYS) && Plain(SOURCE_KEY) && Plain(MACHINE_KEY)
  {
    assert Plain(ECHOED_FIELDS[0]) && Plain(ECHOED_FIELDS[1]) && Plain(ECHOED_FIELDS[2]);
    assert Plain(ECHOED_FIELDS[3]) && Plain(ECHOED_FIELDS[4]) && Plain(ECHOED_FIELDS[5]);
    assert Plain(HANDOFF_KEYS[0]) && Plain(HANDOFF_KEYS[1]) && Plain(HANDOFF_KEYS[2]);
  }

  lemma ReadmeHeadIsHarmless()
    ensures AllHarmless([NOTE, "", "### Source status (generated)", "", PROSE, "", OPEN_FENCE],
                        README_BEGIN_MARKER, README_END_MARKER)
  {
    ReadmeNoteIsHarmless();
    ProseIsPlain();
    assert Plain("### Source status (generated)") && Plain(OPEN_FENCE) && Plain("");
  }

  lemma ReadmeTailIsHarmless()
    ensures AllHarmless([FieldLine(SOURCE_KEY, SOURCE_PATH), FieldLine(MACHINE_KEY, "true"), CLOSE_FENCE, ""],
                        README_BEGIN_MARKER, README_END_MARKER)
  {
    PathsArePlain();
    KeysArePlain();
    assert Plain("true") && Plain(CLOSE_FENCE) && Plain("");
  }

  lemma HandoffHeadIsHarmless()
    ensures AllHarmless([HANDOFF_NOTE, "", "### Handoff status (generated)", "", OPEN_FENCE],
                        HANDOFF_BEGIN_MARKER, HANDOFF_END_MARKER)
  {
    HandoffNoteIsHarmless();
    assert Plain("### Handoff status (generated)") && Plain(OPEN_FENCE) && Plain("");
  }

  lemma HandoffTailIsHarmless()
    ensures AllHarmless([FieldLine("TRANSFER_STATUS", "NOT_DECLARED"), FieldLine(MACHINE_KEY, "true"), CLOSE_FENCE, ""],
                        HANDOFF_BEGIN_MARKER, HANDOFF_END_MARKER)
  {
    KeysArePlain();
    assert Plain("TRANSFER_STATUS") && Plain("NOT_DECLARED") && Plain("true") && Plain(CLOSE_FENCE) && Plain("");
  }

  // ---------------------------------------------------------------- exactly when the outputs are computed

  lemma ReadmeLinesAre(recorded: map<string, string>, head: seq<string>, tail: seq<string>)
    requires head == [NOTE, "", "### Source status (generated)", "", PROSE, "", OPEN_FENCE]
    requires tail == [FieldLine(SOURCE_KEY, SOURCE_PATH), FieldLine(MACHINE_KEY, "true"), CLOSE_FENCE, ""]
    ensures ReadmeLines(recorded) ==
            BlockLines(README_BEGIN_MARKER, head, [], EchoLines(ECHOED_FIELDS, recorded), tail, README_END_MARKER)
  {
  }

  lemma ReadmeBlockHoldsOnce(inputs: Inputs)
    ensures HoldsEachOnce(ReadmeBlock(inputs), README_BEGIN_MARKER, README_END_MARKER) <==>
            EchoesUnmarked(ECHOED_FIELDS, Extracted(inputs.stateText), README_BEGIN_MARKER, README_END_MARKER)
  {
    var recorded := Extracted(inputs.stateText);
    var head := [NOTE, "", "### Source status (generated)", "", PROSE, "", OPEN_FENCE];
    var tail := [FieldLine(SOURCE_KEY, SOURCE_PATH), FieldLine(MACHINE_KEY, "true"), CLOSE_FENCE, ""];
    ReadmeMarkerPair();
    ReadmeHeadIsHarmless();
    ReadmeTailIsHarmless();
    KeysArePlain();
    BlockHoldsOnceExactly(README_BEGIN_MARKER, head, [], ECHOED_FIELDS, recorded, tail, README_END_MARKER);
    ReadmeLinesAre(recorded, head, tail);
  }

  lemma HandoffLinesAre(
      mainSha: string, observedAt: string, recorded: map<string, string>, head: seq<string>, tail: seq<string>)
    requires head == [HANDOFF_NOTE, "", "### Handoff status (generated)", "", OPEN_FENCE]
    requires tail == [FieldLine("TRANSFER_STATUS", "NOT_DECLARED"), FieldLine(MACHINE_KEY, "true"), CLOSE_FENCE, ""]
    ensures HandoffLines(mainSha, observedAt, recorded) ==
            BlockLines(HANDOFF_BEGIN_MARKER, head,
                       [FieldLine("MAIN_SHA", mainSha), FieldLine("OBSERVED_AT_UTC", observedAt)],
                       EchoLines(HANDOFF_KEYS, recorded), tail, HANDOFF_END_MARKER)
  {
  }

  /** The two fields the block takes from the run itself. */
  lemma RunFieldsUnmarked(mainSha: string, observedAt: string, begin: string, end: string)
    requires IsMarker(begin) && IsMarker(end)
    ensures var fields := [FieldLine("MAIN_SHA", mainSha), FieldLine("OBSERVED_AT_UTC", observedAt)];
            (forall i :: 0 <= i < |fields| ==> Unmarked(fields[i], begin, end)) <==>
            Unmarked(mainSha, begin, end) && Unmarked(observedAt, begin, end)
  {
    var fields := [FieldLine("MAIN_SHA", mainSha), FieldLine("OBSERVED_AT_UTC", observedAt)];
    assert Plain("MAIN_SHA") && Plain("OBSERVED_AT_UTC");
    FieldCounts("MAIN_SHA", mainSha, begin);
    FieldCounts("MAIN_SHA", mainSha, end);
    FieldCounts("OBSERVED_AT_UTC", observedAt, begin);
    FieldCounts("OBSERVED_AT_UTC", observedAt, end);
    if forall i :: 0 <= i < |fields| ==> Unmarked(fields[i], begin, end) {
      assert Unmarked(fields[0], begin, end) && Unmarked(fields[1], begin, end);
    }
  }

  lemma HandoffBlockHoldsOnce(inputs: Inputs)
    ensures HoldsEachOnce(HandoffBlock(inputs), HANDOFF_BEGIN_MARKER, HANDOFF_END_MARKER) <==>
            && Unmarked(inputs.mainSha, HANDOFF_BEGIN_MARKER, HANDOFF_END_MARKER)
            && Unmarked(inputs.observedAt, HANDOFF_BEGIN_MARKER, HANDOFF_END_MARKER)
            && EchoesUnmarked(HANDOFF_KEYS, Extracted(inputs.stateText), HANDOFF_BEGIN_MARKER, HANDOFF_END_MARKER)
  {
    var recorded := Extracted(inputs.stateText);
    var head := [HANDOFF_NOTE, "", "### Handoff status (generated)", "", OPEN_FENCE];
    var tail := [FieldLine("TRANSFER_STATUS", "NOT_DECLARED"), FieldLine(MACHINE_KEY, "true"), CLOSE_FENCE, ""];
    var fields := [FieldLine("MAIN_SHA", inputs.mainSha), FieldLine("OBSERVED_AT_UTC", inputs.observedAt)];
    HandoffMarkerPair();
    HandoffHeadIsHarmless();
    HandoffTailIsHarmless();
    KeysArePlain();
    BlockHoldsOnceExactly(HANDOFF_BEGIN_MARKER, head, fields, HANDOFF_KEYS, recorded, tail, HANDOFF_END_MARKER);
    HandoffLinesAre(inputs.mainSha, inputs.observedAt, recorded, head, tail);
    RunFieldsUnmarked(inputs.mainSha, inputs.observedAt, HANDOFF_BEGIN_MARKER, HANDOFF_END_MARKER);
  }

  lemma CommitIdIsUnmarked(sha: string, begin: string, end: string)
    requires LooksLikeGitSha(sha) && IsMarker(begin) && IsMarker(end)
    ensures Unmarked(sha, begin, end)
  {
    PlainHasNone(sha, begin);
    PlainHasNone(sha, end);
  }

  /** Forty or sixty-four hexadecimal digits. */
  predicate IsCommitId(sha: string) {
    (|sha| == 40 || |sha| == 64) && forall i :: 0 <= i < |sha| ==> sha[i] in "0123456789abcdefABCDEF"
  }

  lemma CommitIdsAreHex(sha: string)
    ensures LooksLikeGitSha(sha) <==> IsCommitId(sha)
  {
    forall i | 0 <= i < |sha| ensures IsHex(sha[i]) <==> sha[i] in "0123456789abcdefABCDEF" { HexDigits(sha[i]); }
  }

  lemma HexDigits(c: char)
    ensures IsHex(c) <==> c in "0123456789abcdefABCDEF"
  {
    var digits := "0123456789abcdefABCDEF";
    if '0' <= c <= '9' { assert digits[c as int - '0' as int] == c; }
    if 'a' <= c <= 'f' { assert digits[10 + (c as int - 'a' as int)] == c; }
    if 'A' <= c <= 'F' { assert digits[16 + (c as int - 'A' as int)] == c; }
  }

  /** The outputs are computed exactly when the commit id is one, each document holds
      one well-ordered marker pair, no echoed value and no observation time holds a
      marker of its block, and no source document is named like the manifest. */
  lemma RefusesOnEchoesExactly(enc: Encoders, inputs: Inputs)
    ensures Outputs(enc, inputs).Ok? <==>
            && IsCommitId(inputs.mainSha)
            && Bounds(ExistingHandoff(inputs), HANDOFF_BEGIN_MARKER, HANDOFF_END_MARKER).Ok?
            && Bounds(inputs.readmeText, README_BEGIN_MARKER, README_END_MARKER).Ok?
            && Unmarked(inputs.observedAt, HANDOFF_BEGIN_MARKER, HANDOFF_END_MARKER)
            && EchoesUnmarked(HANDOFF_KEYS, Extracted(inputs.stateText), HANDOFF_BEGIN_MARKER, HANDOFF_END_MARKER)
            && EchoesUnmarked(ECHOED_FIELDS, Extracted(inputs.stateText), README_BEGIN_MARKER, README_END_MARKER)
            && SUMS_PATH !in inputs.sourceDocuments
  {
    RefusesExactly(enc, inputs);
    ReadmeBlockHoldsOnce(inputs);
    HandoffBlockHoldsOnce(inputs);
    HandoffMarkerPair();
    CommitIdsAreHex(inputs.mainSha);
    if LooksLikeGitSha(inputs.mainSha) { CommitIdIsUnmarked(inputs.mainSha, HANDOFF_BEGIN_MARKER, HANDOFF_END_MARKER); }
  }

  /** A wrong commit id is refused first, and a source document named like the manifest
      last; in between a document whose markers are no pair is refused as its human text
      is, and no human text is ever found changed. */
  lemma RefusalsAreExact(enc: Encoders, inputs: Inputs)
    ensures Outputs(enc, inputs) == Err(NotACommit) <==> !IsCommitId(inputs.mainSha)
    ensures Outputs(enc, inputs) == Err(ManifestOfItself) <==>
            && IsCommitId(inputs.mainSha) && SUMS_PATH in inputs.sourceDocuments
            && CanRegenerate(ExistingHandoff(inputs), HandoffBlock(inputs), HANDOFF_BEGIN_MARKER, HANDOFF_END_MARKER)
            && CanRegenerate(inputs.readmeText, ReadmeBlock(inputs), README_BEGIN_MARKER, README_END_MARKER)
    ensures Outputs(enc, inputs) != Err(HumanTextChanged) && Outputs(enc, inputs) != Err(MissingSource)
    ensures var found := Bounds(ExistingHandoff(inputs), HANDOFF_BEGIN_MARKER, HANDOFF_END_MARKER);
            IsCommitId(inputs.mainSha) && found.Err? ==> Outputs(enc, inputs) == Err(Markers(found.error))
  {
    CommitIdsAreHex(inputs.mainSha);
    DocumentsRegenerate(inputs);
    HandoffMarkersAreMarkers();
    ReadmeMarkersAreMarkers();
    HandoffBlockIsFramed(inputs);
    ReadmeBlockIsFramed(inputs);
    RefusedByMarkers(ExistingHandoff(inputs), HandoffBlock(inputs), HANDOFF_BEGIN_MARKER, HANDOFF_END_MARKER);
    RefusedByMarkers(inputs.readmeText, ReadmeBlock(inputs), README_BEGIN_MARKER, README_END_MARKER);
  }

  lemma RefusedByMarkers(text: string, block: string, begin: string, end: string)
    requires IsMarker(begin) && IsMarker(end) && begin != end && IsFramed(block, begin, end)
    ensures Regenerated(text, block, begin, end).Err? ==> Regenerated(text, block, begin, end).error.Markers?
    ensures Bounds(text, begin, end).Err? ==>
              Regenerated(text, block, begin, end) == Err(Markers(Bounds(text, begin, end).error))
  {
    if Bounds(text, begin, end).Ok? { RegenerationKeepsHumanText(text, block, begin, end, block); }
  }

  // ---------------------------------------------------------------- a lost receipt

  lemma GatheredWithoutReceipt(files: map<string, string>, mainSha: string, observedAt: string, tracked: seq<string>)
    ensures Gathered(files - {RECEIPT_PATH}, mainSha, observedAt, tracked) ==
            Gathered(files, mainSha, observedAt, tracked)
  {
    var lost := files - {RECEIPT_PATH};
    AllowlistedIsNoSource(RECEIPT_PATH);
    StateIsSource();
    LedgerIsSource();
    PathsAreDistinct();
    forall p | IsSourceDocument(p) ensures (p in lost <==> p in files) && (p in files ==> lost[p] == files[p]) {
      assert p != RECEIPT_PATH;
    }
    assert SourceDocuments(lost) == SourceDocuments(files);
  }

  /** Delete the receipt from the checkout a reflow left: the next run finds nothing
      stale and writes nothing, and the candidate does not validate. */
  lemma LostReceiptIsNotRepaired(
    enc: Encoders, files: map<string, string>, mainSha: string, observedAt: string, tracked: seq<string>,
    later: seq<string>,
    inputs: Inputs, outputs: map<string, string>)
    requires Gathered(files, mainSha, observedAt, tracked) == Ok(inputs) && TracksAtMost(tracked, later)
    requires Outputs(enc, inputs) == Ok(outputs) && SUMS_PATH in outputs
    ensures var lost := Reflowed(enc, inputs, files, outputs) - {RECEIPT_PATH};
            var next := Gathered(lost, mainSha, observedAt, later);
            next.Ok? && WritesNothing(enc, next.value, lost, outputs) && !ReceiptMatches(enc, next.value, lost, outputs)
  {
    var after := Reflowed(enc, inputs, files, outputs);
    ReflowConverges(enc, files, mainSha, observedAt, tracked, later, inputs, outputs);
    GatheredWithoutReceipt(after, mainSha, observedAt, later);
    OutputsAt(enc, inputs, outputs);
    NothingWithoutReceipt(enc, Gathered(after, mainSha, observedAt, later).value, after, outputs);
  }

  lemma NothingWithoutReceipt(enc: Encoders, inputs: Inputs, files: map<string, string>, outputs: map<string, string>)
    requires WritesNothing(enc, inputs, files, outputs) && RECEIPT_PATH !in outputs
    ensures var lost := files - {RECEIPT_PATH};
            WritesNothing(enc, inputs, lost, outputs) && !ReceiptMatches(enc, inputs, lost, outputs)
  {
    NothingStaleWithoutReceipt(files, outputs);
    NothingIsWritten(enc, inputs, files - {RECEIPT_PATH}, outputs);
  }

  lemma NothingIsWritten(enc: Encoders, inputs: Inputs, lost: map<string, string>, outputs: map<string, string>)
    requires SUMS_PATH in outputs && RECEIPT_PATH !in lost && Stale(lost, outputs) == {}
    ensures LeavesAlone(enc, inputs, lost, outputs) && !ReceiptMatches(enc, inputs, lost, outputs)
  {
  }

  lemma NothingStaleWithoutReceipt(files: map<string, string>, outputs: map<string, string>)
    requires RECEIPT_PATH !in outputs && Stale(files, outputs) == {}
    ensures Stale(files - {RECEIPT_PATH}, outputs) == {}
  {
    forall p | p in outputs ensures p in files && files[p] == outputs[p] { assert p !in Stale(files, outputs); }
  }

  // ---------------------------------------------------------------- at an input

  lemma BareMarkersBound(begin: string, end: string)
    requires MarkerPair(begin, end)
    ensures Bounds(begin + end, begin, end).Ok?
  {
    MarkersApart(begin, end);
    CountOfItself(begin);
    CountOfItself(end);
    CountApart(begin, end, begin);
    CountApart(begin, end, end);
    IndexApart(begin, end, end);
    IndexBefore(begin, end, begin);
  }

  /** A checkout of empty sources and documents that hold nothing but their markers. */
  ghost predicate Bare(files: map<string, string>) {
    && SOURCE_PATH in files && files[SOURCE_PATH] == "" && LEDGER_PATH in files
    && README_PATH in files && files[README_PATH] == README_BEGIN_MARKER + README_END_MARKER
    && HANDOFF_PATH in files && files[HANDOFF_PATH] == HANDOFF_BEGIN_MARKER + HANDOFF_END_MARKER
  }

  const BARE := map[SOURCE_PATH := "", LEDGER_PATH := "", README_PATH := README_BEGIN_MARKER + README_END_MARKER,
                    HANDOFF_PATH := HANDOFF_BEGIN_MARKER + HANDOFF_END_MARKER]

  lemma BareIsBare()
    ensures Bare(BARE)
  {
    StateIsSource();
    LedgerIsSource();
    RootIsNoSource(README_PATH);
    RootIsNoSource(HANDOFF_PATH);
    PathsAreDistinct();
    assert SOURCE_PATH[21..] == STATE_FILE && LEDGER_PATH[21..] == LEDGER_FILE;
  }

  lemma BareReflows(enc: Encoders, files: map<string, string>, mainSha: string)
    requires Bare(files) && IsCommitId(mainSha)
    ensures Gathered(files, mainSha, "", []).Ok? && Outputs(enc, Gathered(files, mainSha, "", []).value).Ok?
  {
    var inputs := Gathered(files, mainSha, "", []).value;
    ReadmeMarkerPair();
    HandoffMarkerPair();
    BareMarkersBound(README_BEGIN_MARKER, README_END_MARKER);
    BareMarkersBound(HANDOFF_BEGIN_MARKER, HANDOFF_END_MARKER);
    RootIsNoSource(SUMS_PATH);
    PlainHasNone("", HANDOFF_BEGIN_MARKER);
    PlainHasNone("", HANDOFF_END_MARKER);
    assert Extracted("") == map[];
    RefusesOnEchoesExactly(enc, inputs);
  }

  /** One such checkout: reflowed and its receipt deleted, it stays as it is and does
      not validate. */
  lemma AReceiptStaysLost(enc: Encoders)
    ensures var sha := seq(40, _ => '0');
            var first := Gathered(BARE, sha, "", []);
            && first.Ok? && Outputs(enc, first.value).Ok?
            && var outputs := Outputs(enc, first.value).value;
            && SUMS_PATH in outputs
            && var lost := Reflowed(enc, first.value, BARE, outputs) - {RECEIPT_PATH};
            && var next := Gathered(lost, sha, "", []);
            && next.Ok? && WritesNothing(enc, next.value, lost, outputs)
            && !ReceiptMatches(enc, next.value, lost, outputs)
  {
    var sha := seq(40, _ => '0');
    assert LooksLikeGitSha(sha);
    CommitIdsAreHex(sha);
    BareIsBare();
    BareReflows(enc, BARE, sha);
    var first := Gathered(BARE, sha, "", []).value;
    OutputsHoldSums(enc, first);
    LostReceiptIsNotRepaired(enc, BARE, sha, "", [], [], first, Outputs(enc, first).value);
  }
}
