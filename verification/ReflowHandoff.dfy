/** What the generated hand-off block says, read back by the parser of fields. */
module ReflowHandoff {
  import opened Results
  import opened Texts
  import opened BoundedBlock
  import opened StatusFields
  import opened SourceReflow
  import opened ReflowConvergence
  import opened ReflowRefusals

  /** The lines up to the fence that opens the block's fields. */
  const PREAMBLE: seq<string> := [
    HANDOFF_BEGIN_MARKER, HANDOFF_NOTE, "", "### Handoff status (generated)", "", OPEN_FENCE]

  const CLOSING: seq<string> := [CLOSE_FENCE, "", HANDOFF_END_MARKER]

  lemma NoteStarts()
    ensures HANDOFF_NOTE != "" && HANDOFF_NOTE[0] == '<'
  {
    assert HANDOFF_NOTE == HANDOFF_NOTE_PIECES[0] + Concatenated(HANDOFF_NOTE_PIECES[1..]);
  }

  lemma NoteIsLine()
    ensures OneLine(HANDOFF_NOTE)
  {
    assert Printable(HANDOFF_NOTE_PIECES[0]) && Printable(HANDOFF_NOTE_PIECES[1]) && Printable(HANDOFF_NOTE_PIECES[2]);
    ConcatenatedIsPrintable(HANDOFF_NOTE_PIECES);
  }

  lemma HeadingsAreLines()
    ensures OneLine("### Handoff status (generated)")
    ensures OneLine(HANDOFF_BEGIN_MARKER) && OneLine(HANDOFF_END_MARKER)
  {
    assert Printable("### Handoff status (generated)");
    BeginIsLine();
    EndIsLine();
  }

  lemma BeginIsLine()
    ensures OneLine(HANDOFF_BEGIN_MARKER)
  {
    assert Printable(HANDOFF_BEGIN_MARKER);
  }

  lemma EndIsLine()
    ensures OneLine(HANDOFF_END_MARKER)
  {
    assert Printable(HANDOFF_END_MARKER);
  }

  lemma PreambleOpens()
    ensures ReadLines(NOTHING_READ, PREAMBLE) == Extraction(true, map[])
  {
    var skipped := PREAMBLE[..5];
    NoteStarts();
    assert PREAMBLE == skipped + [OPEN_FENCE];
    assert OpensNothing(HANDOFF_BEGIN_MARKER) && OpensNothing("") && OpensNothing("### Handoff status (generated)");
    SkipsLines(NOTHING_READ, skipped);
    ReadLinesApart(NOTHING_READ, skipped, [OPEN_FENCE]);
    FencesStrip();
  }

  lemma ClosingEnds(m: map<string, string>)
    ensures ReadLines(Extraction(true, m), CLOSING) == Extraction(false, m)
  {
    FencesStrip();
    SkipsLines(Extraction(false, m), CLOSING[1..]);
  }

  lemma FrameIsLines()
    ensures AllLines(PREAMBLE) && AllLines(CLOSING)
  {
    NoteIsLine();
    HeadingsAreLines();
    FencesStrip();
  }

  lemma TwoFieldsRead(m: map<string, string>, k: string, v: string, l: string, w: string)
    requires IsKey(k) && IsValue(v) && IsKey(l) && IsValue(w)
    ensures ReadLines(Extraction(true, m), [FieldLine(k, v), FieldLine(l, w)]) == Extraction(true, m[k := v][l := w])
    ensures AllLines([FieldLine(k, v), FieldLine(l, w)])
  {
    FieldLineReads(k, v, m);
    FieldLineReads(l, w, m[k := v]);
    ReadOne(Extraction(true, m), FieldLine(k, v), [FieldLine(l, w)]);
    ReadOne(Extraction(true, m[k := v]), FieldLine(l, w), []);
    assert [FieldLine(k, v), FieldLine(l, w)] == [FieldLine(k, v)] + [FieldLine(l, w)];
    assert [FieldLine(l, w)] == [FieldLine(l, w)] + [];
  }

  ghost predicate EchoIsReadOnto(keys: seq<string>, recorded: map<string, string>, m: map<string, string>) {
    ReadLines(Extraction(true, m), EchoLines(keys, recorded)) == Extraction(true, m + Echoed(keys, recorded))
  }

  lemma UpdateOnto(m: map<string, string>, e: map<string, string>, k: string, v: string)
    ensures (m + e)[k := v] == m + e[k := v]
  {
  }

  lemma FieldReadsAfter(st: Extraction, lines: seq<string>, m: map<string, string>, k: string, v: string)
    requires ReadLines(st, lines) == Extraction(true, m) && IsKey(k) && IsValue(v)
    ensures ReadLines(st, lines + [FieldLine(k, v)]) == Extraction(true, m[k := v])
  {
    FieldLineReads(k, v, m);
    ReadLinesApart(st, lines, [FieldLine(k, v)]);
    ReadOne(Extraction(true, m), FieldLine(k, v), []);
    assert [FieldLine(k, v)] + [] == [FieldLine(k, v)];
  }

  lemma EchoOfOneMore(before: seq<string>, key: string, recorded: map<string, string>)
    ensures EchoLines(before + [key], recorded) ==
            EchoLines(before, recorded) + if key in recorded then [FieldLine(key, recorded[key])] else []
  {
    assert (before + [key])[..|before|] == before;
  }

  lemma EchoOntoOneMore(before: seq<string>, key: string, recorded: map<string, string>, m: map<string, string>)
    requires IsFieldTable(recorded) && EchoIsReadOnto(before, recorded, m)
    ensures EchoIsReadOnto(before + [key], recorded, m)
  {
    EchoedOneMore(before, key, recorded);
    EchoOfOneMore(before, key, recorded);
    if key in recorded {
      FieldReadsAfter(Extraction(true, m), EchoLines(before, recorded), m + Echoed(before, recorded),
                      key, recorded[key]);
      UpdateOnto(m, Echoed(before, recorded), key, recorded[key]);
    } else {
      assert EchoLines(before, recorded) + [] == EchoLines(before, recorded);
    }
  }

  lemma {:induction false} EchoReadsOnto(keys: seq<string>, recorded: map<string, string>, m: map<string, string>)
    requires IsFieldTable(recorded)
    ensures EchoIsReadOnto(keys, recorded, m)
  {
    if keys == [] {
      assert Echoed(keys, recorded) == map[];
      assert m + map[] == m;
    } else {
      var (before, key) := (keys[..|keys| - 1], keys[|keys| - 1]);
      EchoReadsOnto(before, recorded, m);
      EchoOntoOneMore(before, key, recorded, m);
      assert keys == before + [key];
    }
  }

  /** The fields of the block: the run's commit and time, the echoed fields of the state
      document, and the block's own two. */
  ghost function HandoffFields(mainSha: string, observedAt: string, recorded: map<string, string>)
    : map<string, string>
  {
    (map["MAIN_SHA" := mainSha, "OBSERVED_AT_UTC" := observedAt] + Echoed(HANDOFF_KEYS, recorded))
    ["TRANSFER_STATUS" := "NOT_DECLARED"][MACHINE_KEY := "true"]
  }

  lemma KeysAreKeys()
    ensures IsKey("MAIN_SHA") && IsKey("OBSERVED_AT_UTC") && IsKey("TRANSFER_STATUS") && IsKey(MACHINE_KEY)
    ensures IsValue("NOT_DECLARED") && IsValue("true")
  {
  }

  lemma BlockInParts(mainSha: string, observedAt: string, recorded: map<string, string>)
    ensures HandoffLines(mainSha, observedAt, recorded) ==
            PREAMBLE
            + ([FieldLine("MAIN_SHA", mainSha), FieldLine("OBSERVED_AT_UTC", observedAt)]
               + (EchoLines(HANDOFF_KEYS, recorded)
                  + ([FieldLine("TRANSFER_STATUS", "NOT_DECLARED"), FieldLine(MACHINE_KEY, "true")] + CLOSING)))
  {
  }

  lemma PartsRead(first: seq<string>, echo: seq<string>, last: seq<string>, a: map<string, string>,
                  b: map<string, string>, c: map<string, string>)
    requires ReadLines(Extraction(true, map[]), first) == Extraction(true, a)
    requires ReadLines(Extraction(true, a), echo) == Extraction(true, b)
    requires ReadLines(Extraction(true, b), last) == Extraction(true, c)
    ensures ReadLines(NOTHING_READ, PREAMBLE + (first + (echo + (last + CLOSING)))) == Extraction(false, c)
  {
    PreambleOpens();
    ClosingEnds(c);
    ReadLinesApart(NOTHING_READ, PREAMBLE, first + (echo + (last + CLOSING)));
    ReadLinesApart(Extraction(true, map[]), first, echo + (last + CLOSING));
    ReadLinesApart(Extraction(true, a), echo, last + CLOSING);
    ReadLinesApart(Extraction(true, b), last, CLOSING);
  }

  lemma PartsAreLines(first: seq<string>, echo: seq<string>, last: seq<string>)
    requires AllLines(first) && AllLines(echo) && AllLines(last)
    ensures AllLines(PREAMBLE + (first + (echo + (last + CLOSING))))
  {
    FrameIsLines();
    LinesJoin(last, CLOSING);
    LinesJoin(echo, last + CLOSING);
    LinesJoin(first, echo + (last + CLOSING));
    LinesJoin(PREAMBLE, first + (echo + (last + CLOSING)));
  }

  /** Parsing the printed hand-off block gives exactly its fields. */
  lemma HandoffBlockParses(mainSha: string, observedAt: string, recorded: map<string, string>)
    requires IsFieldTable(recorded) && IsValue(mainSha) && IsValue(observedAt)
    ensures Extracted(JoinLines(HandoffLines(mainSha, observedAt, recorded))) ==
            HandoffFields(mainSha, observedAt, recorded)
  {
    var run := map["MAIN_SHA" := mainSha, "OBSERVED_AT_UTC" := observedAt];
    var first := [FieldLine("MAIN_SHA", mainSha), FieldLine("OBSERVED_AT_UTC", observedAt)];
    var last := [FieldLine("TRANSFER_STATUS", "NOT_DECLARED"), FieldLine(MACHINE_KEY, "true")];
    var echo := EchoLines(HANDOFF_KEYS, recorded);
    var echoed := run + Echoed(HANDOFF_KEYS, recorded);
    KeysAreKeys();
    TwoFieldsRead(map[], "MAIN_SHA", mainSha, "OBSERVED_AT_UTC", observedAt);
    EchoReadsOnto(HANDOFF_KEYS, recorded, run);
    EchoIsLines(HANDOFF_KEYS, recorded);
    TwoFieldsRead(echoed, "TRANSFER_STATUS", "NOT_DECLARED", MACHINE_KEY, "true");
    PartsRead(first, echo, last, run, echoed, HandoffFields(mainSha, observedAt, recorded));
    PartsAreLines(first, echo, last);
    BlockInParts(mainSha, observedAt, recorded);
    SplitOfJoin(HandoffLines(mainSha, observedAt, recorded));
  }

  lemma CommitIdIsValue(sha: string)
    requires IsCommitId(sha)
    ensures IsValue(sha)
  {
    forall i | 0 <= i < |sha| ensures !IsBreak(sha[i]) && !IsSpace(sha[i]) { HexDigits(sha[i]); }
  }

  /** Round trip: the block a run puts into the hand-off document names the run's commit
      and time and, for each echoed field, what the state document says, if it does. */
  lemma HandoffRoundTrip(inputs: Inputs, key: string)
    requires IsCommitId(inputs.mainSha) && IsValue(inputs.observedAt)
    ensures var (state, reread) := (Extracted(inputs.stateText), Extracted(HandoffBlock(inputs)));
            && "MAIN_SHA" in reread && reread["MAIN_SHA"] == inputs.mainSha
            && "OBSERVED_AT_UTC" in reread && reread["OBSERVED_AT_UTC"] == inputs.observedAt
            && "TRANSFER_STATUS" in reread && reread["TRANSFER_STATUS"] == "NOT_DECLARED"
            && (key in ["COMPLETED_THROUGH_PHASE", "CURRENT_PHASE", "CURRENT_PHASE_STATE"] ==>
                  && (key in reread <==> key in state)
                  && (key in state ==> reread[key] == state[key]))
  {
    ExtractedIsFieldTable(inputs.stateText);
    CommitIdIsValue(inputs.mainSha);
    HandoffBlockParses(inputs.mainSha, inputs.observedAt, Extracted(inputs.stateText));
    KeysAreApart();
  }

  lemma KeysAreApart()
    ensures "MAIN_SHA" !in HANDOFF_KEYS && "OBSERVED_AT_UTC" !in HANDOFF_KEYS
    ensures "TRANSFER_STATUS" !in HANDOFF_KEYS && MACHINE_KEY !in HANDOFF_KEYS
    ensures "MAIN_SHA" != "OBSERVED_AT_UTC" && MACHINE_KEY !in ["MAIN_SHA", "OBSERVED_AT_UTC", "TRANSFER_STATUS"]
    ensures "TRANSFER_STATUS" !in ["MAIN_SHA", "OBSERVED_AT_UTC"]
  {
    assert |HANDOFF_KEYS[0]| == 23 && |HANDOFF_KEYS[1]| == 13 && |HANDOFF_KEYS[2]| == 19;
    assert |"MAIN_SHA"| == 8 && |"OBSERVED_AT_UTC"| == 15 && |"TRANSFER_STATUS"| == 15 && |MACHINE_KEY| == 31;
    assert "OBSERVED_AT_UTC"[0] == 'O' && "TRANSFER_STATUS"[0] == 'T';
  }
}
