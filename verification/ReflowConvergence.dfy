/** Reflow converges: what one reflow writes, the next recomputes unchanged. */
module ReflowConvergence {
  import opened Results
  import opened Ordering
  import opened Texts
  import opened BoundedBlock
  import opened StatusFields
  import opened SourceReflow

  // ---------------------------------------------------------------- the paths

  lemma PathsAreDistinct()
    ensures FACTS_PATH != TREE_PATH && FACTS_PATH != EVIDENCE_PATH && FACTS_PATH != RECEIPT_PATH &&
            FACTS_PATH != HANDOFF_PATH
    ensures FACTS_PATH != SUMS_PATH && FACTS_PATH != README_PATH && TREE_PATH != EVIDENCE_PATH &&
            TREE_PATH != RECEIPT_PATH
    ensures TREE_PATH != HANDOFF_PATH && TREE_PATH != SUMS_PATH && TREE_PATH != README_PATH &&
            EVIDENCE_PATH != RECEIPT_PATH
    ensures EVIDENCE_PATH != HANDOFF_PATH && EVIDENCE_PATH != SUMS_PATH && EVIDENCE_PATH != README_PATH
    ensures RECEIPT_PATH != HANDOFF_PATH && RECEIPT_PATH != SUMS_PATH && RECEIPT_PATH != README_PATH
    ensures HANDOFF_PATH != SUMS_PATH && HANDOFF_PATH != README_PATH && SUMS_PATH != README_PATH
  {
    assert |FACTS_PATH| == 60 && |TREE_PATH| == 50 && |EVIDENCE_PATH| == 56 && |RECEIPT_PATH| == 57;
    assert |HANDOFF_PATH| == 10 && |SUMS_PATH| == 10 && |README_PATH| == 9;
    assert HANDOFF_PATH[0] == 'H' && SUMS_PATH[0] == 'S';
  }

  /** A Markdown file directly under the sources directory. */
  predicate IsSourceDocument(path: string) {
    && SOURCES <= path && |path| >= |SOURCES| + 3
    && path[|path| - 3] == '.' && path[|path| - 2] == 'm' && path[|path| - 1] == 'd'
    && forall i :: |SOURCES| <= i < |path| ==> path[i] != '/'
  }

  const LEDGER_FILE := "05_PHASE_ACCEPTANCE_LEDGER.md"
  const LEDGER_PATH := SOURCES + LEDGER_FILE

  lemma GeneratedIsNoSource(path: string)
    requires path in {FACTS_PATH, TREE_PATH, EVIDENCE_PATH, RECEIPT_PATH}
    ensures !IsSourceDocument(path)
  {
    assert |SOURCES| == 21 && |GENERATED| == 31 && GENERATED[30] == '/';
    assert GENERATED <= path && path[30] == '/';
  }

  lemma RootIsNoSource(path: string)
    requires path in {HANDOFF_PATH, SUMS_PATH, README_PATH}
    ensures !IsSourceDocument(path)
  {
    assert |SOURCES| == 21 && |path| < 21;
  }

  /** Nothing a reflow may write is one of the documents it reads. */
  lemma AllowlistedIsNoSource(path: string)
    requires path in ALLOWLISTED
    ensures !IsSourceDocument(path)
  {
    if path in {FACTS_PATH, TREE_PATH, EVIDENCE_PATH, RECEIPT_PATH} {
      GeneratedIsNoSource(path);
    } else {
      RootIsNoSource(path);
    }
  }

  lemma StateIsSource()
    ensures IsSourceDocument(SOURCE_PATH)
  {
    assert |STATE_FILE| == 31;
    forall i | 0 <= i < |STATE_FILE| ensures STATE_FILE[i] != '/' {}
    forall i | |SOURCES| <= i < |SOURCE_PATH|
      ensures SOURCE_PATH[i] != '/'
    {
      assert SOURCE_PATH[i] == STATE_FILE[i - |SOURCES|];
    }
  }

  lemma LedgerIsSource()
    ensures IsSourceDocument(LEDGER_PATH)
  {
    assert |LEDGER_FILE| == 29;
    forall i | 0 <= i < |LEDGER_FILE| ensures LEDGER_FILE[i] != '/' {}
    forall i | |SOURCES| <= i < |LEDGER_PATH|
      ensures LEDGER_PATH[i] != '/'
    {
      assert LEDGER_PATH[i] == LEDGER_FILE[i - |SOURCES|];
    }
  }

  // ---------------------------------------------------------------- gathering inputs from a checkout

  function SourceDocuments(files: map<string, string>): map<string, string> {
    map p | p in files && IsSourceDocument(p) :: files[p]
  }

  /** `_gather_inputs`; the tracked paths are what version control lists. */
  function Gathered(
      files: map<string, string>, mainSha: string, observedAt: string, tracked: seq<string>)
    : Result<Inputs, ReflowError>
  {
    if SOURCE_PATH !in files || LEDGER_PATH !in files || README_PATH !in files then Err(MissingSource)
    else Ok(Inputs(mainSha, observedAt, files[SOURCE_PATH], files[LEDGER_PATH], tracked, files[README_PATH],
                   if HANDOFF_PATH in files then Some(files[HANDOFF_PATH]) else None, SourceDocuments(files)))
  }

  // ---------------------------------------------------------------- when a document can be regenerated

  /** The lines open with the one marker, close with the other, and lie between. */
  lemma JoinIsFramed(lines: seq<string>, begin: string, end: string)
    requires |lines| >= 2 && lines[0] == begin && lines[|lines| - 1] == end
    ensures IsFramed(JoinLines(lines), begin, end)
  {
    JoinEndsWith(lines[1..]);
    var (rest, joined) := (JoinLines(lines[1..]), JoinLines(lines));
    assert joined == begin + "\n" + rest;
    assert joined[|joined| - |end|..] == rest[|rest| - |end|..];
  }

  lemma {:induction false} JoinEndsWith(lines: seq<string>)
    requires lines != []
    ensures var (joined, last) := (JoinLines(lines), lines[|lines| - 1]);
            |last| <= |joined| && joined[|joined| - |last|..] == last
  {
    if |lines| > 1 {
      JoinEndsWith(lines[1..]);
      var (rest, joined, last) := (JoinLines(lines[1..]), JoinLines(lines), lines[|lines| - 1]);
      assert joined == lines[0] + "\n" + rest;
      assert joined[|joined| - |last|..] == rest[|rest| - |last|..];
    }
  }

  lemma ReadmeBlockIsFramed(inputs: Inputs)
    ensures IsFramed(ReadmeBlock(inputs), README_BEGIN_MARKER, README_END_MARKER)
  {
    JoinIsFramed(ReadmeLines(Extracted(inputs.stateText)), README_BEGIN_MARKER, README_END_MARKER);
  }

  lemma HandoffBlockIsFramed(inputs: Inputs)
    ensures IsFramed(HandoffBlock(inputs), HANDOFF_BEGIN_MARKER, HANDOFF_END_MARKER)
  {
    JoinIsFramed(HandoffLines(inputs.mainSha, inputs.observedAt, Extracted(inputs.stateText)),
                 HANDOFF_BEGIN_MARKER, HANDOFF_END_MARKER);
  }

  lemma ReadmeMarkersAreMarkers()
    ensures IsMarker(README_BEGIN_MARKER) && IsMarker(README_END_MARKER) && README_BEGIN_MARKER != README_END_MARKER
  {
    assert |README_BEGIN_MARKER| == 38 && |README_END_MARKER| == 36;
  }

  lemma HandoffMarkersAreMarkers()
    ensures IsMarker(HANDOFF_BEGIN_MARKER) && IsMarker(HANDOFF_END_MARKER) && HANDOFF_BEGIN_MARKER != HANDOFF_END_MARKER
  {
    assert |HANDOFF_BEGIN_MARKER| == 39 && |HANDOFF_END_MARKER| == 37;
  }

  ghost predicate HoldsEachOnce(block: string, begin: string, end: string)
    requires begin != "" && end != ""
  {
    Count(block, begin) == 1 && Count(block, end) == 1
  }

  /** A document is regenerated exactly when its markers are one well-ordered pair
      and the new block holds each marker once; its human text then stays, and
      regenerating the result gives what regenerating the original would. */
  lemma RegeneratedExactly(text: string, block: string, begin: string, end: string, next: string)
    requires IsMarker(begin) && IsMarker(end) && begin != end && IsFramed(block, begin, end)
    ensures Regenerated(text, block, begin, end).Ok? <==>
            Bounds(text, begin, end).Ok? && HoldsEachOnce(block, begin, end)
    ensures Regenerated(text, block, begin, end).Ok? ==>
              var regenerated := Regenerated(text, block, begin, end).value;
              && HumanText(regenerated, begin, end) == HumanText(text, begin, end)
              && ApplyBoundedBlock(regenerated, next, begin, end) == ApplyBoundedBlock(text, next, begin, end)
  {
    if Bounds(text, begin, end).Ok? { RegenerationKeepsHumanText(text, block, begin, end, next); }
  }

  /** Regenerating a regenerated document changes nothing. */
  lemma RegeneratedTwice(text: string, block: string, begin: string, end: string)
    requires IsMarker(begin) && IsMarker(end) && begin != end && IsFramed(block, begin, end)
    requires Regenerated(text, block, begin, end).Ok?
    ensures var regenerated := Regenerated(text, block, begin, end).value;
            Regenerated(regenerated, block, begin, end) == Ok(regenerated)
  {
    var regenerated := Regenerated(text, block, begin, end).value;
    RegeneratedExactly(text, block, begin, end, block);
  }

  // ---------------------------------------------------------------- refusing and recomputing

  ghost predicate CanRegenerate(text: string, block: string, begin: string, end: string)
    requires begin != "" && end != ""
  {
    Bounds(text, begin, end).Ok? && HoldsEachOnce(block, begin, end)
  }

  lemma DocumentsRegenerate(inputs: Inputs)
    ensures Regenerated(ExistingHandoff(inputs), HandoffBlock(inputs),
                        HANDOFF_BEGIN_MARKER, HANDOFF_END_MARKER).Ok? <==>
            CanRegenerate(ExistingHandoff(inputs), HandoffBlock(inputs), HANDOFF_BEGIN_MARKER, HANDOFF_END_MARKER)
    ensures Regenerated(inputs.readmeText, ReadmeBlock(inputs), README_BEGIN_MARKER, README_END_MARKER).Ok? <==>
            CanRegenerate(inputs.readmeText, ReadmeBlock(inputs), README_BEGIN_MARKER, README_END_MARKER)
  {
    ReadmeMarkersAreMarkers();
    HandoffMarkersAreMarkers();
    ReadmeBlockIsFramed(inputs);
    HandoffBlockIsFramed(inputs);
    RegeneratedExactly(ExistingHandoff(inputs), HandoffBlock(inputs), HANDOFF_BEGIN_MARKER, HANDOFF_END_MARKER, "");
    RegeneratedExactly(inputs.readmeText, ReadmeBlock(inputs), README_BEGIN_MARKER, README_END_MARKER, "");
  }

  /** The outputs are computed exactly when the commit id is one, both documents
      hold one well-ordered marker pair, and both new blocks hold each marker once. */
  lemma RefusesExactly(enc: Encoders, inputs: Inputs)
    ensures Outputs(enc, inputs).Ok? <==>
            && LooksLikeGitSha(inputs.mainSha)
            && CanRegenerate(ExistingHandoff(inputs), HandoffBlock(inputs), HANDOFF_BEGIN_MARKER, HANDOFF_END_MARKER)
            && CanRegenerate(inputs.readmeText, ReadmeBlock(inputs), README_BEGIN_MARKER, README_END_MARKER)
            && SUMS_PATH !in inputs.sourceDocuments
  {
    DocumentsRegenerate(inputs);
  }

  // ---------------------------------------------------------------- convergence

  /** The later listing tracks everything tracked before, and beyond that at most
      what a reflow writes. */
  ghost predicate TracksAtMost(tracked: seq<string>, later: seq<string>) {
    && (forall p :: p in tracked ==> p in later)
    && (forall p :: p in later ==> p in tracked || p in ALLOWLISTED)
  }

  lemma SameTree(tracked: seq<string>, later: seq<string>)
    requires TracksAtMost(tracked, later)
    ensures TreeText(later) == TreeText(tracked)
  {
    assert (set p | p in later) + ALLOWLISTED == (set p | p in tracked) + ALLOWLISTED;
  }

  /** The inputs a next run gathers over what this run wrote. */
  ghost predicate Succeeds(inputs: Inputs, later: Inputs, outputs: map<string, string>) {
    && README_PATH in outputs && HANDOFF_PATH in outputs
    && later == inputs.(readmeText := outputs[README_PATH], handoffText := Some(outputs[HANDOFF_PATH]),
                        trackedPaths := later.trackedPaths)
    && TracksAtMost(inputs.trackedPaths, later.trackedPaths)
  }

  /** A table of six distinct paths, as a table. */
  lemma SixEntries(a: string, b: string, c: string, d: string, e: string, f: string, g: string,
                   facts: string, tree: string, evidence: string, handoff: string, readme: string, sums: string)
    requires a != d && a != e && a != f && a != g && b != d && b != e && b != f && b != g && c != d && c != e &&
             c != f && c != g
    requires d != e && d != f && d != g && e != f && e != g && f != g
    ensures var m := map[a := facts, b := tree, c := evidence, d := handoff, e := readme][f := sums];
            && d in m && e in m && f in m && m[d] == handoff && m[e] == readme
            && m.Keys == {a, b, c, g, d, f, e} - {g}
  {
  }

  lemma FilesAt(enc: Encoders, facts: string, tree: string, evidence: string, handoff: string, readme: string,
                documents: map<string, string>)
    ensures var outputs := WithManifest(enc, Files(facts, tree, evidence, handoff, readme), documents);
            && README_PATH in outputs && HANDOFF_PATH in outputs && SUMS_PATH in outputs
            && outputs[README_PATH] == readme && outputs[HANDOFF_PATH] == handoff
            && outputs.Keys == ALLOWLISTED - {RECEIPT_PATH}
  {
    PathsAreDistinct();
    SixEntries(FACTS_PATH, TREE_PATH, EVIDENCE_PATH, HANDOFF_PATH, README_PATH, SUMS_PATH, RECEIPT_PATH,
               facts, tree, evidence, handoff, readme,
               Manifest(enc, Files(facts, tree, evidence, handoff, readme) + documents));
  }

  /** Where the regenerated documents are among the outputs. */
  ghost predicate HoldsDocuments(inputs: Inputs, outputs: map<string, string>) {
    && README_PATH in outputs && HANDOFF_PATH in outputs && SUMS_PATH in outputs
    && Regenerated(inputs.readmeText, ReadmeBlock(inputs), README_BEGIN_MARKER, README_END_MARKER) ==
       Ok(outputs[README_PATH])
    && Regenerated(ExistingHandoff(inputs), HandoffBlock(inputs), HANDOFF_BEGIN_MARKER, HANDOFF_END_MARKER) ==
       Ok(outputs[HANDOFF_PATH])
    && outputs.Keys == ALLOWLISTED - {RECEIPT_PATH}
  }

  lemma OutputsAt(enc: Encoders, inputs: Inputs, outputs: map<string, string>)
    requires Outputs(enc, inputs) == Ok(outputs)
    ensures HoldsDocuments(inputs, outputs) && RECEIPT_PATH !in outputs
  {
    var handoff := Regenerated(ExistingHandoff(inputs), HandoffBlock(inputs),
                               HANDOFF_BEGIN_MARKER, HANDOFF_END_MARKER).value;
    var readme := Regenerated(inputs.readmeText, ReadmeBlock(inputs), README_BEGIN_MARKER, README_END_MARKER).value;
    FilesAt(enc, enc.facts(inputs.mainSha, inputs.observedAt, Extracted(inputs.stateText)),
            TreeText(inputs.trackedPaths),
            enc.evidence(Extracted(inputs.ledgerText)), handoff, readme, inputs.sourceDocuments);
  }

  /** Both documents regenerate to themselves from what was written. */
  lemma DocumentsAreFixed(inputs: Inputs, later: Inputs, outputs: map<string, string>)
    requires HoldsDocuments(inputs, outputs) && Succeeds(inputs, later, outputs)
    ensures HoldsDocuments(later, outputs)
  {
    ReadmeMarkersAreMarkers();
    HandoffMarkersAreMarkers();
    ReadmeBlockIsFramed(inputs);
    HandoffBlockIsFramed(inputs);
    RegeneratedTwice(inputs.readmeText, ReadmeBlock(inputs), README_BEGIN_MARKER, README_END_MARKER);
    RegeneratedTwice(ExistingHandoff(inputs), HandoffBlock(inputs), HANDOFF_BEGIN_MARKER, HANDOFF_END_MARKER);
  }

  lemma SameOutputs(enc: Encoders, inputs: Inputs, later: Inputs, outputs: map<string, string>)
    requires Outputs(enc, inputs) == Ok(outputs) && HoldsDocuments(inputs, outputs) && HoldsDocuments(later, outputs)
    requires later == inputs.(readmeText := later.readmeText, handoffText := later.handoffText,
                              trackedPaths := later.trackedPaths)
    requires TreeText(later.trackedPaths) == TreeText(inputs.trackedPaths)
    ensures Outputs(enc, later) == Ok(outputs)
  {
  }

  /** Recomputing from what was written, with a longer tracked list, gives the
      same outputs. */
  lemma RecomputingGivesTheSame(enc: Encoders, inputs: Inputs, later: Inputs, outputs: map<string, string>)
    requires Outputs(enc, inputs) == Ok(outputs) && Succeeds(inputs, later, outputs)
    ensures Outputs(enc, later) == Ok(outputs)
  {
    OutputsAt(enc, inputs, outputs);
    SameTree(inputs.trackedPaths, later.trackedPaths);
    DocumentsAreFixed(inputs, later, outputs);
    SameOutputs(enc, inputs, later, outputs);
  }

  lemma NothingIsStaleAfterwards(
      enc: Encoders, inputs: Inputs, files: map<string, string>, outputs: map<string, string>)
    requires SUMS_PATH in outputs && RECEIPT_PATH !in outputs
    ensures Stale(Reflowed(enc, inputs, files, outputs), outputs) == {}
  {
    if Stale(files, outputs) != {} {
      forall p | p in outputs ensures Reflowed(enc, inputs, files, outputs)[p] == outputs[p] {}
    }
  }

  /** What is neither an output nor the receipt stays as it was. */
  lemma OtherFilesStay(
      enc: Encoders, inputs: Inputs, files: map<string, string>, outputs: map<string, string>, path: string)
    requires SUMS_PATH in outputs && path !in outputs && path != RECEIPT_PATH
    ensures path in Reflowed(enc, inputs, files, outputs) <==> path in files
    ensures path in files ==> Reflowed(enc, inputs, files, outputs)[path] == files[path]
  {
  }

  lemma WrittenAreThere(
      enc: Encoders, inputs: Inputs, files: map<string, string>, outputs: map<string, string>, path: string)
    requires SUMS_PATH in outputs && RECEIPT_PATH !in outputs && path in outputs
    ensures path in Reflowed(enc, inputs, files, outputs) &&
            Reflowed(enc, inputs, files, outputs)[path] == outputs[path]
  {
    if Stale(files, outputs) == {} { assert path !in Stale(files, outputs); }
  }

  lemma SameSourceDocuments(enc: Encoders, inputs: Inputs, files: map<string, string>, outputs: map<string, string>)
    requires SUMS_PATH in outputs && outputs.Keys <= ALLOWLISTED
    ensures SourceDocuments(Reflowed(enc, inputs, files, outputs)) == SourceDocuments(files)
  {
    var after := Reflowed(enc, inputs, files, outputs);
    forall p | IsSourceDocument(p) ensures (p in after <==> p in files) && (p in files ==> after[p] == files[p]) {
      if p in ALLOWLISTED { AllowlistedIsNoSource(p); }
      OtherFilesStay(enc, inputs, files, outputs, p);
    }
  }

  /** A next run over the written checkout gathers the succeeding inputs. */
  lemma GatheredSucceeds(
    enc: Encoders, files: map<string, string>, mainSha: string, observedAt: string, tracked: seq<string>,
    later: seq<string>,
    inputs: Inputs, outputs: map<string, string>)
    requires Gathered(files, mainSha, observedAt, tracked) == Ok(inputs) && TracksAtMost(tracked, later)
    requires Outputs(enc, inputs) == Ok(outputs) && SUMS_PATH in outputs
    ensures var next := Gathered(Reflowed(enc, inputs, files, outputs), mainSha, observedAt, later);
            next.Ok? && Succeeds(inputs, next.value, outputs)
  {
    OutputsAt(enc, inputs, outputs);
    SameSourceDocuments(enc, inputs, files, outputs);
    StateIsSource();
    LedgerIsSource();
    if SOURCE_PATH in ALLOWLISTED { AllowlistedIsNoSource(SOURCE_PATH); }
    if LEDGER_PATH in ALLOWLISTED { AllowlistedIsNoSource(LEDGER_PATH); }
    OtherFilesStay(enc, inputs, files, outputs, SOURCE_PATH);
    OtherFilesStay(enc, inputs, files, outputs, LEDGER_PATH);
    WrittenAreThere(enc, inputs, files, outputs, README_PATH);
    WrittenAreThere(enc, inputs, files, outputs, HANDOFF_PATH);
  }

  /** A run with these inputs computes the outputs, finds none stale, writes nothing. */
  ghost predicate WritesNothing(
      enc: Encoders, inputs: Inputs, files: map<string, string>, outputs: map<string, string>)
  {
    Outputs(enc, inputs) == Ok(outputs) && LeavesAlone(enc, inputs, files, outputs)
  }

  ghost predicate LeavesAlone(
      enc: Encoders, inputs: Inputs, files: map<string, string>, outputs: map<string, string>)
  {
    SUMS_PATH in outputs && Stale(files, outputs) == {} && Reflowed(enc, inputs, files, outputs) == files
  }

  lemma WritingSettles(
      enc: Encoders, inputs: Inputs, later: Inputs, files: map<string, string>, outputs: map<string, string>)
    requires SUMS_PATH in outputs && RECEIPT_PATH !in outputs
    ensures var after := Reflowed(enc, inputs, files, outputs);
            Stale(after, outputs) == {} && Reflowed(enc, later, after, outputs) == after
  {
    NothingIsStaleAfterwards(enc, inputs, files, outputs);
  }

  lemma NextWritesNothing(
      enc: Encoders, inputs: Inputs, later: Inputs, files: map<string, string>, outputs: map<string, string>)
    requires Outputs(enc, inputs) == Ok(outputs) && SUMS_PATH in outputs && Succeeds(inputs, later, outputs)
    ensures WritesNothing(enc, later, Reflowed(enc, inputs, files, outputs), outputs)
  {
    OutputsAt(enc, inputs, outputs);
    RecomputingGivesTheSame(enc, inputs, later, outputs);
    WritingSettles(enc, inputs, later, files, outputs);
  }

  /** Convergence. Over the checkout a reflow leaves, the next run - the same commit
      and time, whatever generated files have become tracked - computes the same
      outputs, finds none of them stale, and writes nothing. */
  lemma ReflowConverges(
    enc: Encoders, files: map<string, string>, mainSha: string, observedAt: string, tracked: seq<string>,
    later: seq<string>,
    inputs: Inputs, outputs: map<string, string>)
    requires Gathered(files, mainSha, observedAt, tracked) == Ok(inputs) && TracksAtMost(tracked, later)
    requires Outputs(enc, inputs) == Ok(outputs) && SUMS_PATH in outputs
    ensures var after := Reflowed(enc, inputs, files, outputs);
            var next := Gathered(after, mainSha, observedAt, later);
            next.Ok? && WritesNothing(enc, next.value, after, outputs)
  {
    GatheredSucceeds(enc, files, mainSha, observedAt, tracked, later, inputs, outputs);
    var next := Gathered(Reflowed(enc, inputs, files, outputs), mainSha, observedAt, later);
    NextWritesNothing(enc, inputs, next.value, files, outputs);
  }

  lemma ValidatesForOutputs(
      enc: Encoders, inputs: Inputs, files: map<string, string>, later: Inputs, outputs: map<string, string>)
    requires ReceiptsReadBack(enc) && SUMS_PATH in outputs && RECEIPT_PATH !in outputs
    requires later.mainSha == inputs.mainSha && later.observedAt == inputs.observedAt
    ensures var after := Reflowed(enc, inputs, files, outputs);
            && Stale(after, outputs) == {}
            && (ReceiptMatches(enc, later, after, outputs) <==>
                Stale(files, outputs) != {} || ReceiptMatches(enc, inputs, files, outputs))
  {
    NothingIsStaleAfterwards(enc, inputs, files, outputs);
    if Stale(files, outputs) != {} {
      var receipt := ReceiptOf(enc, inputs, files, outputs);
      assert enc.readReceipt(enc.receipt(receipt)) == Some(receipt);
    }
  }

  /** After a reflow the candidate validates exactly when the reflow wrote something
      or the receipt on disk already was the one expected: a run that finds
      nothing stale never repairs a receipt. */
  lemma ValidatesExactly(
      enc: Encoders, inputs: Inputs, files: map<string, string>, later: Inputs, outputs: map<string, string>)
    requires ReceiptsReadBack(enc) && Outputs(enc, inputs) == Ok(outputs) && Succeeds(inputs, later, outputs)
    ensures SUMS_PATH in outputs && Outputs(enc, later) == Ok(outputs)
    ensures var after := Reflowed(enc, inputs, files, outputs);
            (Stale(after, outputs) == {} && ReceiptMatches(enc, later, after, outputs)) <==>
            (Stale(files, outputs) != {} || ReceiptMatches(enc, inputs, files, outputs))
  {
    OutputsAt(enc, inputs, outputs);
    RecomputingGivesTheSame(enc, inputs, later, outputs);
    ValidatesForOutputs(enc, inputs, files, later, outputs);
  }

  lemma RegeneratedKeepsHumanText(text: string, block: string, begin: string, end: string, regenerated: string)
    requires begin != "" && end != "" && Regenerated(text, block, begin, end) == Ok(regenerated)
    ensures HumanText(regenerated, begin, end) == HumanText(text, begin, end)
  {
  }

  lemma HumanTextOfOutputs(inputs: Inputs, outputs: map<string, string>)
    requires HoldsDocuments(inputs, outputs)
    ensures HumanText(outputs[README_PATH], README_BEGIN_MARKER, README_END_MARKER) ==
            HumanText(inputs.readmeText, README_BEGIN_MARKER, README_END_MARKER)
    ensures HumanText(outputs[HANDOFF_PATH], HANDOFF_BEGIN_MARKER, HANDOFF_END_MARKER) ==
            HumanText(ExistingHandoff(inputs), HANDOFF_BEGIN_MARKER, HANDOFF_END_MARKER)
  {
    RegeneratedKeepsHumanText(inputs.readmeText, ReadmeBlock(inputs), README_BEGIN_MARKER, README_END_MARKER,
                              outputs[README_PATH]);
    RegeneratedKeepsHumanText(ExistingHandoff(inputs), HandoffBlock(inputs), HANDOFF_BEGIN_MARKER, HANDOFF_END_MARKER,
                              outputs[HANDOFF_PATH]);
  }

  /** A reflow touches no path off the allow-list, and the human text of both
      documents is what it was. */
  lemma HumanTextIsKept(
      enc: Encoders, inputs: Inputs, files: map<string, string>, outputs: map<string, string>, path: string)
    requires Outputs(enc, inputs) == Ok(outputs) && SUMS_PATH in outputs
    ensures var after := Reflowed(enc, inputs, files, outputs);
            && (path !in ALLOWLISTED ==>
               (path in after <==> path in files) && (path in files ==> after[path] == files[path]))
            && README_PATH in after && HANDOFF_PATH in after
            && HumanText(after[README_PATH], README_BEGIN_MARKER, README_END_MARKER) ==
               HumanText(inputs.readmeText, README_BEGIN_MARKER, README_END_MARKER)
            && HumanText(after[HANDOFF_PATH], HANDOFF_BEGIN_MARKER, HANDOFF_END_MARKER) ==
               HumanText(ExistingHandoff(inputs), HANDOFF_BEGIN_MARKER, HANDOFF_END_MARKER)
  {
    OutputsAt(enc, inputs, outputs);
    HumanTextOfOutputs(inputs, outputs);
    WrittenAreThere(enc, inputs, files, outputs, README_PATH);
    WrittenAreThere(enc, inputs, files, outputs, HANDOFF_PATH);
    if path !in ALLOWLISTED { OtherFilesStay(enc, inputs, files, outputs, path); }
  }
}
