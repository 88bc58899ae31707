/** The post-merge reflow of `scripts/merge_source_reflow.py` over a checkout seen
    as a map from paths to contents. */
module SourceReflow {
  import opened Results
  import opened Ordering
  import opened Texts
  import opened BoundedBlock
  import opened StatusFields

  datatype ReflowError = NotACommit | Markers(refusal: Refusal) | HumanTextChanged | ManifestOfItself | MissingSource

  // ---------------------------------------------------------------- what is written

  const GENERATED := SOURCES + "generated/"

  const FACTS_PATH := GENERATED + "CURRENT_REPOSITORY_FACTS.json"
  const TREE_PATH := GENERATED + "REPOSITORY_TREE.txt"
  const EVIDENCE_PATH := GENERATED + "PHASE_EVIDENCE_INDEX.json"
  const RECEIPT_PATH := GENERATED + "SOURCE_REFLOW_RECEIPT.json"
  const HANDOFF_PATH := "HANDOFF.md"
  const SUMS_PATH := "SHA256SUMS"
  const README_PATH := "README.md"

  const ALLOWLISTED: set<string> := {
    FACTS_PATH, TREE_PATH, EVIDENCE_PATH, RECEIPT_PATH, HANDOFF_PATH, SUMS_PATH, README_PATH}

  const HANDOFF_BEGIN_MARKER := "<!-- HANDOFF_STATUS:GENERATED:BEGIN -->"
  const HANDOFF_END_MARKER := "<!-- HANDOFF_STATUS:GENERATED:END -->"

  const INITIAL_HANDOFF_SKELETON :=
    "# Handoff\n\n<!-- Human semantic handoff decisions belong above this line, "
    + "outside the generated block below. -->\n\n"
    + HANDOFF_BEGIN_MARKER + "\n" + HANDOFF_END_MARKER + "\n"

  datatype Receipt = Receipt(mainSha: string, observedAt: string, filesWritten: seq<string>,
    filesUnchanged: seq<string>, digest: string)

  /** The JSON and hash encoders. */
  datatype Encoders = Encoders(
    facts: (string, string, map<string, string>) -> string,
    evidence: map<string, string> -> string,
    digest: string -> string,
    receipt: Receipt -> string,
    readReceipt: string -> Option<Receipt>)

  ghost predicate ReceiptsReadBack(enc: Encoders) { forall r :: enc.readReceipt(enc.receipt(r)) == Some(r) }

  datatype Inputs = Inputs(
    mainSha: string, observedAt: string, stateText: string, ledgerText: string, trackedPaths: seq<string>,
    readmeText: string, handoffText: Option<string>, sourceDocuments: map<string, string>)

  predicate IsHex(c: char) { '0' <= c <= '9' || 'a' <= c <= 'f' || 'A' <= c <= 'F' }

  predicate LooksLikeGitSha(s: string) { |s| in {40, 64} && forall i :: 0 <= i < |s| ==> IsHex(s[i]) }

  const HANDOFF_KEYS: seq<string> := ["COMPLETED_THROUGH_PHASE", "CURRENT_PHASE", "CURRENT_PHASE_STATE"]

  const HANDOFF_NOTE_PIECES: seq<string> := [
    "<!-- generated by scripts/", "merge_source_reflow.py", " -- do not edit by hand -->"]

  const HANDOFF_NOTE := Concatenated(HANDOFF_NOTE_PIECES)

  function HandoffLines(mainSha: string, observedAt: string, recorded: map<string, string>): seq<string> {
    [HANDOFF_BEGIN_MARKER,
     HANDOFF_NOTE,
     "",
     "### Handoff status (generated)",
     "",
     OPEN_FENCE,
     FieldLine("MAIN_SHA", mainSha),
     FieldLine("OBSERVED_AT_UTC", observedAt)]
    + EchoLines(HANDOFF_KEYS, recorded)
    + [FieldLine("TRANSFER_STATUS", "NOT_DECLARED"), FieldLine(MACHINE_KEY, "true"), CLOSE_FENCE, "",
      HANDOFF_END_MARKER]
  }

  function HandoffBlock(inputs: Inputs): string {
    JoinLines(HandoffLines(inputs.mainSha, inputs.observedAt, Extracted(inputs.stateText)))
  }

  function ReadmeBlock(inputs: Inputs): string { JoinLines(ReadmeLines(Extracted(inputs.stateText))) }

  function ExistingHandoff(inputs: Inputs): string {
    if inputs.handoffText.Some? then inputs.handoffText.value else INITIAL_HANDOFF_SKELETON
  }

  /** A document with its block replaced, refused unless its human text survives. */
  function Regenerated(text: string, block: string, begin: string, end: string): Result<string, ReflowError>
    requires begin != "" && end != ""
  {
    match HumanText(text, begin, end)
    case Err(e) => Err(Markers(e))
    case Ok(before) =>
      match ApplyBoundedBlock(text, block, begin, end)
      case Err(e) => Err(Markers(e))
      case Ok(regenerated) =>
        match HumanText(regenerated, begin, end)
        case Err(e) => Err(Markers(e))
        case Ok(after) => if before != after then Err(HumanTextChanged) else Ok(regenerated)
  }

  function ManifestLine(enc: Encoders, files: map<string, string>, path: string): string
    requires path in files
  {
    enc.digest(files[path]) + "  " + path
  }

  ghost function ManifestLines(enc: Encoders, files: map<string, string>): (lines: seq<string>)
    ensures |lines| == |SortedStrings(files.Keys)|
    ensures forall i :: 0 <= i < |lines| ==>
              SortedStrings(files.Keys)[i] in files &&
                lines[i] == ManifestLine(enc, files, SortedStrings(files.Keys)[i])
  {
    var paths := SortedStrings(files.Keys);
    assert forall i :: 0 <= i < |paths| ==> paths[i] in files.Keys;
    seq(|paths|, i requires 0 <= i < |paths| => ManifestLine(enc, files, paths[i]))
  }

  /** One manifest line for each file, sorted by path. */
  ghost function Manifest(enc: Encoders, files: map<string, string>): string {
    JoinLines(ManifestLines(enc, files)) + "\n"
  }

  ghost function TreeText(trackedPaths: seq<string>): string {
    JoinLines(SortedStrings((set p | p in trackedPaths) + ALLOWLISTED)) + "\n"
  }

  /** The writable files besides the manifest and the receipt. */
  function Files(facts: string, tree: string, evidence: string, handoff: string, readme: string): map<string, string> {
    map[FACTS_PATH := facts, TREE_PATH := tree, EVIDENCE_PATH := evidence, HANDOFF_PATH := handoff, README_PATH :=
      readme]
  }

  /** The files together with the manifest of them and of the source documents. */
  ghost function WithManifest(
      enc: Encoders, files: map<string, string>, documents: map<string, string>): (r: map<string, string>)
    ensures SUMS_PATH in r
  {
    files[SUMS_PATH := Manifest(enc, files + documents)]
  }

  /** The outputs, given everything derived from the inputs. */
  ghost function OutputsFrom(
    enc: Encoders, mainSha: string, facts: string, tree: string, evidence: string, documents: map<string, string>,
    handoff: Result<string, ReflowError>, readme: Result<string, ReflowError>)
    : (r: Result<map<string, string>, ReflowError>)
    ensures r.Ok? ==> SUMS_PATH in r.value
  {
    if !LooksLikeGitSha(mainSha) then Err(NotACommit)
    else if handoff.Err? then Err(handoff.error)
    else if readme.Err? then Err(readme.error)
    else if SUMS_PATH in documents then Err(ManifestOfItself)
    else Ok(WithManifest(enc, Files(facts, tree, evidence, handoff.value, readme.value), documents))
  }

  ghost function Outputs(enc: Encoders, inputs: Inputs): Result<map<string, string>, ReflowError> {
    OutputsFrom(enc, inputs.mainSha, enc.facts(inputs.mainSha, inputs.observedAt, Extracted(inputs.stateText)),
                TreeText(inputs.trackedPaths), enc.evidence(Extracted(inputs.ledgerText)), inputs.sourceDocuments,
                Regenerated(ExistingHandoff(inputs), HandoffBlock(inputs), HANDOFF_BEGIN_MARKER, HANDOFF_END_MARKER),
                Regenerated(inputs.readmeText, ReadmeBlock(inputs), README_BEGIN_MARKER, README_END_MARKER))
  }

  method LinesOf(enc: Encoders, files: map<string, string>, paths: seq<string>) returns (lines: seq<string>)
    requires forall i :: 0 <= i < |paths| ==> paths[i] in files
    ensures |lines| == |paths| && forall i :: 0 <= i < |paths| ==> lines[i] == ManifestLine(enc, files, paths[i])
  {
    lines := [];
    for k := 0 to |paths|
      invariant |lines| == k && forall i :: 0 <= i < k ==> lines[i] == ManifestLine(enc, files, paths[i])
    {
      lines := lines + [ManifestLine(enc, files, paths[k])];
    }
  }

  method ManifestOf(enc: Encoders, files: map<string, string>) returns (text: string)
    ensures text == Manifest(enc, files)
  {
    var paths := SortKeys(files.Keys);
    assert forall i :: 0 <= i < |paths| ==> paths[i] in files.Keys;
    var lines := LinesOf(enc, files, paths);
    assert lines == ManifestLines(enc, files);
    text := JoinLines(lines) + "\n";
  }

  method ComputeOutputs(enc: Encoders, inputs: Inputs) returns (r: Result<map<string, string>, ReflowError>)
    ensures r == Outputs(enc, inputs)
  {
    if !LooksLikeGitSha(inputs.mainSha) {
      return Err(NotACommit);
    }
    var recorded := ExtractFields(inputs.stateText);
    var ledger := ExtractFields(inputs.ledgerText);
    var handoff := Regenerated(ExistingHandoff(inputs), HandoffBlock(inputs), HANDOFF_BEGIN_MARKER, HANDOFF_END_MARKER);
    if handoff.Err? {
      return Err(handoff.error);
    }
    var block := RenderReadmeBlock(recorded);
    var readme := Regenerated(inputs.readmeText, block, README_BEGIN_MARKER, README_END_MARKER);
    if readme.Err? {
      return Err(readme.error);
    }
    var listed := SortKeys((set p | p in inputs.trackedPaths) + ALLOWLISTED);
    var outputs := Files(enc.facts(inputs.mainSha, inputs.observedAt, recorded), JoinLines(listed) + "\n",
                         enc.evidence(ledger), handoff.value, readme.value);
    if SUMS_PATH in inputs.sourceDocuments {
      return Err(ManifestOfItself);
    }
    var sums := ManifestOf(enc, outputs + inputs.sourceDocuments);
    return Ok(outputs[SUMS_PATH := sums]);
  }

  // ---------------------------------------------------------------- applying and validating

  /** The output paths whose content on disk is missing or different. */
  function Stale(files: map<string, string>, outputs: map<string, string>): set<string> {
    set p | p in outputs && (p !in files || files[p] != outputs[p])
  }

  ghost function ReceiptOf(
      enc: Encoders, inputs: Inputs, files: map<string, string>, outputs: map<string, string>): Receipt
    requires SUMS_PATH in outputs
  {
    Receipt(inputs.mainSha, inputs.observedAt, SortedStrings(Stale(files, outputs)),
            SortedStrings(outputs.Keys - Stale(files, outputs)), enc.digest(outputs[SUMS_PATH]))
  }

  /** The checkout after a reflow: the stale outputs and, if there were any, the receipt. */
  ghost function Reflowed(
      enc: Encoders, inputs: Inputs, files: map<string, string>, outputs: map<string, string>): map<string, string>
    requires SUMS_PATH in outputs
  {
    if Stale(files, outputs) == {} then files
    else (files + outputs)[RECEIPT_PATH := enc.receipt(ReceiptOf(enc, inputs, files, outputs))]
  }

  datatype Report = Report(filesWritten: seq<string>, filesUnchanged: seq<string>)

  ghost function ReportOf(files: map<string, string>, outputs: map<string, string>): Report {
    var stale := Stale(files, outputs);
    if stale == {} then Report([], SortedStrings(outputs.Keys + {RECEIPT_PATH}))
    else Report(SortedStrings(stale + {RECEIPT_PATH}), SortedStrings(outputs.Keys - stale))
  }

  ghost predicate ReceiptMatches(
      enc: Encoders, inputs: Inputs, files: map<string, string>, outputs: map<string, string>)
    requires SUMS_PATH in outputs
  {
    && RECEIPT_PATH in files
    && var read := enc.readReceipt(files[RECEIPT_PATH]);
    && read.Some? && read.value.mainSha == inputs.mainSha && read.value.observedAt == inputs.observedAt
    && read.value.digest == enc.digest(outputs[SUMS_PATH])
  }

  lemma OutputsHoldSums(enc: Encoders, inputs: Inputs)
    ensures Outputs(enc, inputs).Ok? ==> SUMS_PATH in Outputs(enc, inputs).value
  {
  }

  /** The contents after writing the listed outputs one by one. */
  function Overlaid(files: map<string, string>, outputs: map<string, string>, paths: seq<string>): map<string, string>
    requires forall i :: 0 <= i < |paths| ==> paths[i] in outputs
  {
    if paths == [] then files
    else
      var n := |paths| - 1;
      Overlaid(files, outputs, paths[..n])[paths[n] := outputs[paths[n]]]
  }

  lemma {:induction false} OverlaidAt(
      files: map<string, string>, outputs: map<string, string>, paths: seq<string>, p: string)
    requires forall i :: 0 <= i < |paths| ==> paths[i] in outputs
    ensures p in Overlaid(files, outputs, paths) <==> p in files || p in paths
    ensures p in Overlaid(files, outputs, paths) ==>
              Overlaid(files, outputs, paths)[p] == if p in paths then outputs[p] else files[p]
  {
    if paths != [] {
      var n := |paths| - 1;
      OverlaidAt(files, outputs, paths[..n], p);
      assert paths == paths[..n] + [paths[n]];
    }
  }

  /** Writing only what differs leaves what writing everything would. */
  lemma WritingTheStaleOverlays(files: map<string, string>, outputs: map<string, string>, paths: seq<string>)
    requires forall p :: p in paths <==> p in Stale(files, outputs)
    requires forall i :: 0 <= i < |paths| ==> paths[i] in outputs
    ensures Overlaid(files, outputs, paths) == files + outputs
    ensures paths == [] <==> Stale(files, outputs) == {}
    ensures Stale(files, outputs) == {} ==> files + outputs == files
  {
    var overlaid := Overlaid(files, outputs, paths);
    forall p ensures p in overlaid <==> p in files + outputs { OverlaidAt(files, outputs, paths, p); }
    forall p | p in overlaid ensures overlaid[p] == (files + outputs)[p] { OverlaidAt(files, outputs, paths, p); }
    if paths != [] { assert paths[0] in Stale(files, outputs); }
    if Stale(files, outputs) != {} {
      var p :| p in Stale(files, outputs);
      assert p in paths;
    }
    if Stale(files, outputs) == {} {
      forall p | p in outputs ensures p in files && files[p] == outputs[p] { assert p !in Stale(files, outputs); }
    }
  }

  class Checkout {
    var files: map<string, string>

    constructor (files: map<string, string>)
      ensures this.files == files
    {
      this.files := files;
    }

    /** Computes every output first, then writes only what differs, and the
        receipt only if something did. */
    method ApplyReflow(enc: Encoders, inputs: Inputs) returns (r: Result<Report, ReflowError>)
      modifies this
      ensures match Outputs(enc, inputs)
              case Err(e) => r == Err(e) && files == old(files)
              case Ok(outputs) =>
                && SUMS_PATH in outputs
                && r == Ok(ReportOf(old(files), outputs))
                && files == Reflowed(enc, inputs, old(files), outputs)
    {
      var computed := ComputeOutputs(enc, inputs);
      OutputsHoldSums(enc, inputs);
      if computed.Err? {
        return Err(computed.error);
      }
      var report := Compare(computed.value);
      WriteOutputs(enc, inputs, computed.value);
      return Ok(report);
    }

    /** Which outputs differ from what is on disk. */
    method Compare(outputs: map<string, string>) returns (report: Report)
      ensures report == ReportOf(files, outputs)
    {
      var stale := Stale(files, outputs);
      if stale == {} {
        var all := SortKeys(outputs.Keys + {RECEIPT_PATH});
        return Report([], all);
      }
      var written := SortKeys(stale + {RECEIPT_PATH});
      var rest := SortKeys(outputs.Keys - stale);
      return Report(written, rest);
    }

    method WriteOutputs(enc: Encoders, inputs: Inputs, outputs: map<string, string>)
      requires SUMS_PATH in outputs
      modifies this
      ensures files == Reflowed(enc, inputs, old(files), outputs)
    {
      var stale := Stale(files, outputs);
      var written := SortKeys(stale);
      var rest := SortKeys(outputs.Keys - stale);
      var receipt := Receipt(inputs.mainSha, inputs.observedAt, written, rest, enc.digest(outputs[SUMS_PATH]));
      WriteStale(written, outputs);
      if written != [] {
        files := files[RECEIPT_PATH := enc.receipt(receipt)];
      }
    }

    method WriteStale(written: seq<string>, outputs: map<string, string>)
      requires written == SortedStrings(Stale(files, outputs))
      modifies this
      ensures files == old(files) + outputs
      ensures written == [] <==> Stale(old(files), outputs) == {}
      ensures Stale(old(files), outputs) == {} ==> files == old(files)
    {
      forall i | 0 <= i < |written| ensures written[i] in outputs { assert written[i] in Stale(files, outputs); }
      WritingTheStaleOverlays(files, outputs, written);
      WriteAll(written, outputs);
    }

    method WriteAll(paths: seq<string>, outputs: map<string, string>)
      requires forall i :: 0 <= i < |paths| ==> paths[i] in outputs
      modifies this
      ensures files == Overlaid(old(files), outputs, paths)
    {
      for k := 0 to |paths|
        invariant files == Overlaid(old(files), outputs, paths[..k])
      {
        assert paths[..k + 1][..k] == paths[..k];
        files := files[paths[k] := outputs[paths[k]]];
      }
      assert paths[..|paths|] == paths;
    }

    /** Reads every output back; the receipt must name this commit, this time and
        this manifest. */
    method ValidateReflowCandidate(enc: Encoders, inputs: Inputs) returns (r: Result<bool, ReflowError>)
      ensures match Outputs(enc, inputs)
              case Err(e) => r == Err(e)
              case Ok(outputs) =>
                && SUMS_PATH in outputs
                && r == Ok(Stale(files, outputs) == {} && ReceiptMatches(enc, inputs, files, outputs))
    {
      var computed := ComputeOutputs(enc, inputs);
      OutputsHoldSums(enc, inputs);
      if computed.Err? {
        return Err(computed.error);
      }
      var outputs := computed.value;
      var mismatched := Stale(files, outputs);
      var receipt := if RECEIPT_PATH in files then enc.readReceipt(files[RECEIPT_PATH]) else None;
      var matches := receipt.Some? && receipt.value.mainSha == inputs.mainSha &&
        receipt.value.observedAt == inputs.observedAt
                     && receipt.value.digest == enc.digest(outputs[SUMS_PATH]);
      return Ok(mismatched == {} && matches);
    }
  }
}
