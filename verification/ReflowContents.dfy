/** What the files a reflow computes hold. */
module ReflowContents {
  import opened Results
  import opened Ordering
  import opened Texts
  import opened BoundedBlock
  import opened StatusFields
  import opened SourceReflow
  import opened ReflowConvergence

  // ---------------------------------------------------------------- the manifest and the tree

  /** The content the manifest speaks for: a source document's, or else an output's. */
  ghost function Content(inputs: Inputs, outputs: map<string, string>, path: string): string
    requires path in inputs.sourceDocuments || path in outputs
  {
    if path in inputs.sourceDocuments then inputs.sourceDocuments[path] else outputs[path]
  }

  /** Each other output and each source document, once, in increasing order. */
  ghost predicate ListsFiles(inputs: Inputs, outputs: map<string, string>, paths: seq<string>) {
    && StrictlySorted(paths)
    && forall p :: p in paths <==> (p in outputs && p != SUMS_PATH) || p in inputs.sourceDocuments
  }

  ghost function ContentLines(
      enc: Encoders, inputs: Inputs, outputs: map<string, string>, paths: seq<string>): seq<string>
    requires ListsFiles(inputs, outputs, paths)
  {
    assert forall i :: 0 <= i < |paths| ==> paths[i] in paths;
    seq(|paths|, i requires 0 <= i < |paths| => enc.digest(Content(inputs, outputs, paths[i])) + "  " + paths[i])
  }

  /** The five derived files of a successful run. */
  ghost function Derived(enc: Encoders, inputs: Inputs): map<string, string>
    requires Outputs(enc, inputs).Ok?
  {
    Files(enc.facts(inputs.mainSha, inputs.observedAt, Extracted(inputs.stateText)), TreeText(inputs.trackedPaths),
          enc.evidence(Extracted(inputs.ledgerText)),
          Regenerated(ExistingHandoff(inputs), HandoffBlock(inputs), HANDOFF_BEGIN_MARKER, HANDOFF_END_MARKER).value,
          Regenerated(inputs.readmeText, ReadmeBlock(inputs), README_BEGIN_MARKER, README_END_MARKER).value)
  }

  lemma OutputsAreDerived(enc: Encoders, inputs: Inputs, outputs: map<string, string>)
    requires Outputs(enc, inputs) == Ok(outputs)
    ensures outputs == WithManifest(enc, Derived(enc, inputs), inputs.sourceDocuments)
    ensures SUMS_PATH !in inputs.sourceDocuments
  {
    FromDerived(enc, inputs.mainSha, enc.facts(inputs.mainSha, inputs.observedAt, Extracted(inputs.stateText)),
                TreeText(inputs.trackedPaths), enc.evidence(Extracted(inputs.ledgerText)), inputs.sourceDocuments,
                Regenerated(ExistingHandoff(inputs), HandoffBlock(inputs), HANDOFF_BEGIN_MARKER, HANDOFF_END_MARKER),
                Regenerated(inputs.readmeText, ReadmeBlock(inputs), README_BEGIN_MARKER, README_END_MARKER), outputs);
  }

  lemma FromDerived(
    enc: Encoders, mainSha: string, facts: string, tree: string, evidence: string, documents: map<string, string>,
    handoff: Result<string, ReflowError>, readme: Result<string, ReflowError>, outputs: map<string, string>)
    requires OutputsFrom(enc, mainSha, facts, tree, evidence, documents, handoff, readme) == Ok(outputs)
    ensures handoff.Ok? && readme.Ok? && SUMS_PATH !in documents
    ensures outputs == WithManifest(enc, Files(facts, tree, evidence, handoff.value, readme.value), documents)
  {
  }

  /** A table of five distinct paths. */
  lemma FiveEntries(a: string, b: string, c: string, d: string, e: string, f: string,
                    facts: string, tree: string, evidence: string, handoff: string, readme: string)
    requires a != b && a != c && a != d && a != e && b != c && b != d && b != e && c != d && c != e && d != e
    requires f !in {a, b, c, d, e}
    ensures var m := map[a := facts, b := tree, c := evidence, d := handoff, e := readme];
            && a in m && b in m && c in m && d in m && e in m && f !in m && m.Keys == {a, b, c, d, e}
            && m[a] == facts && m[b] == tree && m[c] == evidence && m[d] == handoff && m[e] == readme
  {
  }

  lemma DerivedAre(enc: Encoders, inputs: Inputs)
    requires Outputs(enc, inputs).Ok?
    ensures var m := Derived(enc, inputs);
            && m.Keys == {FACTS_PATH, TREE_PATH, EVIDENCE_PATH, HANDOFF_PATH, README_PATH} && SUMS_PATH !in m
            && FACTS_PATH in m && TREE_PATH in m && EVIDENCE_PATH in m
            && m[FACTS_PATH] == enc.facts(inputs.mainSha, inputs.observedAt, Extracted(inputs.stateText))
            && m[TREE_PATH] == TreeText(inputs.trackedPaths)
            && m[EVIDENCE_PATH] == enc.evidence(Extracted(inputs.ledgerText))
  {
    PathsAreDistinct();
    FiveEntries(FACTS_PATH, TREE_PATH, EVIDENCE_PATH, HANDOFF_PATH, README_PATH, SUMS_PATH,
                enc.facts(inputs.mainSha, inputs.observedAt, Extracted(inputs.stateText)),
                TreeText(inputs.trackedPaths),
                enc.evidence(Extracted(inputs.ledgerText)),
                Regenerated(ExistingHandoff(inputs), HandoffBlock(inputs), HANDOFF_BEGIN_MARKER,
                  HANDOFF_END_MARKER).value,
                Regenerated(inputs.readmeText, ReadmeBlock(inputs), README_BEGIN_MARKER, README_END_MARKER).value);
  }

  lemma WithoutManifest(files: map<string, string>, sums: string, text: string)
    requires sums !in files
    ensures files == files[sums := text] - {sums}
  {
  }

  lemma ManifestOver(
      enc: Encoders, inputs: Inputs, outputs: map<string, string>, files: map<string, string>, sums: string)
    returns (paths: seq<string>)
    requires sums == SUMS_PATH && sums !in files && sums !in inputs.sourceDocuments
    requires outputs == files[sums := Manifest(enc, files + inputs.sourceDocuments)] && files == outputs - {sums}
    ensures sums in outputs && ListsFiles(inputs, outputs, paths)
    ensures outputs[sums] == JoinLines(ContentLines(enc, inputs, outputs, paths)) + "\n"
  {
    var merged := files + inputs.sourceDocuments;
    paths := SortedStrings(merged.Keys);
    SortedStringsAreOrdered(merged.Keys);
    forall p ensures p in paths <==> (p in outputs && p != sums) || p in inputs.sourceDocuments {
      assert p in paths <==> p in merged.Keys;
    }
    MergedAreContents(inputs, outputs, files, sums);
    LinesAreContents(enc, inputs, outputs, merged, paths);
  }

  lemma MergedAreContents(inputs: Inputs, outputs: map<string, string>, files: map<string, string>, sums: string)
    requires sums !in files && sums !in inputs.sourceDocuments
    requires sums in outputs && files == outputs - {sums}
    ensures var merged := files + inputs.sourceDocuments;
            forall p :: p in merged ==>
              (p in inputs.sourceDocuments || p in outputs) && merged[p] == Content(inputs, outputs, p)
  {
  }

  lemma LinesAreContents(enc: Encoders, inputs: Inputs, outputs: map<string, string>, merged: map<string, string>,
                         paths: seq<string>)
    requires paths == SortedStrings(merged.Keys) && ListsFiles(inputs, outputs, paths)
    requires forall p :: p in merged ==>
             (p in inputs.sourceDocuments || p in outputs) && merged[p] == Content(inputs, outputs, p)
    ensures ManifestLines(enc, merged) == ContentLines(enc, inputs, outputs, paths)
  {
    var (lines, contents) := (ManifestLines(enc, merged), ContentLines(enc, inputs, outputs, paths));
    forall i | 0 <= i < |paths| ensures lines[i] == contents[i] {
      assert paths[i] in merged && lines[i] == ManifestLine(enc, merged, paths[i]);
    }
  }

  /** The manifest of a successful run: one line for each other output and each source
      document, in increasing path order, with the digest of what that file holds. */
  lemma ManifestHoldsContents(enc: Encoders, inputs: Inputs, outputs: map<string, string>) returns (paths: seq<string>)
    requires Outputs(enc, inputs) == Ok(outputs)
    ensures SUMS_PATH in outputs && ListsFiles(inputs, outputs, paths)
    ensures outputs[SUMS_PATH] == JoinLines(ContentLines(enc, inputs, outputs, paths)) + "\n"
  {
    OutputsAreDerived(enc, inputs, outputs);
    DerivedAre(enc, inputs);
    WithoutManifest(Derived(enc, inputs), SUMS_PATH, outputs[SUMS_PATH]);
    paths := ManifestOver(enc, inputs, outputs, Derived(enc, inputs), SUMS_PATH);
  }

  lemma TreeTextHolds(tracked: seq<string>) returns (paths: seq<string>)
    ensures StrictlySorted(paths) && TreeText(tracked) == JoinLines(paths) + "\n"
    ensures forall p :: p in paths <==> p in tracked || p in ALLOWLISTED
  {
    var all := (set p | p in tracked) + ALLOWLISTED;
    paths := SortedStrings(all);
    SortedStringsAreOrdered(all);
    forall p ensures p in paths <==> p in tracked || p in ALLOWLISTED { assert p in paths <==> p in all; }
  }

  /** The tree of a successful run: each tracked and each allow-listed path, once, in
      increasing order, one a line. */
  lemma TreeHoldsPaths(enc: Encoders, inputs: Inputs, outputs: map<string, string>) returns (paths: seq<string>)
    requires Outputs(enc, inputs) == Ok(outputs)
    ensures StrictlySorted(paths)
    ensures forall p :: p in paths <==> p in inputs.trackedPaths || p in ALLOWLISTED
    ensures TREE_PATH in outputs && outputs[TREE_PATH] == JoinLines(paths) + "\n"
  {
    OutputsAreDerived(enc, inputs, outputs);
    DerivedAre(enc, inputs);
    PathsAreDistinct();
    KeepsOthers(Derived(enc, inputs), SUMS_PATH, outputs[SUMS_PATH], TREE_PATH);
    paths := TreeTextHolds(inputs.trackedPaths);
  }

  lemma KeepsOthers(files: map<string, string>, sums: string, text: string, path: string)
    requires path in files && path != sums
    ensures path in files[sums := text] && files[sums := text][path] == files[path]
  {
  }

  // ---------------------------------------------------------------- the other files

  /** The two derived files that an encoder writes: the facts from the run and the state
      document, the evidence index from the ledger. */
  lemma EncodedFilesAre(enc: Encoders, inputs: Inputs, outputs: map<string, string>)
    requires Outputs(enc, inputs) == Ok(outputs)
    ensures FACTS_PATH in outputs && EVIDENCE_PATH in outputs
    ensures outputs[FACTS_PATH] == enc.facts(inputs.mainSha, inputs.observedAt, Extracted(inputs.stateText))
    ensures outputs[EVIDENCE_PATH] == enc.evidence(Extracted(inputs.ledgerText))
  {
    OutputsAreDerived(enc, inputs, outputs);
    DerivedAre(enc, inputs);
    PathsAreDistinct();
    KeepsOthers(Derived(enc, inputs), SUMS_PATH, outputs[SUMS_PATH], FACTS_PATH);
    KeepsOthers(Derived(enc, inputs), SUMS_PATH, outputs[SUMS_PATH], EVIDENCE_PATH);
  }

  /** The text is pre, its block between the markers, and post; the new block replaces
      the old one. */
  ghost predicate ReplacedBetween(before: string, after: string, block: string, begin: string, end: string,
                                  pre: string, was: string, post: string) {
    before == pre + was + post && IsFramed(was, begin, end) && after == pre + block + post
  }

  ghost predicate BlockReplaced(before: string, after: string, block: string, begin: string, end: string) {
    exists pre, was, post :: ReplacedBetween(before, after, block, begin, end, pre, was, post)
  }

  lemma RegeneratedReplaces(text: string, block: string, begin: string, end: string, regenerated: string)
    requires IsMarker(begin) && IsMarker(end) && begin != end
    requires Regenerated(text, block, begin, end) == Ok(regenerated)
    ensures BlockReplaced(text, regenerated, block, begin, end)
  {
    assert ApplyBoundedBlock(text, block, begin, end) == Ok(regenerated);
    AppliedReplaces(text, block, begin, end, regenerated);
  }

  lemma AppliedReplaces(text: string, block: string, begin: string, end: string, applied: string)
    requires IsMarker(begin) && IsMarker(end) && begin != end
    requires ApplyBoundedBlock(text, block, begin, end) == Ok(applied)
    ensures BlockReplaced(text, applied, block, begin, end)
  {
    var at := Bounds(text, begin, end).value;
    SplicedReplaces(text, block, begin, end, applied, at.from, at.to);
  }

  lemma SplicedReplaces(text: string, block: string, begin: string, end: string, applied: string, b: nat, e: nat)
    requires IsMarker(begin) && IsMarker(end) && begin != end && Bounds(text, begin, end) == Ok(Span(b, e))
    requires b <= e <= |text| && applied == text[..b] + block + text[e..]
    ensures BlockReplaced(text, applied, block, begin, end)
  {
    AcceptedTextSplits(text, begin, end, b, e);
    PartsReplaced(text, block, begin, end, b, e);
  }

  lemma PartsReplaced(text: string, block: string, begin: string, end: string, b: nat, e: nat)
    requires b <= e <= |text| && IsFramed(text[b..e], begin, end)
    ensures BlockReplaced(text, text[..b] + block + text[e..], block, begin, end)
  {
    ThreeParts(text, b, e);
    assert ReplacedBetween(text, text[..b] + block + text[e..], block, begin, end, text[..b], text[b..e], text[e..]);
  }

  /** Both documents hold their new block where the old one was: the README the lines
      of the recorded fields, the hand-off those of this run. */
  lemma DocumentsHoldTheirBlocks(enc: Encoders, inputs: Inputs, outputs: map<string, string>)
    requires Outputs(enc, inputs) == Ok(outputs)
    ensures README_PATH in outputs && HANDOFF_PATH in outputs
    ensures BlockReplaced(inputs.readmeText, outputs[README_PATH], JoinLines(ReadmeLines(Extracted(inputs.stateText))),
                          README_BEGIN_MARKER, README_END_MARKER)
    ensures BlockReplaced(if inputs.handoffText.Some? then inputs.handoffText.value else INITIAL_HANDOFF_SKELETON,
                          outputs[HANDOFF_PATH],
                          JoinLines(HandoffLines(inputs.mainSha, inputs.observedAt, Extracted(inputs.stateText))),
                          HANDOFF_BEGIN_MARKER, HANDOFF_END_MARKER)
  {
    OutputsAt(enc, inputs, outputs);
    ReadmeMarkersAreMarkers();
    HandoffMarkersAreMarkers();
    RegeneratedReplaces(inputs.readmeText, ReadmeBlock(inputs), README_BEGIN_MARKER, README_END_MARKER,
      outputs[README_PATH]);
    RegeneratedReplaces(ExistingHandoff(inputs), HandoffBlock(inputs), HANDOFF_BEGIN_MARKER, HANDOFF_END_MARKER,
                        outputs[HANDOFF_PATH]);
  }

  // ---------------------------------------------------------------- the receipt

  /** A reflow that writes leaves every output on disk, and a receipt that names the
      run, each output that was missing or different, the others, and the manifest. */
  lemma ReceiptHoldsTheRun(enc: Encoders, inputs: Inputs, files: map<string, string>, outputs: map<string, string>)
    returns (written: seq<string>, kept: seq<string>)
    requires ReceiptsReadBack(enc) && SUMS_PATH in outputs && RECEIPT_PATH !in outputs
    requires exists p :: p in outputs && (p !in files || files[p] != outputs[p])
    ensures StrictlySorted(written) && forall p :: p in written <==>
            p in outputs && (p !in files || files[p] != outputs[p])
    ensures StrictlySorted(kept) && forall p :: p in kept <==> p in outputs && p in files && files[p] == outputs[p]
    ensures var after := Reflowed(enc, inputs, files, outputs);
            && (forall p :: p in outputs ==> p in after && after[p] == outputs[p])
            && RECEIPT_PATH in after
            && enc.readReceipt(after[RECEIPT_PATH]) ==
               Some(Receipt(inputs.mainSha, inputs.observedAt, written, kept, enc.digest(outputs[SUMS_PATH])))
  {
    var stale := Stale(files, outputs);
    var p :| p in outputs && (p !in files || files[p] != outputs[p]);
    assert p in stale;
    written, kept := SortedStrings(stale), SortedStrings(outputs.Keys - stale);
    SortedStringsAreOrdered(stale);
    SortedStringsAreOrdered(outputs.Keys - stale);
    forall x ensures x in kept <==> x in outputs && x in files && files[x] == outputs[x] {
      assert x in kept <==> x in outputs.Keys - stale;
    }
    var receipt := ReceiptOf(enc, inputs, files, outputs);
    assert enc.readReceipt(enc.receipt(receipt)) == Some(receipt);
  }

  /** What a run reports: the outputs that were missing or different as written, the
      others as unchanged, and the receipt among the former exactly if there are any. */
  lemma ReportNamesTheRun(files: map<string, string>, outputs: map<string, string>)
    requires RECEIPT_PATH !in outputs
    ensures var report := ReportOf(files, outputs);
            var changed := exists p :: p in outputs && (p !in files || files[p] != outputs[p]);
            && StrictlySorted(report.filesWritten) && StrictlySorted(report.filesUnchanged)
            && (forall p :: p in report.filesWritten <==>
                  || (p in outputs && (p !in files || files[p] != outputs[p]))
                  || (p == RECEIPT_PATH && changed))
            && forall p :: p in report.filesUnchanged <==>
                 || (p in outputs && p in files && files[p] == outputs[p])
                 || (p == RECEIPT_PATH && !changed)
  {
    var stale := Stale(files, outputs);
    forall p ensures p in stale <==> p in outputs && (p !in files || files[p] != outputs[p]) {}
    SortedStringsAreOrdered(stale + {RECEIPT_PATH});
    SortedStringsAreOrdered(outputs.Keys - stale);
    SortedStringsAreOrdered(outputs.Keys + {RECEIPT_PATH});
  }

  // ---------------------------------------------------------------- equal manifests

  /** A digest is a word: no space and no line break in it. */
  ghost predicate DigestsAreWords(enc: Encoders) {
    forall s :: OneLine(enc.digest(s)) && forall i :: 0 <= i < |enc.digest(s)| ==> enc.digest(s)[i] != ' '
  }

  lemma WordThenRest(d: string, p: string, e: string, q: string)
    requires d + "  " + p == e + "  " + q
    requires forall i :: 0 <= i < |d| ==> d[i] != ' '
    requires forall i :: 0 <= i < |e| ==> e[i] != ' '
    ensures d == e && p == q
  {
    var (x, y) := (d + "  " + p, e + "  " + q);
    assert x[|d|] == ' ' && y[|e|] == ' ';
    assert forall i :: 0 <= i < |d| ==> x[i] == d[i];
    assert forall i :: 0 <= i < |e| ==> y[i] == e[i];
    assert x[..|d|] == d && y[..|e|] == e && x[|d| + 2..] == p && y[|e| + 2..] == q;
  }

  predicate AllOneLine(paths: seq<string>) { forall i :: 0 <= i < |paths| ==> OneLine(paths[i]) }

  lemma LinesOfJoin(lines: seq<string>, others: seq<string>)
    requires lines != [] && others != [] && AllOneLine(lines) && AllOneLine(others)
    requires lines[|lines| - 1] != "" && others[|others| - 1] != ""
    requires JoinLines(lines) + "\n" == JoinLines(others) + "\n"
    ensures lines == others
  {
    var (x, y) := (JoinLines(lines) + "\n", JoinLines(others) + "\n");
    assert x[..|x| - 1] == JoinLines(lines) && y[..|y| - 1] == JoinLines(others);
    SplitOfJoin(lines);
    SplitOfJoin(others);
  }

  lemma FactsAreOneLine()
    ensures OneLine(FACTS_PATH)
  {
    assert Printable(SOURCES) && Printable("generated/") && Printable("CURRENT_REPOSITORY_FACTS.json");
  }

  lemma TreeIsOneLine()
    ensures OneLine(TREE_PATH)
  {
    assert Printable(SOURCES) && Printable("generated/") && Printable("REPOSITORY_TREE.txt");
  }

  lemma EvidenceIsOneLine()
    ensures OneLine(EVIDENCE_PATH)
  {
    assert Printable(SOURCES) && Printable("generated/") && Printable("PHASE_EVIDENCE_INDEX.json");
  }

  lemma DocumentsAreOneLine()
    ensures OneLine(HANDOFF_PATH) && OneLine(README_PATH)
  {
    assert Printable(HANDOFF_PATH) && Printable(README_PATH);
  }

  lemma DerivedAreOneLine(p: string)
    requires p in {FACTS_PATH, TREE_PATH, EVIDENCE_PATH, HANDOFF_PATH, README_PATH}
    ensures OneLine(p)
  {
    FactsAreOneLine();
    TreeIsOneLine();
    EvidenceIsOneLine();
    DocumentsAreOneLine();
  }

  lemma KeysAreOneLine(keys: set<string>)
    requires keys == {FACTS_PATH, TREE_PATH, EVIDENCE_PATH, HANDOFF_PATH, README_PATH}
    ensures forall p :: p in keys ==> OneLine(p)
  {
    forall p | p in keys ensures OneLine(p) { DerivedAreOneLine(p); }
  }

  lemma ListedAreOneLine(enc: Encoders, inputs: Inputs, outputs: map<string, string>, paths: seq<string>)
    requires Outputs(enc, inputs) == Ok(outputs) && ListsFiles(inputs, outputs, paths)
    requires forall p :: p in inputs.sourceDocuments ==> OneLine(p)
    ensures paths != [] && AllOneLine(paths)
  {
    OutputsAreDerived(enc, inputs, outputs);
    DerivedAre(enc, inputs);
    KeysAreOneLine(Derived(enc, inputs).Keys);
    ListedFrom(Derived(enc, inputs), SUMS_PATH, outputs[SUMS_PATH], inputs, outputs, paths, FACTS_PATH);
  }

  lemma ListedFrom(files: map<string, string>, sums: string, text: string, inputs: Inputs, outputs: map<string, string>,
                   paths: seq<string>, some: string)
    requires outputs == files[sums := text] && sums == SUMS_PATH && sums !in files && some in files
    requires ListsFiles(inputs, outputs, paths)
    requires forall p :: p in files.Keys || p in inputs.sourceDocuments ==> OneLine(p)
    ensures paths != [] && AllOneLine(paths)
  {
    assert some in outputs && some != sums;
    assert some in paths;
    forall i | 0 <= i < |paths| ensures OneLine(paths[i]) { assert paths[i] in paths; }
  }

  lemma ContentLinesAreLines(enc: Encoders, inputs: Inputs, outputs: map<string, string>, paths: seq<string>)
    requires DigestsAreWords(enc) && ListsFiles(inputs, outputs, paths) && AllOneLine(paths)
    ensures AllOneLine(ContentLines(enc, inputs, outputs, paths))
    ensures forall i :: 0 <= i < |paths| ==> ContentLines(enc, inputs, outputs, paths)[i] != ""
  {
    forall i | 0 <= i < |paths| ensures OneLine(ContentLines(enc, inputs, outputs, paths)[i]) {
      assert paths[i] in paths;
      assert OneLine(enc.digest(Content(inputs, outputs, paths[i]))) && OneLine("  ") && OneLine(paths[i]);
    }
  }

  /** Where digests are words and no two texts share one, two runs whose source paths are
      one line each and whose manifests are equal agree on every file listed. */
  lemma SameManifestSameFiles(
    enc: Encoders, inputs: Inputs, outputs: map<string, string>, inputs': Inputs, outputs': map<string, string>,
      p: string)
    requires DigestsAreWords(enc) && forall s, t :: enc.digest(s) == enc.digest(t) ==> s == t
    requires Outputs(enc, inputs) == Ok(outputs) && Outputs(enc, inputs') == Ok(outputs')
    requires forall x :: x in inputs.sourceDocuments || x in inputs'.sourceDocuments ==> OneLine(x)
    requires SUMS_PATH in outputs && SUMS_PATH in outputs' && outputs[SUMS_PATH] == outputs'[SUMS_PATH]
    requires p != SUMS_PATH
    ensures p in outputs || p in inputs.sourceDocuments <==> p in outputs' || p in inputs'.sourceDocuments
    ensures p in outputs || p in inputs.sourceDocuments ==> Content(inputs, outputs, p) == Content(inputs', outputs', p)
  {
    var paths := ManifestHoldsContents(enc, inputs, outputs);
    var paths' := ManifestHoldsContents(enc, inputs', outputs');
    ListedAreOneLine(enc, inputs, outputs, paths);
    ListedAreOneLine(enc, inputs', outputs', paths');
    ContentLinesAreLines(enc, inputs, outputs, paths);
    ContentLinesAreLines(enc, inputs', outputs', paths');
    LinesOfJoin(ContentLines(enc, inputs, outputs, paths), ContentLines(enc, inputs', outputs', paths'));
    forall i | 0 <= i < |paths|
      ensures paths[i] == paths'[i] && paths[i] in paths && paths'[i] in paths'
      ensures Content(inputs, outputs, paths[i]) == Content(inputs', outputs', paths[i])
    {
      assert paths[i] in paths && paths'[i] in paths';
      assert ContentLines(enc, inputs, outputs, paths)[i] == ContentLines(enc, inputs', outputs', paths')[i];
      WordThenRest(enc.digest(Content(inputs, outputs, paths[i])), paths[i],
                   enc.digest(Content(inputs', outputs', paths'[i])), paths'[i]);
    }
    assert paths == paths';
  }
}
