/** The two findings classifiers of `scripts/bounded_technical_review.py`. */
module ReviewVerdict {
  import opened Results

  datatype Verdict = Verified | Failed | Insufficient | Unavailable

  /** A field read with `get`: missing or null, some other value, or a text. */
  datatype Tag = Absent | Unreadable | Text(text: string)

  datatype Finding = NotAnObject | Finding(status: Tag, procedure: Tag, severity: Tag, check: Tag)

  const PASS := Text("PASS")
  const FAIL := Text("FAIL")

  predicate IsBlocking(f: Finding) {
    f.Finding? && f.severity in {Text("P0"), Text("P1"), Text("BLOCKING"), Text("CRITICAL")}
  }

  predicate IsFail(f: Finding) { f.Finding? && f.status == FAIL }

  predicate NonEmpty(t: Tag) { t.Text? && t.text != "" }

  // ---------------------------------------------------------------- what the findings say, as a set

  /** A local finding the classifier cannot rely on. */
  predicate LocallyMalformed(f: Finding) {
    || f.NotAnObject? || f.status !in {PASS, FAIL} || !NonEmpty(f.procedure)
    || (f.status == PASS && IsBlocking(f))
  }

  predicate NativelyMalformed(f: Finding) { f.NotAnObject? || f.status !in {Absent, PASS, FAIL} }

  /** Finding f reports the outcome of check c. */
  predicate Reports(f: Finding, c: string) { f.Finding? && f.check == Text(c) && c != "" && f.status != Absent }

  ghost predicate Reported(fs: set<Finding>, c: string) { exists f :: f in fs && Reports(f, c) }

  ghost predicate FailsCheck(fs: set<Finding>, c: string) { exists f :: f in fs && Reports(f, c) && IsFail(f) }

  ghost predicate Covered(fs: set<Finding>, checks: seq<string>) {
    forall c :: c in checks ==> Reported(fs, c)
  }

  ghost predicate HasFail(fs: set<Finding>) { exists f :: f in fs && IsFail(f) }

  ghost predicate HasBlocking(fs: set<Finding>) { exists f :: f in fs && IsBlocking(f) }

  /** Coverage is asked before failure. */
  ghost function LocalVerdict(fs: set<Finding>, checks: seq<string>): Verdict {
    if exists f :: f in fs && LocallyMalformed(f) then Insufficient
    else if !Covered(fs, checks) then Insufficient
    else if HasFail(fs) || HasBlocking(fs) then Failed
    else Verified
  }

  /** Failure is asked before coverage. */
  ghost function NativeVerdict(fs: set<Finding>, checks: seq<string>): Verdict {
    if exists f :: f in fs && NativelyMalformed(f) then Insufficient
    else if HasFail(fs) || HasBlocking(fs) then Failed
    else if !Covered(fs, checks) then Insufficient
    else Verified
  }

  ghost function FindingsOf(xs: seq<Finding>): set<Finding> { set f | f in xs }

  /** Every permitted check is named by a finding with an outcome. */
  ghost predicate NamesEvery(fs: set<Finding>, checks: seq<string>) {
    forall c :: c in checks ==> c != "" && exists f :: f in fs && f.Finding? && f.check == Text(c) && f.status != Absent
  }

  /** What a local review must show to be verified. */
  ghost predicate LocallyClean(fs: set<Finding>, checks: seq<string>) {
    && NamesEvery(fs, checks)
    && forall f :: f in fs ==>
         && f.Finding? && f.status == Text("PASS") && f.procedure.Text? && f.procedure.text != ""
         && f.severity !in {Text("P0"), Text("P1"), Text("BLOCKING"), Text("CRITICAL")}
  }

  ghost predicate NativelyClean(fs: set<Finding>, checks: seq<string>) {
    && NamesEvery(fs, checks)
    && forall f :: f in fs ==>
         && f.Finding? && f.status in {Absent, Text("PASS")}
         && f.severity !in {Text("P0"), Text("P1"), Text("BLOCKING"), Text("CRITICAL")}
  }

  /** What makes a local review a failure: every finding can be relied on, every check is
      named, and some finding fails. */
  ghost predicate LocallyFailing(fs: set<Finding>, checks: seq<string>) {
    && NamesEvery(fs, checks)
    && (forall f :: f in fs ==>
          && f.Finding? && f.status in {Text("PASS"), Text("FAIL")} && f.procedure.Text? && f.procedure.text != ""
          && (f.status == Text("PASS") ==>
                f.severity !in {Text("P0"), Text("P1"), Text("BLOCKING"), Text("CRITICAL")}))
    && exists f :: f in fs && f.Finding? && f.status == Text("FAIL")
  }

  /** What makes a native one a failure: some finding fails or blocks, and all can be read. */
  ghost predicate NativelyFailing(fs: set<Finding>) {
    && (forall f :: f in fs ==> f.Finding? && f.status in {Absent, Text("PASS"), Text("FAIL")})
    && exists f :: f in fs && f.Finding?
         && (f.status == Text("FAIL")
             || f.severity in {Text("P0"), Text("P1"), Text("BLOCKING"), Text("CRITICAL")})
  }

  lemma NamingIsCovering(fs: set<Finding>, checks: seq<string>)
    ensures NamesEvery(fs, checks) <==> Covered(fs, checks)
  {
    if Covered(fs, checks) {
      forall c | c in checks
        ensures c != "" && exists f :: f in fs && f.Finding? && f.check == Text(c) && f.status != Absent
      {
        assert Reported(fs, c);
        var f :| f in fs && Reports(f, c);
      }
    }
    if NamesEvery(fs, checks) {
      forall c | c in checks ensures Reported(fs, c) {
        var f :| f in fs && f.Finding? && f.check == Text(c) && f.status != Absent;
        assert Reports(f, c);
      }
    }
  }

  /** Some finding fails or blocks; further findings cannot undo that. */
  ghost predicate Damaged(fs: set<Finding>) { exists f :: f in fs && (IsFail(f) || IsBlocking(f)) }

  /** Verified exactly under full coverage with no failure, no blocking severity
      and no malformed finding, by either classifier. */
  lemma VerifiedExactly(fs: set<Finding>, checks: seq<string>)
    ensures LocalVerdict(fs, checks) == Verified <==> LocallyClean(fs, checks)
    ensures NativeVerdict(fs, checks) == Verified <==> NativelyClean(fs, checks)
  {
    NamingIsCovering(fs, checks);
  }

  /** Failed exactly as stated, by either classifier. */
  lemma FailedExactly(fs: set<Finding>, checks: seq<string>)
    ensures LocalVerdict(fs, checks) == Failed <==> LocallyFailing(fs, checks)
    ensures NativeVerdict(fs, checks) == Failed <==> NativelyFailing(fs)
  {
    NamingIsCovering(fs, checks);
    if f :| f in fs && IsFail(f) { assert f.Finding? && f.status == Text("FAIL"); }
    if f :| f in fs && IsBlocking(f) { assert f.Finding?; }
    if f :| f in fs && f.Finding? && f.status == Text("FAIL") { assert IsFail(f); }
    if f :| f in fs && f.Finding? && f.severity in {Text("P0"), Text("P1"), Text("BLOCKING"), Text("CRITICAL")} {
      assert IsBlocking(f);
    }
  }

  /** Once some finding fails or blocks, no further findings make the result
      verified. */
  lemma FailureIsFinal(fs: set<Finding>, more: set<Finding>, checks: seq<string>, f: Finding)
    requires f in fs && (IsFail(f) || IsBlocking(f))
    ensures LocalVerdict(fs + more, checks) != Verified && NativeVerdict(fs + more, checks) != Verified
  {
    assert f in fs + more;
  }

  // ---------------------------------------------------------------- the loop both classifiers run

  /** The dictionary and the two flags after the findings read so far. */
  ghost predicate Observed(fs: set<Finding>, byCheck: map<string, Tag>, blocking: bool, unattributed: bool) {
    && (forall c :: c in byCheck <==> Reported(fs, c))
    && (forall c :: c in byCheck ==> (byCheck[c] == FAIL <==> FailsCheck(fs, c)))
    && (blocking <==> HasBlocking(fs))
    && (unattributed <==> exists f :: f in fs && IsFail(f) && !NonEmpty(f.check))
  }

  method Observe(f: Finding, byCheck: map<string, Tag>, blocking: bool, unattributed: bool, ghost fs: set<Finding>)
    returns (byCheck': map<string, Tag>, blocking': bool, unattributed': bool)
    requires f.Finding? && Observed(fs, byCheck, blocking, unattributed)
    ensures Observed(fs + {f}, byCheck', blocking', unattributed')
  {
    byCheck', blocking', unattributed' := byCheck, blocking || IsBlocking(f), unattributed;
    forall c ensures (Reported(fs + {f}, c) <==> Reported(fs, c) || Reports(f, c))
                     && (FailsCheck(fs + {f}, c) <==> FailsCheck(fs, c) || (Reports(f, c) && IsFail(f))) {
      OneMoreReport(fs, f, c);
    }
    FlagsGrow(fs, f);
    if NonEmpty(f.check) {
      var c := f.check.text;
      if !(c in byCheck && byCheck[c] == FAIL) && f.status != Absent {
        byCheck' := byCheck[c := f.status];
      }
    } else if f.status == FAIL {
      unattributed' := true;
    }
  }

  lemma OneMoreReport(fs: set<Finding>, f: Finding, c: string)
    ensures Reported(fs + {f}, c) <==> Reported(fs, c) || Reports(f, c)
    ensures FailsCheck(fs + {f}, c) <==> FailsCheck(fs, c) || (Reports(f, c) && IsFail(f))
  {
    if g :| g in fs && Reports(g, c) { assert g in fs + {f}; }
    if g :| g in fs && Reports(g, c) && IsFail(g) { assert g in fs + {f}; }
    assert f in fs + {f};
  }

  lemma FlagsGrow(fs: set<Finding>, f: Finding)
    ensures HasBlocking(fs + {f}) <==> HasBlocking(fs) || IsBlocking(f)
    ensures (exists g :: g in fs + {f} && IsFail(g) && !NonEmpty(g.check)) <==>
            (exists g :: g in fs && IsFail(g) && !NonEmpty(g.check)) || (IsFail(f) && !NonEmpty(f.check))
  {
    if g :| g in fs && IsBlocking(g) { assert g in fs + {f}; }
    if IsBlocking(f) { assert f in fs + {f}; }
    if g :| g in fs && IsFail(g) && !NonEmpty(g.check) { assert g in fs + {f}; }
    if IsFail(f) && !NonEmpty(f.check) { assert f in fs + {f}; }
  }

  /** A recorded failure or an unattributed one: some finding fails. */
  lemma FailsAreRecorded(fs: set<Finding>, byCheck: map<string, Tag>, blocking: bool, unattributed: bool)
    requires Observed(fs, byCheck, blocking, unattributed)
    ensures HasFail(fs) <==> unattributed || exists c :: c in byCheck && byCheck[c] == FAIL
  {
    if f :| f in fs && IsFail(f) {
      if NonEmpty(f.check) {
        assert Reports(f, f.check.text);
        assert f.check.text in byCheck && byCheck[f.check.text] == FAIL;
      }
    }
    if c :| c in byCheck && byCheck[c] == FAIL {
      var f :| f in fs && Reports(f, c) && IsFail(f);
    }
  }

  lemma CoverageIsRecorded(fs: set<Finding>, byCheck: map<string, Tag>, checks: seq<string>)
    requires forall c :: c in byCheck <==> Reported(fs, c)
    ensures Covered(fs, checks) <==> forall c :: c in checks ==> c in byCheck
  {
  }

  method ReadFindings(findings: seq<Finding>, checks: seq<string>) returns (v: Verdict)
    ensures v == LocalVerdict(FindingsOf(findings), checks)
  {
    var byCheck: map<string, Tag> := map[];
    var blocking, unattributed := false, false;
    for k := 0 to |findings|
      invariant Observed(FindingsOf(findings[..k]), byCheck, blocking, unattributed)
      invariant forall f :: f in FindingsOf(findings[..k]) ==> !LocallyMalformed(f)
    {
      var f := findings[k];
      assert findings[..k + 1] == findings[..k] + [f];
      assert FindingsOf(findings[..k + 1]) == FindingsOf(findings[..k]) + {f};
      if LocallyMalformed(f) {
        assert f in FindingsOf(findings);
        return Insufficient;
      }
      byCheck, blocking, unattributed := Observe(f, byCheck, blocking, unattributed, FindingsOf(findings[..k]));
    }
    assert findings[..|findings|] == findings;
    CoverageIsRecorded(FindingsOf(findings), byCheck, checks);
    FailsAreRecorded(FindingsOf(findings), byCheck, blocking, unattributed);
    if exists c :: c in checks && c !in byCheck {
      return Insufficient;
    }
    if (exists c :: c in byCheck && byCheck[c] == FAIL) || unattributed || blocking {
      return Failed;
    }
    return Verified;
  }

  method ReadNativeFindings(findings: seq<Finding>, checks: seq<string>) returns (v: Verdict)
    ensures v == NativeVerdict(FindingsOf(findings), checks)
  {
    var byCheck: map<string, Tag> := map[];
    var blocking, unattributed := false, false;
    for k := 0 to |findings|
      invariant Observed(FindingsOf(findings[..k]), byCheck, blocking, unattributed)
      invariant forall f :: f in FindingsOf(findings[..k]) ==> !NativelyMalformed(f)
    {
      var f := findings[k];
      assert findings[..k + 1] == findings[..k] + [f];
      assert FindingsOf(findings[..k + 1]) == FindingsOf(findings[..k]) + {f};
      if NativelyMalformed(f) {
        assert f in FindingsOf(findings);
        return Insufficient;
      }
      byCheck, blocking, unattributed := Observe(f, byCheck, blocking, unattributed, FindingsOf(findings[..k]));
    }
    assert findings[..|findings|] == findings;
    CoverageIsRecorded(FindingsOf(findings), byCheck, checks);
    FailsAreRecorded(FindingsOf(findings), byCheck, blocking, unattributed);
    if unattributed || (exists c :: c in byCheck && byCheck[c] == FAIL) || blocking {
      return Failed;
    }
    if exists c :: c in checks && c !in byCheck {
      return Insufficient;
    }
    return Verified;
  }

  /** The verdict on the findings, and what it says about them. */
  method ClassifyFindings(findings: seq<Finding>, checks: seq<string>) returns (v: Verdict)
    ensures v == LocalVerdict(FindingsOf(findings), checks)
    ensures v == Verified <==> LocallyClean(FindingsOf(findings), checks)
    ensures Damaged(FindingsOf(findings)) ==> v != Verified
  {
    v := ReadFindings(findings, checks);
    VerifiedExactly(FindingsOf(findings), checks);
  }

  /** The verdict on the findings, and what it says about them. */
  method ClassifyNativeFindings(findings: seq<Finding>, checks: seq<string>) returns (v: Verdict)
    ensures v == NativeVerdict(FindingsOf(findings), checks)
    ensures v == Verified <==> NativelyClean(FindingsOf(findings), checks)
    ensures Damaged(FindingsOf(findings)) ==> v != Verified
  {
    v := ReadNativeFindings(findings, checks);
    VerifiedExactly(FindingsOf(findings), checks);
  }

  // ---------------------------------------------------------------- the classifiers with their guards

  /** What the launch observed, besides its findings. */
  datatype Launch = Launch(
    timedOut: bool, exitCode: int, truncated: bool, reviewStatus: Tag, inspectedPaths: Option<seq<string>>,
    findings: Option<seq<Finding>>, observedDigest: Tag)

  datatype Grant = Grant(permittedPaths: seq<string>, permittedChecks: seq<string>, expectedDigest: string)

  function PathSet(paths: seq<string>): set<string> { set p | p in paths }

  /** The answer before any finding is read, if there is one. */
  function LaunchGuard(l: Launch, g: Grant): Option<Verdict> {
    if l.timedOut then Some(Insufficient)
    else if l.exitCode != 0 then Some(Failed)
    else if l.truncated then Some(Insufficient)
    else if l.reviewStatus == Text("UNAVAILABLE") then Some(Unavailable)
    else if l.inspectedPaths.None? || l.findings.None? then Some(Insufficient)
    else if PathSet(g.permittedPaths) != PathSet(l.inspectedPaths.value) then Some(Insufficient)
    else if l.reviewStatus == Text("FAILED") then Some(Failed)
    else if l.reviewStatus != Text("COMPLETED") then Some(Insufficient)
    else if l.observedDigest != Text(g.expectedDigest) then Some(Insufficient)
    else None
  }

  lemma SamePaths(xs: seq<string>, ys: seq<string>)
    ensures PathSet(xs) == PathSet(ys) <==> forall p :: p in ys <==> p in xs
  {
    if PathSet(xs) == PathSet(ys) {
      forall p ensures p in ys <==> p in xs { assert p in PathSet(xs) <==> p in PathSet(ys); }
    }
  }

  method ClassifyReviewResult(l: Launch, g: Grant) returns (v: Verdict)
    ensures LaunchGuard(l, g).Some? ==> v == LaunchGuard(l, g).value
    ensures LaunchGuard(l, g).None? ==>
            l.findings.Some? && v == LocalVerdict(FindingsOf(l.findings.value), g.permittedChecks)
    ensures v == Verified <==>
            && !l.timedOut && l.exitCode == 0 && !l.truncated && l.reviewStatus == Text("COMPLETED")
            && l.inspectedPaths.Some? && (forall p :: p in l.inspectedPaths.value <==> p in g.permittedPaths)
            && l.observedDigest == Text(g.expectedDigest)
            && l.findings.Some? && LocallyClean(FindingsOf(l.findings.value), g.permittedChecks)
    ensures v == Unavailable <==>
            !l.timedOut && l.exitCode == 0 && !l.truncated && l.reviewStatus == Text("UNAVAILABLE")
    ensures v == Failed <==>
            && !l.timedOut
            && (l.exitCode != 0
                || (&& !l.truncated && l.inspectedPaths.Some? && l.findings.Some?
                    && (forall p :: p in l.inspectedPaths.value <==> p in g.permittedPaths)
                    && (l.reviewStatus == Text("FAILED")
                        || (&& l.reviewStatus == Text("COMPLETED") && l.observedDigest == Text(g.expectedDigest)
                            && LocallyFailing(FindingsOf(l.findings.value), g.permittedChecks)))))
  {
    var guard := LaunchGuard(l, g);
    if l.inspectedPaths.Some? { SamePaths(g.permittedPaths, l.inspectedPaths.value); }
    if guard.Some? {
      return guard.value;
    }
    v := ClassifyFindings(l.findings.value, g.permittedChecks);
    FailedExactly(FindingsOf(l.findings.value), g.permittedChecks);
  }

  function ReviewGuard(state: string): Option<Verdict> {
    if state == "PENDING" || state == "DISMISSED" then Some(Unavailable)
    else if state == "CHANGES_REQUESTED" then Some(Failed)
    else if state != "APPROVED" then Some(Insufficient)
    else None
  }

  method ClassifyNativeReviewResult(state: string, findings: seq<Finding>, checks: seq<string>) returns (v: Verdict)
    ensures ReviewGuard(state).Some? ==> v == ReviewGuard(state).value
    ensures ReviewGuard(state).None? ==> v == NativeVerdict(FindingsOf(findings), checks)
    ensures v == Verified <==> state == "APPROVED" && NativelyClean(FindingsOf(findings), checks)
    ensures v == Unavailable <==> state in {"PENDING", "DISMISSED"}
    ensures v == Failed <==>
            state == "CHANGES_REQUESTED" || (state == "APPROVED" && NativelyFailing(FindingsOf(findings)))
  {
    var guard := ReviewGuard(state);
    if guard.Some? {
      return guard.value;
    }
    v := ClassifyNativeFindings(findings, checks);
    FailedExactly(FindingsOf(findings), checks);
  }

  // ---------------------------------------------------------------- what the verdicts promise

  /** Order and repetition of findings change nothing. */
  lemma OnlyTheSetMatters(xs: seq<Finding>, ys: seq<Finding>, checks: seq<string>)
    requires forall f :: f in xs <==> f in ys
    ensures LocalVerdict(FindingsOf(xs), checks) == LocalVerdict(FindingsOf(ys), checks)
    ensures NativeVerdict(FindingsOf(xs), checks) == NativeVerdict(FindingsOf(ys), checks)
  {
    assert FindingsOf(xs) == FindingsOf(ys);
  }

  /** On findings the local classifier can rely on, the two classifiers differ
      exactly when a check is unreported while something fails: the one calls that
      insufficient, the other failed. Elsewhere the local one is the stricter. */
  lemma ClassifiersCompared(fs: set<Finding>, checks: seq<string>)
    ensures LocalVerdict(fs, checks) == Verified ==> NativeVerdict(fs, checks) == Verified
    ensures LocalVerdict(fs, checks) == Failed ==> NativeVerdict(fs, checks) == Failed
    ensures (forall f :: f in fs ==> !LocallyMalformed(f)) ==>
              (LocalVerdict(fs, checks) != NativeVerdict(fs, checks) <==>
               !Covered(fs, checks) && (HasFail(fs) || HasBlocking(fs)))
  {
    forall f | !LocallyMalformed(f) ensures !NativelyMalformed(f) {}
  }
}
