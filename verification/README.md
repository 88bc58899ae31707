# Verification model of the MANOSUBE agent civilization core

A Dafny model of the repository's stateful and order-sensitive cores, with proofs of what they promise.
`dafny verify dfyconfig.toml` checks all of it.

| files | what they model |
|---|---|
| `PolicyTypes`, `PolicyEngine`, `PolicyLineage`, `PolicyView` | the event-sourced acceptance policy: clauses, transitions, adoptions, the fold, the effective view and the impact preview |
| `PolicyStore`, `PolicyRoute`, `PolicyRuns`, `PolicyReplays`, `PolicyAnswers`, `PolicyProcesses` | the compare-and-swap store and the open, propose and adopt calls as interleaving processes, first as a transition system and then as objects updated in place |
| `AuthorityScope`, `Authority`, `AuthorityGuarantees`, `AuthorityMonotonicity`, `Timestamps`, `SchemaClosure` | the authority evaluator, its scopes and timestamps, and the `$ref` closure of its schemas |
| `ListScheduling`, `ShardScheduler`, `ShardModules` | the test-shard partition |
| `CanonicalTree`, `CanonicalIdentity`, `EvaluationChains` | canonical JSON trees modulo set order, difference identity and duplicates, evaluation chains and the supersession walk |
| `ReviewVerdict` | the two findings classifiers |
| `Texts`, `BoundedBlock`, `StatusFields`, `StatusReading`, `SourceReflow`, `ReflowContents`, `ReflowHandoff`, `ReflowConvergence`, `ReflowRefusals` | the generated-block splice, the field printer and parser, and the post-merge reflow over a path-to-content map |
| `Common` | options and results, string order, sorting |

## Assumptions

- Record ids, state fingerprints, action and intent digests are injective in what they cover; a baseline's id covers only its project and issue. A signature is its signer and the payload it covers. `canonical_json_bytes` is an injective key; the JSON and hash encoders of the reflow are parameters.
- One step of a call is one read, listing or swap of the store with the pure code up to the next one. A listing step reads its records in one moment although the code reads them one after the other, and a resolving step reads a transition and its baseline; records never change once committed, so what a step reads is what reading record by record at later moments gives (`PolicyReplays.EarlierListingReadsTheSame`). The store is one project's journal, records and state, and its `commit` runs under the project's lock. Other domains commit only records of other kinds.
- Schema validity, content address, version and provenance of an authority record, and schema validity of a clause, are verdicts the record carries. Record schemas therefore refuse nothing further on output.

## Findings

- `PolicyReplays`: the documentation calls an exact replay a no-op (`src/manosube_agent_civilization/acceptance_policy/route.py:167-175`). A replay that passes its check before a rival commits the same record and loads after it is refused as a conflicting one (`PolicyReplays.LateLoadIsRefused`, and a whole run in `PolicyReplays.ExactReplayCanBeRefused`). A swap of a committed record succeeds exactly when the body, the state read and the commit time are those of the first commit (`PolicyReplays.ReplayInARunSucceedsExactly`).
- `PolicyView`: after a removal the fold still remembers the removal as the clause's head (`src/manosube_agent_civilization/acceptance_policy/engine.py:632-638`), while a proposal binds to the baseline (`src/manosube_agent_civilization/acceptance_policy/route.py:541-549`), so a removed clause can never be added again (`PolicyView.RemovedClauseStaysOut`, an input in `PolicyView.ARemovedClauseStaysOut`; exactly when a proposal is accepted in `PolicyView.ProposalIsAcceptedExactly`).
- `PolicyView`: the preview of an added clause lacks the leading baseline in its provenance (`src/manosube_agent_civilization/acceptance_policy/engine.py:699-707` against `src/manosube_agent_civilization/acceptance_policy/engine.py:637`; `PolicyView.PreviewIsTheFold`).
- `AuthorityMonotonicity`: the decision is not monotone in scope or reversibility. There are three causes: a stricter rule no longer contains the larger request (`src/manosube_agent_civilization/authority/scope.py:169-184`, `src/manosube_agent_civilization/authority/levels.py:62-65`; `WideningCanLoosen`, `LessReversibleCanLoosen`); an approval that withheld the action no longer binds, because the digest it binds covers the scope and the action (`src/manosube_agent_civilization/authority/identity.py:83-95`; `LosingAnExclusionCanLoosen`); and a request naming nothing is governed by no rule (`NamingSomethingCanLoosen`). An approval of the larger request alone loosens the answer by design. `AskingForMoreLoosensExactly` says exactly when the answer loosens.
- `CanonicalTree`: set members given as a text or an object are compared by what iterating them yields (`scripts/difference_contract_validator.py:94-95`; `CanonicalTree.TextMembersAreReadAsCharacters`), and the trees on which the comparison departs from the plain relation are exactly those that do not list their sets' members (`CanonicalTree.DepartsExactlyWhenUnlisted`).
- `SourceReflow`: a reflow that finds nothing stale never repairs a missing or outdated receipt (`scripts/merge_source_reflow.py:289-299`), so the following validation fails (`ReflowRefusals.LostReceiptIsNotRepaired`, an input in `ReflowRefusals.AReceiptStaysLost`; exactly when it validates in `ReflowConvergence.ValidatesExactly`).

## Model

| member | source | states |
|---|---|---|
| `PolicyRuns.EveryReachableLineageFolds` | src/manosube_agent_civilization/acceptance_policy/route.py:629-766 | In every run of any number of interleaved open, propose and adopt calls on one store, together with commits of other domains, every work unit's adoptions in commit order fold without error; a work unit without a baseline has none |
| `PolicyRuns.EveryReachableHistoryIsOneChain` | src/manosube_agent_civilization/acceptance_policy/engine.py:580-639 | In every run the transitions adopted on one clause form a single chain rooted at the baseline: no predecessor is used twice, nothing is adopted twice, and a removal can only be the last of them, so a removed clause never comes back |
| `PolicyRuns.EveryReachableAdoptionIsAuthorised` | src/manosube_agent_civilization/acceptance_policy/route.py:397-459 | In every run each committed adoption names the human authority, carries a signature by the genesis key over exactly its own fields, targets a record of its own work unit, and is listed in that unit's lineage |
| `PolicyRuns.OneBaselinePerUnit` | src/manosube_agent_civilization/acceptance_policy/identity.py:36-48 | In every run a work unit has at most one baseline, because a baseline's id is keyed on project and issue alone |
| `PolicyRuns.NothingCommittedIsLost` | src/manosube_agent_civilization/store/file_store.py:1555-1625 | However a run goes on, every committed record and every journal entry stays as it was |
| `PolicyRuns.OneRecordPerRevision` | src/manosube_agent_civilization/store/file_store.py:1596-1625 | In every run the store holds exactly one record and one journal entry for each revision, and no action commits more than once |
| `PolicyRuns.EveryRunIsOk` | src/manosube_agent_civilization/acceptance_policy/route.py:159-260 | Every reachable store is journaled, holds only verified records and cleanly folding lineages, and every running call's knowledge is right as long as the state it read is current |
| `PolicyRuns.OthersCannotMislead` | src/manosube_agent_civilization/acceptance_policy/route.py:218-231 | A commit by another call never makes a running call's knowledge wrong: it moves the revision, and a moved revision fails the swap |
| `PolicyRuns.SwapMayAppend` | src/manosube_agent_civilization/acceptance_policy/route.py:629-659 | An adoption whose swap goes through was simulated on exactly the lineage it extends, so the extended lineage folds |
| `PolicyReplays.FinishedAdoptionStaysFinished` | src/manosube_agent_civilization/acceptance_policy/route.py:716-766 | In every run, a call asking for an adoption that is committed when it starts never changes the store, whatever actions follow, and has answered with that adoption after 56 steps of its own |
| `PolicyReplays.ReplayInARunSucceedsExactly` | src/manosube_agent_civilization/store/file_store.py:1573-1595 | In every run, a call that swaps a record already committed leaves the store as it is, and succeeds exactly when its body is the committed one and it read the state and carries the time of the first commit; otherwise it is a conflicting replay |
| `PolicyReplays.LateLoadIsRefused` | src/manosube_agent_civilization/acceptance_policy/route.py:191-231 | If a rival commits the very record between a call's check and its load, the call's next two steps end in the refusal of a conflicting replay |
| `PolicyReplays.ExactReplayCanBeRefused` | src/manosube_agent_civilization/acceptance_policy/route.py:167-231 | A run of two identical open calls on an empty store in which the first commits and the second, an exact replay, is refused |
| `PolicyReplays.EveryCallOfARunEnds` | src/manosube_agent_civilization/acceptance_policy/route.py:191-206 | In every run, after k steps of a call at most 56 - k are left, so it has ended after 56 steps of its own with at most eight commit attempts, whatever the others do |
| `PolicyReplays.EarlierListingReadsTheSame` | src/manosube_agent_civilization/acceptance_policy/route.py:462-516 | What was listed at one moment reads the same record by record at any later one: the same lineage, every adoption still verifying, every adopted transition resolving to the same body |
| `PolicyAnswers.EveryCallIsAnswered` | src/manosube_agent_civilization/acceptance_policy/route.py:263-766 | A call that starts anywhere in a run and meets at most seven commits of other domains has, after 56 steps of its own, committed the record it owes over the store it started on and answered with it, answered a replay of it, been refused a conflicting one, or, owing none, been refused for exactly the stated reason; undisturbed it changes nothing else |
| `PolicyAnswers.AdoptionIsAnswered` | src/manosube_agent_civilization/acceptance_policy/route.py:662-766 | An adopt call left to itself whose adoption is not committed ends with that adoption appended and answered exactly when owner, source, project binding, genesis signature and target are right and the adoption is admissible after the unit's lineage; otherwise it is refused for exactly the stated reason and the store is as it was |
| `PolicyAnswers.ProposalIsAnswered` | src/manosube_agent_civilization/acceptance_policy/route.py:565-626 | A propose call left to itself commits the transition with exactly the call's fields, bound at the clause's head or at the baseline, or finds it committed, exactly when the source is the owner's, the unit is opened under the given baseline, the body is the clause's own and not marked original, and the label is the true one; otherwise it is refused for exactly the stated reason |
| `PolicyAnswers.OpeningIsAnswered` | src/manosube_agent_civilization/acceptance_policy/route.py:263-294 | An open call left to itself commits the baseline of exactly the given clauses, finds that very baseline committed, or is refused as a conflict with another; a source that is not the owner's original issue, or clauses that are none, repeated or not original, are refused |
| `PolicyAnswers.AUnitIsActivated` | src/manosube_agent_civilization/acceptance_policy/route.py:263-766 | One run in full: the owner opens a unit and adopts its baseline, both calls answer with their record and the store holds the two |
| `PolicyAnswers.ResolvesTargetExactly` | src/manosube_agent_civilization/acceptance_policy/route.py:363-394 | An adoption's target resolves exactly when it names the unit's own baseline or one of its committed transitions, and then to that unit's baseline |
| `PolicyAnswers.SimulatesExactly` | src/manosube_agent_civilization/acceptance_policy/route.py:629-659 | The simulated lineage folds exactly when the adoption is admissible after what is committed |
| `PolicyProcesses.RunInterleaved` | src/manosube_agent_civilization/acceptance_policy/route.py:263-766 | Running the call objects on one mutable store under any schedule reaches exactly the state of the run the theorems speak of |
| `PolicyProcesses.Dispatch` | src/manosube_agent_civilization/acceptance_policy/route.py:159-260 | One scheduled action changes the store object and one call object as the transition system says, and no other call object |
| `PolicyProcesses.PolicyCall.TakeStep` | src/manosube_agent_civilization/acceptance_policy/route.py:565-766 | The code of a call up to its next access of the store does to the two objects what one step of the transition system does |
| `PolicyProcesses.PolicyCall.ProposedNow` | src/manosube_agent_civilization/acceptance_policy/route.py:600-626 | A proposal is built against the fold of what the call listed: its binding and prior body come from the effective view, its operation from the recomputed difference |
| `PolicyProcesses.PolicyCall.SimulateFold` | src/manosube_agent_civilization/acceptance_policy/route.py:629-659 | The call's simulation goes on, or refuses, as the transition system's step does, whose outcome PolicyAnswers.AdoptionIsAnswered fixes for whole runs |
| `PolicyProcesses.PolicyCall.AttemptCommit` | src/manosube_agent_civilization/acceptance_policy/route.py:209-260 | One swap ends in the commit, in a conflicting-replay refusal, in a retry with one attempt more, or in giving up after the eighth |
| `PolicyProcesses.FileStateStore.CommitRecord` | src/manosube_agent_civilization/store/file_store.py:1568-1605 | The store is swapped to the one with the record appended, or is untouched and the refusal says whether the state was stale or the replay conflicting |
| `PolicyProcesses.FileStateStore.CanonicalAdoptions` | src/manosube_agent_civilization/acceptance_policy/route.py:462-492 | Listing all stored adoptions in any order, re-verifying each, keeping the work unit's and sorting them by committing revision gives its lineage in journal order; one that does not verify refuses the listing |
| `PolicyProcesses.FileStateStore.CollectTransitions` | src/manosube_agent_civilization/acceptance_policy/route.py:509-516 | Collects exactly the transitions the adoptions adopt, or refuses if one of them does not resolve |
| `PolicyProcesses.SortedListingIsLineage` | src/manosube_agent_civilization/acceptance_policy/route.py:479-492 | Any duplicate-free listing of a work unit's adoptions with their committing revisions, sorted by revision, is the journal order |
| `PolicyStore.CommitAppendsOnce` | src/manosube_agent_civilization/store/file_store.py:1568-1625 | A commit either leaves the store alone or appends exactly one fresh record at the next revision, and the latter exactly when the snapshot is still current |
| `PolicyStore.ReplayIsNoOpExactly` | src/manosube_agent_civilization/store/file_store.py:1573-1595 | Committing an already journaled transaction succeeds exactly when body, snapshot and commit time are the first commit's; a racing exact replay read at another state is refused as a conflict |
| `PolicyStore.AppendedIsJournaled` | src/manosube_agent_civilization/store/file_store.py:1596-1625 | Appending a fresh record keeps the journal gapless, its transactions distinct and the record ids exactly the committed ones |
| `PolicyLineage.FoldIsLastWriter` | src/manosube_agent_civilization/acceptance_policy/engine.py:466-664 | After a clean fold each clause is live with the body its last adopted transition left (or the baseline's), its head is that transition, and its provenance is the baseline followed by every transition adopted since its last removal |
| `PolicyLineage.FoldsExactlyWhenAdmissible` | src/manosube_agent_civilization/acceptance_policy/engine.py:490-650 | A lineage folds without error exactly when every adoption in it is admissible after the ones before it |
| `PolicyLineage.NextFoldsExactlyWhenAdmissible` | src/manosube_agent_civilization/acceptance_policy/engine.py:580-639 | After a clean lineage one more adoption folds exactly when it is new, belongs to the unit, and either activates the baseline once or extends its clause's head with a truthfully labelled change |
| `PolicyLineage.NextIsRefusedWhy` | src/manosube_agent_civilization/acceptance_policy/engine.py:490-650 | An adoption that is not admissible is refused for exactly the stated reason: an absent transition, a change that is none or mislabelled, an addition of no body, or a conflict with the lineage |
| `PolicyLineage.FirstRefusalIsAnswered` | src/manosube_agent_civilization/acceptance_policy/engine.py:490-650 | A lineage that does not fold is refused at its first inadmissible adoption, and for that one's reason |
| `PolicyLineage.AdoptedTransitionsFormOneChain` | src/manosube_agent_civilization/acceptance_policy/engine.py:580-639 | In any cleanly folding lineage the transitions adopted on a clause form one chain from the baseline without a shared predecessor or a repetition |
| `PolicyLineage.AdoptedOperationIsReal` | src/manosube_agent_civilization/acceptance_policy/engine.py:606-639 | An adopted transition is labelled a removal exactly when it proposes no body |
| `PolicyLineage.IndependentAdoptionsCommute` | src/manosube_agent_civilization/acceptance_policy/engine.py:466-664 | Swapping two neighbouring adoptions on different clauses changes neither whether the whole lineage folds nor the live clauses, heads and provenance afterwards |
| `PolicyEngine.ClassificationReverses` | src/manosube_agent_civilization/acceptance_policy/engine.py:89-128 | A change and its reverse are classified as inverse operations; narrowing means a proper subset of blocked gates under one class, broadening a proper superset; a change is refused exactly when nothing compared differs |
| `PolicyEngine.LabelsAreExact` | src/manosube_agent_civilization/acceptance_policy/engine.py:89-128 | Each label names its condition on the two bodies: reclassify exactly when the policy classes differ, replace exactly when under one class neither gate set is properly inside the other and gates or scope differ, no label exactly when nothing compared differs |
| `PolicyEngine.BuildBaseline` | src/manosube_agent_civilization/acceptance_policy/engine.py:196-233 | A baseline is built exactly from a non-empty list of original clauses with distinct ids, which it carries unchanged |
| `PolicyEngine.FoldReadsOnlyAdopted` | src/manosube_agent_civilization/acceptance_policy/engine.py:466-664 | A fold looks at no transition but the adopted ones |
| `PolicyView.DeriveEffectivePolicy` | src/manosube_agent_civilization/acceptance_policy/engine.py:466-664 | The loop that updates the three tables in place returns the first refusal of the fold, or a view that lists, once each and in increasing id order, exactly the clauses the lineage leaves a body, each with that body's class, gates, scope and original flag and the chain of its adopted transitions, and the adoptions' references in order |
| `PolicyView.ViewListsLineage` | src/manosube_agent_civilization/acceptance_policy/engine.py:640-664 | The view of any cleanly folding lineage, field by field: which clauses are listed, in which order, with which class, gates, scope, original flag and chain, and the folded references |
| `PolicyView.ExtendTables` | src/manosube_agent_civilization/acceptance_policy/engine.py:580-639 | One adopted transition updates the tables in place as the fold says or is refused with the same error |
| `PolicyView.ProposalIsAcceptedExactly` | src/manosube_agent_civilization/acceptance_policy/route.py:523-626 | A transition proposed against an activated view is folded later exactly when its clause was not removed at the read and nothing was adopted on it in between |
| `PolicyView.ExpectedPriorReadsTheHead` | src/manosube_agent_civilization/acceptance_policy/route.py:523-562 | The binding derived for a live clause names the clause's head and its body in force; for any other clause it names the baseline and no body, even after a removal |
| `PolicyView.PriorIsRead` | src/manosube_agent_civilization/acceptance_policy/route.py:523-562 | For every clean lineage the derived binding is the last transition adopted on a clause in force, or else the baseline, and the derived prior body is the one in force |
| `PolicyView.HistoryGrows` | src/manosube_agent_civilization/acceptance_policy/engine.py:466-664 | Whatever is adopted and committed later, a clause's adopted history only grows at its end |
| `PolicyView.VerifiedCandidateFolds` | src/manosube_agent_civilization/acceptance_policy/route.py:769-838 | Adopting a candidate the preview verified succeeds exactly when its clause was never removed |
| `PolicyView.PreviewIsTheFold` | src/manosube_agent_civilization/acceptance_policy/engine.py:667-744 | The previewed clauses are what adopting the candidate leaves in force, in every field, except that an added clause's previewed chain lacks the leading baseline |
| `PolicyView.BlockerDeltaIsExact` | src/manosube_agent_civilization/acceptance_policy/engine.py:712-735 | What blocked before, plus the new blockers, minus the removed ones, is exactly what blocks afterwards, and nothing is reported new or removed wrongly |
| `PolicyView.BuildImpactPreview` | src/manosube_agent_civilization/acceptance_policy/engine.py:667-744 | Editing a copy of the clause table in place yields the previewed table in id order and its blocker delta, each list exact, without repetition and ordered by field name, the before-side unchanged |
| `PolicyView.PreviewComesTrue` | src/manosube_agent_civilization/acceptance_policy/engine.py:667-744 | What the preview of a verified candidate lists is what the view lists once the candidate, committed since or not, is adopted; an added clause's chain lacks the leading baseline |
| `PolicyView.PreviewTransition` | src/manosube_agent_civilization/acceptance_policy/route.py:769-868 | The preview call answers exactly for a lineage that folds and a candidate of that lineage, bound where its clause stands and truthfully labelled, and refuses any other for the stated reason; it lists what is in force, exactly the candidate's change of it, and exactly the gates newly and no longer blocked in field order, and whoever adopts the candidate next leaves in force what was previewed |
| `PolicyView.RemovedClauseStaysOut` | src/manosube_agent_civilization/acceptance_policy/route.py:541-549 | Once a baseline is adopted and one of its clauses removed, the transition the propose route builds to add the clause again is refused by the fold |
| `PolicyView.ARemovedClauseStaysOut` | src/manosube_agent_civilization/acceptance_policy/engine.py:632-638 | One such lineage in full: a baseline of one clause, its removal, and the refused addition |
| `PolicyView.ByIdReadsTheListing` | src/manosube_agent_civilization/acceptance_policy/route.py:537-538 | Listing clauses in id order and indexing the list by id gives the table back |
| `Ordering.StringLeIsDictionaryOrder` | src/manosube_agent_civilization/acceptance_policy/engine.py:642-653 | Every list sorted by text is in dictionary order by code point: where two texts first differ the earlier one has the smaller character or has ended |
| `AuthorityGuarantees.EvaluationIgnoresOrder` | src/manosube_agent_civilization/authority/engine.py:286-293 | The whole decision record - decision, cited rule, approval, both reference lists and reason codes - or the refusal is the same under any permutation of rules, prohibitions, approvals and requested scope members |
| `AuthorityGuarantees.AutonomousExactly` | src/manosube_agent_civilization/authority/engine.py:382-486 | Autonomous exactly when no prohibition matches, no binding approval withholds the action, and either all governing rules (at least one) permit with no floor or some approval binds; prohibited exactly when a prohibition matches |
| `AuthorityGuarantees.AddingAProhibitionNeverLoosens` | src/manosube_agent_civilization/authority/engine.py:382-411 | One prohibition more never makes a decision more permissive |
| `AuthorityGuarantees.AddingAWithholdingApprovalNeverLoosens` | src/manosube_agent_civilization/authority/engine.py:453-476 | A further binding approval that withholds the action never loosens a decision, and no decision is autonomous in its presence |
| `AuthorityGuarantees.AddingARuleNeverLoosensAGovernedRequest` | src/manosube_agent_civilization/authority/engine.py:241-270 | Where some rule already governs, a further rule, however permissive, never loosens the decision |
| `AuthorityGuarantees.AnswerIsExact` | src/manosube_agent_civilization/authority/engine.py:316-512 | The evaluator's own answer to a request, its scope as written, is autonomous or prohibited exactly as stated, cites exactly a decisive rule, and gives exactly the true reasons, a refusal's included |
| `AuthorityGuarantees.AnsweredExactly` | src/manosube_agent_civilization/authority/engine.py:316-411 | A request is a boundary violation exactly when the Difference is another project's, stale exactly when everything else is in order and the Difference was observed at another revision or fingerprint, and answered exactly when it is in order and current, its records are admitted, and something prohibits it or every approval's validity can be read |
| `AuthorityGuarantees.StaleIsNeverDecided` | src/manosube_agent_civilization/authority/engine.py:350-364 | Any answered request has the Difference's project, revision and fingerprint, the digest of its own action, an enumerated scope and a readable time |
| `AuthorityGuarantees.RecordsAreInOrder` | src/manosube_agent_civilization/authority/engine.py:217-238 | The records are admitted exactly when each is canonical with an enumerated scope, no rule declares a refusal, and no identity comes twice within a kind |
| `AuthorityGuarantees.RecordsApplyExactly` | src/manosube_agent_civilization/authority/engine.py:241-270 | Field by field: when a rule governs, a prohibition matches and an approval binds |
| `AuthorityGuarantees.FloorsAreExact` | src/manosube_agent_civilization/authority/engine.py:419-425 | No rule can lower an irreversible action, or one of the kinds Human Authority keeps |
| `AuthorityGuarantees.AnswerRepeatsTheRequest` | src/manosube_agent_civilization/authority/engine.py:515-566 | The record repeats project, Difference, action, state and scope of the request, and its lists are strictly increasing |
| `AuthorityMonotonicity.WideningKeepsProhibited` | src/manosube_agent_civilization/authority/scope.py:187-199 | A prohibited request stays prohibited when its scope is widened |
| `AuthorityMonotonicity.AskingForMoreLoosensExactly` | src/manosube_agent_civilization/authority/engine.py:382-486 | Asking for a wider scope or a less reversible action of the same kind loosens the answer exactly when nothing prohibits or withholds the larger request and either an approval binds it while the smaller one is not cleared, or the rules permit it while the smaller one is withheld, or bound by no approval and either empty or governed by a stricter rule of its own |
| `AuthorityMonotonicity.WideningLoosensExactly` | src/manosube_agent_civilization/authority/scope.py:169-184 | Whatever approvals there are, and even from an empty scope, widening loosens the answer exactly when the wider request is neither prohibited nor withheld and is permitted by rules or an approval, while the narrower one is withheld or permitted by neither |
| `AuthorityMonotonicity.LessReversibleLoosensExactly` | src/manosube_agent_civilization/authority/levels.py:62-65 | A less reversible action of the same kind is answered more permissively exactly when nothing prohibits or withholds it and either an approval binds it while the first action is not cleared, or the rules permit it while the first is withheld, or unapproved and governed by a stricter rule of its own |
| `AuthorityMonotonicity.RequestingMoreLoosensExactly` | src/manosube_agent_civilization/authority/engine.py:316-512 | The same condition decides it for the evaluator's answers to two requests over the same records, their scopes as written |
| `AuthorityMonotonicity.NoApprovalCoversBoth` | src/manosube_agent_civilization/authority/approval.py:47-101 | An approval that binds both a request and a larger one binds the same scope members and the same action twice, so whatever it said of the smaller request is lost once a member is added or the action changed |
| `AuthorityMonotonicity.WideningCanLoosen` | src/manosube_agent_civilization/authority/scope.py:169-184 | Two rules and two requests for which asking for a wider scope is answered more permissively, a stricter rule being left behind |
| `AuthorityMonotonicity.LessReversibleCanLoosen` | src/manosube_agent_civilization/authority/levels.py:62-65 | Two rules and two requests for which a less reversible action is answered more permissively |
| `AuthorityMonotonicity.LosingAnExclusionCanLoosen` | src/manosube_agent_civilization/authority/identity.py:83-95 | One permissive rule and one approval that withholds the action: widening the scope, or naming a less reversible action, changes the digest the approval must bind, its exclusion is lost, and the answer becomes autonomous with no stricter rule anywhere |
| `AuthorityMonotonicity.NamingSomethingCanLoosen` | src/manosube_agent_civilization/authority/scope.py:169-184 | A request that names nothing is governed by no rule, and naming something is answered more permissively |
| `AuthorityGuarantees.CitationAccountsForDecision` | src/manosube_agent_civilization/authority/engine.py:273-293 | The record says a rule was decisive exactly when it cites one, the cited rule governs the request and declares the recorded decision, and nothing is cited only when no governing rule declares it |
| `AuthorityGuarantees.ReasonsAreTrue` | src/manosube_agent_civilization/authority/engine.py:380-499 | Every reason code appears exactly when what it names is so: no governing rule, a human-only or irreversible action, a withholding approval, no approval at all, a used approval, a permitting rule, no decisive rule; a refusal names just the prohibition and whether a constitutional one matched |
| `AuthorityGuarantees.AnswerGivesEveryMismatch` | src/manosube_agent_civilization/authority/engine.py:459-496 | The answer gives the code of a mismatch exactly when human approval is required, no approval withholds the action, and some approval fails to bind for what that code names |
| `AuthorityGuarantees.MismatchesAreExact` | src/manosube_agent_civilization/authority/approval.py:47-101 | Each mismatch code is given exactly when the field it names differs: status, window, project, difference, intent, action, revision, fingerprint or scope |
| `AuthorityGuarantees.ReferencesAreExact` | src/manosube_agent_civilization/authority/engine.py:530-566 | The reference lists hold exactly the matching prohibitions and the withholding binding approvals, and the cited rule and the used approval have the least id among those that qualify |
| `AuthorityGuarantees.ApprovalBindsOneRequest` | src/manosube_agent_civilization/authority/approval.py:47-101 | An approval that binds two admitted requests binds the same action, operation, scope members, project, difference and state twice |
| `AuthorityGuarantees.WindowIsExact` | src/manosube_agent_civilization/authority/approval.py:78-87 | A validity window contains a clock reading exactly when the times the three texts name are so ordered, at any precision |
| `Authority.Evaluate` | src/manosube_agent_civilization/authority/engine.py:316-512 | The staged evaluation returns the answer defined over the request's records as sets, and its refusals in the stated order |
| `Authority.DecidePermission` | src/manosube_agent_civilization/authority/engine.py:413-512 | Once nothing prohibits, rules, floors, exclusions and approvals yield the defined decision, citation, approval, references and reason codes; an unreadable validity bound refuses |
| `Authority.ResolveRules` | src/manosube_agent_civilization/authority/engine.py:241-270 | The governing rules are those of the project that name the action, allow its reversibility and contain its scope; their decision is the most restrictive one, and without any it is human approval |
| `Authority.CiteRule` | src/manosube_agent_civilization/authority/engine.py:273-293 | The cited rule has the least id among the governing rules that declare the final decision |
| `Authority.RefuseIfProhibited` | src/manosube_agent_civilization/authority/prohibition.py:45-71 | A matching prohibition is the whole answer: all matching ones referenced in id order, with the constitutional code exactly when one of them is |
| `Authority.CheckApprovals` | src/manosube_agent_civilization/authority/engine.py:430-451 | Exactly the approvals bound to this very question are kept, in order, and every reason any other failed is collected |
| `Authority.BindingMismatches` | src/manosube_agent_civilization/authority/approval.py:47-101 | Exactly the failed checks of an approval are reported, ordered by their names, and none is exactly when the approval binds |
| `Authority.ConsultApprovals` | src/manosube_agent_civilization/authority/engine.py:473-486 | An approval is used exactly when one is needed, none withholds and some binds, and it is the one of least id |
| `Authority.AdmitAll` | src/manosube_agent_civilization/authority/conformance.py:573-614 | A supplied collection is admitted exactly when every member is fit and no identity repeats |
| `Authority.OrderedIdsAre` | src/manosube_agent_civilization/authority/prohibition.py:58-65 | Sorting records by id and reading their ids lists the set of their ids in order, so no reference list depends on input order |
| `AuthorityScope.RequireScope` | src/manosube_agent_civilization/authority/scope.py:100-159 | A scope is admitted exactly when every location and member is an enumerated one and no member repeats, and comes back canonical |
| `AuthorityScope.ResolvedExactly` | src/manosube_agent_civilization/authority/scope.py:46-63 | A member is an enumerated location exactly when it is trimmed and not empty, holds no pattern character, and no piece of it between slashes or its ends is empty, a dot or two dots |
| `AuthorityScope.CanonicalScopeDecides` | src/manosube_agent_civilization/authority/scope.py:66-97 | Two scopes have one canonical form exactly when they name the same location and the same members in any order |
| `AuthorityScope.WideningMovesOneWay` | src/manosube_agent_civilization/authority/scope.py:169-199 | Widening can only add overlaps and only lose containments, and a contained request overlaps what contains it |
| `Timestamps.InstantOrderIsNumeric` | src/manosube_agent_civilization/authority/conformance.py:329-353 | Instants, compared as seconds and then digit strings, are ordered exactly as the times they name with fractions of any length, and equal exactly when the times are |
| `Timestamps.ComparisonIsExact` | src/manosube_agent_civilization/authority/conformance.py:356-396 | Two admitted timestamps, stored or supplied and at whatever offset, compare as the times they name (section 5.6 of RFC 3339) |
| `Timestamps.ReadingIsExact` | src/manosube_agent_civilization/authority/conformance.py:356-419 | A text is admitted exactly when it fits the grammar and names a civil time; reading keeps the time it names, and every stored timestamp is a supplied one naming the same instant |
| `Timestamps.RenderedReadsBack` | src/manosube_agent_civilization/authority/conformance.py:356-419 | Every civil time of the years 1 to 9999 written out, with either separator, any fraction digits and any zone up to 23:59, is read as the seconds it names and its digits; it is a stored timestamp only with capital T and Z and digits without a trailing zero |
| `Timestamps.AdmittedIsRendered` | src/manosube_agent_civilization/authority/conformance.py:284-314 | No other text is admitted: every admitted one is such a civil time written out |
| `Timestamps.SecondsAreGregorian` | src/manosube_agent_civilization/authority/conformance.py:377-396 | The seconds of a civil time in closed form: the proleptic Gregorian days since the first of January 1970, and the time of day |
| `Timestamps.StoredSpellingIsUnique` | src/manosube_agent_civilization/authority/conformance.py:284-314 | Two admitted stored timestamps that name the same time are the same text |
| `Timestamps.SecondsAreMonotone` | src/manosube_agent_civilization/authority/conformance.py:377-396 | The count of seconds is strictly monotone in civil time over all admitted years |
| `Timestamps.EpochIsDayZero` | src/manosube_agent_civilization/authority/conformance.py:326-396 | The calendar's day count is the proleptic Gregorian one and is zero on the first of January 1970 |
| `SchemaClosure.ReachableSchemas` | src/manosube_agent_civilization/authority/conformance.py:244-278 | The worklist ends on cyclic graphs and returns exactly the schemas reachable from the seeds, refusing exactly when a reachable one is unregistered or no object and then naming such a one |
| `SchemaClosure.ReferencesExactly` | src/manosube_agent_civilization/authority/conformance.py:228-241 | The listed references are exactly the reference texts of the objects anywhere in the document |
| `SchemaClosure.RefersExactly` | src/manosube_agent_civilization/authority/conformance.py:270-276 | A schema refers to another exactly when an object inside it has a reference text whose part before any number sign is empty, the other being itself, or joined to its id gives the other's |
| `ShardScheduler.PartitionNodes` | scripts/run_test_shard.py:18-45 | Refuses exactly a non-positive count, an empty list or a repeated test, and otherwise returns the planned shards |
| `ShardScheduler.PlanIsExactPartition` | scripts/run_test_shard.py:18-45 | The shards together hold exactly the collected tests, each as often as collected, and tests of one module or of the shared group are on one shard |
| `ShardModules.ModuleIsRead` | scripts/run_test_shard.py:24-24 | The module of a test id is the one text without a double colon in it, also at its end, that is the id or that a double colon and anything follow |
| `ShardModules.PartitionKeepsModules` | scripts/run_test_shard.py:18-45 | Tests of one module, read off their ids, are on one shard, and so are all tests of the two acceptance modules (and of a module bearing their group's name); with more than one shard exactly these fill the last one, and exactly the long-running module's tests the one before what is kept |
| `ShardModules.NoSplitBeatsThePartition` | scripts/run_test_shard.py:42-44 | However else the ordinary tests are assigned to the r ordinary shards without splitting a module, if no shard gets more than t of them, no ordinary shard of the partition holds more than (4/3 - 1/(3r)) t |
| `ShardModules.ShardsAreInOrder` | scripts/run_test_shard.py:42-44 | Within an ordinary shard larger modules come first, modules of one size by name, and the tests of one module by id |
| `ShardModules.CollectionOrderIsIgnored` | scripts/run_test_shard.py:19-45 | The same tests collected in another order get the very same shards |
| `ShardScheduler.PlanIsWithinFourThirds` | scripts/run_test_shard.py:42-44 | However else the ordinary groups were distributed over the r ordinary shards, if no shard then held more than t tests, none of the plan's holds more than (4/3 - 1/(3r)) t |
| `ShardScheduler.ShardsAreBalanced` | scripts/run_test_shard.py:42-44 | Two ordinary shards differ by at most the largest ordinary group |
| `ShardScheduler.ShardsNearTheMean` | scripts/run_test_shard.py:42-44 | r times the largest ordinary shard is at most the ordinary tests and r - 1 largest groups |
| `ShardScheduler.ReservedGroupsStayAlone` | scripts/run_test_shard.py:29-41 | With more than one shard the shared group has the last one to itself, and the long-running module the next to last (or the last) when enough shards remain |
| `ShardScheduler.Balance` | scripts/run_test_shard.py:42-44 | Placing each group in turn on the first shard of least length packs the shards as greedy list scheduling places the jobs, reserved shards untouched |
| `ShardScheduler.Reserve` | scripts/run_test_shard.py:29-41 | The reserved shards, the remaining shard count and the remaining groups are the planned ones, including the put-back of the shared group on a single shard |
| `ShardScheduler.GroupNodes` | scripts/run_test_shard.py:22-26 | The dictionary of lists filled test by test holds each group's tests in collection order |
| `ListScheduling.LongestFirstIsWithinFourThirds` | scripts/run_test_shard.py:42-44 | Graham's bound: longest-first greedy finishes within 4/3 - 1/(3r) of every schedule of the same jobs on r machines |
| `ListScheduling.GreedyIsWithinTwice` | scripts/run_test_shard.py:42-44 | In whatever order the jobs come, greedy finishes within 2 - 1/r of every schedule |
| `ListScheduling.LastJobFits` | scripts/run_test_shard.py:42-44 | If all jobs are longer than a third of t and some schedule finishes by t, the lightest machine still has room for the last job |
| `CanonicalTree.CanonicalFormsDecide` | scripts/difference_contract_validator.py:90-98 | Any two trees the canonical form accepts get one canonical form exactly when they differ only in the order of members of unordered-set nodes, at any depth, a set's members being what iterating them yields |
| `CanonicalTree.EquivSameCanon` | scripts/difference_contract_validator.py:90-98 | Reordering set members, at any depth, never changes the canonical form of a tree it accepts |
| `CanonicalTree.CanonIsIdempotent` | scripts/difference_contract_validator.py:90-98 | Canonicalising a canonical form changes nothing, whatever the tree |
| `CanonicalTree.ExactValueEqualDecides` | scripts/difference_contract_validator.py:474-477 | On every pair of trees the comparison accepts it decides equality up to set order, a set's members being what iterating them yields; it refuses exactly trees with a set whose members cannot be iterated |
| `CanonicalTree.ExactValueEqualOnListedTrees` | scripts/difference_contract_validator.py:474-477 | On trees whose sets list their members it decides plain equality up to set order |
| `CanonicalTree.TextMembersAreReadAsCharacters` | scripts/difference_contract_validator.py:94-95 | A set whose members are a text equals the set of its characters, so the plain relation fails on such trees |
| `CanonicalTree.DepartsExactlyWhenUnlisted` | scripts/difference_contract_validator.py:94-95 | Every accepted tree compares equal to its own spelling, and is the same as it up to set order exactly when its sets list their members: the trees on which the comparison departs from the plain relation are exactly the others |
| `CanonicalTree.EquivIsSymmetric` | scripts/difference_contract_validator.py:90-98 | Differing only in set order is a symmetric relation |
| `CanonicalTree.CanonOfSpelled` | scripts/difference_contract_validator.py:90-98 | Spelling out what a set's members iterate to leaves the canonical form unchanged |
| `CanonicalIdentity.DifferenceIdIdentifies` | scripts/difference_contract_validator.py:614-627 | A difference has an id exactly when no identifying field holds a set that cannot be iterated, and two share one exactly when each of the nine identifying fields agrees up to set order; no other field counts |
| `CanonicalIdentity.DuplicateMeansEquivalentMembers` | scripts/difference_contract_validator.py:101-113 | In any accepted tree a duplicate is found exactly when some set node, at any depth, has two members, as iterating yields them, that differ only in set order |
| `CanonicalIdentity.DuplicatesIgnoreSetOrder` | scripts/difference_contract_validator.py:101-113 | In any accepted trees, reordering set members at any depth neither hides nor makes a duplicate |
| `EvaluationChains.ContiguousChains` | scripts/difference_contract_validator.py:526-542 | A subject has a chain exactly when its evaluations sorted by revision count from zero and each names the one before, and the chain is that list |
| `EvaluationChains.LatestContiguousEvaluations` | scripts/difference_contract_validator.py:488-504 | A subject has a latest evaluation exactly when it has a chain, and it is the chain's last |
| `EvaluationChains.ChainIsTheArrangement` | scripts/difference_contract_validator.py:526-542 | A subject has a chain exactly when its evaluations can be arranged contiguously at all, and the chain is that one arrangement |
| `EvaluationChains.ChainIsRead` | scripts/difference_contract_validator.py:526-542 | A list is the subject's chain exactly when it holds the subject's records, each as often as recorded, its revisions count from zero, the first names no predecessor, and every other names the one before it |
| `EvaluationChains.ChainsIgnoreRecordOrder` | scripts/difference_contract_validator.py:488-542 | Reordering the records changes neither which subjects have a chain nor any chain |
| `Supersession.SupersessionCycles` | scripts/difference_contract_validator.py:2440-2452 | The walk ends and reports a start exactly when following edges from it never leaves the edge map |
| `Supersession.WalkRevisits` | scripts/difference_contract_validator.py:2444-2452 | One walk with its visited set answers whether the edges from its start are never left |
| `Supersession.NeverLeavesExactlyOnCycles` | scripts/difference_contract_validator.py:2440-2452 | The edges from a start are never left exactly when within as many steps as there are edges they return to an id already passed |
| `ReviewVerdict.ClassifyReviewResult` | scripts/bounded_technical_review.py:358-439 | Verified exactly when the launch ended in time with exit code zero and whole output, reports completion of exactly the permitted paths over the expected digest, and its findings are clean; failed exactly when the launch itself or the review failed, or all of that holds and some well-formed finding fails; unavailable exactly when it says so; insufficient otherwise |
| `ReviewVerdict.ClassifyNativeReviewResult` | scripts/bounded_technical_review.py:1307-1341 | Verified exactly on an approving review with clean findings, failed exactly on requested changes or on an approving one with a failing or blocking finding among readable ones, unavailable exactly when pending or dismissed, insufficient otherwise |
| `ReviewVerdict.ClassifyFindings` | scripts/bounded_technical_review.py:395-439 | The loop with its monotonic dictionary and two flags computes the verdict of the set of findings, early returns included; verified exactly on clean findings, and never with a failing or blocking one among them |
| `ReviewVerdict.ClassifyNativeFindings` | scripts/bounded_technical_review.py:1315-1341 | The native loop computes the native verdict of the set of findings; verified exactly on clean findings, and never with a failing or blocking one among them |
| `ReviewVerdict.VerifiedExactly` | scripts/bounded_technical_review.py:427-439 | Verified exactly under full coverage with no failure, no blocking severity and no malformed finding, for each classifier |
| `ReviewVerdict.FailedExactly` | scripts/bounded_technical_review.py:395-439 | Failed exactly when all findings can be relied on, every check is named and some finding fails; natively exactly when all can be read and some fails or blocks |
| `ReviewVerdict.FailureIsFinal` | scripts/bounded_technical_review.py:413-439 | Once a finding fails or blocks, no further findings make either verdict verified |
| `ReviewVerdict.OnlyTheSetMatters` | scripts/bounded_technical_review.py:395-439 | Reordering or repeating findings changes neither verdict |
| `ReviewVerdict.ClassifiersCompared` | scripts/bounded_technical_review.py:1315-1341 | Locally verified or failed is natively so; on well-formed findings the two differ exactly when a check is unreported while something fails |
| `ReflowConvergence.ReflowConverges` | scripts/merge_source_reflow.py:153-305 | Over the checkout a reflow leaves, the next run with the same commit and time, whatever generated files have become tracked, computes the same outputs, finds none stale and writes nothing |
| `ReflowConvergence.ValidatesExactly` | scripts/merge_source_reflow.py:317-337 | After a reflow the candidate validates exactly when the reflow wrote something or the receipt on disk was already the expected one |
| `ReflowRefusals.RefusesOnEchoesExactly` | scripts/merge_source_reflow.py:153-244 | The outputs are computed exactly when the commit id is one, both documents hold one well-ordered marker pair, no echoed value and no observation time holds a marker of its block, and no source document is named like the manifest |
| `ReflowRefusals.RefusalsAreExact` | scripts/merge_source_reflow.py:153-244 | A commit id that is not 40 or 64 hexadecimal digits is refused first and a source document named like the manifest last; in between a document whose markers are no pair is refused for what its markers lack, and no human text is ever found changed |
| `ReflowRefusals.BlockHoldsOnceExactly` | scripts/merge_source_reflow.py:102-125 | A generated block holds each marker once exactly when none of the values put into it holds one |
| `ReflowRefusals.LostReceiptIsNotRepaired` | scripts/merge_source_reflow.py:289-299 | Delete the receipt from the checkout a reflow left: the next run finds nothing stale and writes nothing, and the receipt does not match |
| `ReflowRefusals.AReceiptStaysLost` | scripts/merge_source_reflow.py:289-299 | One such checkout in full, of empty sources and documents holding nothing but their markers |
| `ReflowConvergence.HumanTextIsKept` | scripts/merge_source_reflow.py:190-218 | A reflow touches no path off the allow-list, and the text outside the markers of both documents stays as it was |
| `ReflowConvergence.RecomputingGivesTheSame` | scripts/merge_source_reflow.py:153-244 | Recomputing from the written documents and a tracked list extended by allow-listed paths gives identical outputs |
| `ReflowConvergence.AllowlistedIsNoSource` | scripts/merge_source_reflow.py:71-82 | Nothing a reflow may write is one of the documents it reads |
| `SourceReflow.Checkout.ApplyReflow` | scripts/merge_source_reflow.py:254-305 | Every output is computed before anything is written; then exactly the stale files are written, and the receipt exactly when some were; a refusal changes nothing |
| `SourceReflow.Checkout.ValidateReflowCandidate` | scripts/merge_source_reflow.py:317-337 | The candidate validates exactly when no output is stale and the receipt names this commit, time and manifest |
| `SourceReflow.ComputeOutputs` | scripts/merge_source_reflow.py:153-244 | The writable files are computed from the inputs alone, in the stated order of refusals; what each holds is stated by the lemmas of ReflowContents |
| `ReflowContents.ManifestHoldsContents` | scripts/merge_source_reflow.py:125-135 | The manifest of a successful run is, in strictly increasing path order, exactly one line for every other output and every source document, the digest of what that file holds and its path |
| `ReflowContents.SameManifestSameFiles` | scripts/merge_source_reflow.py:125-135 | Two runs with one manifest list the same files, and every listed file has the same content |
| `ReflowContents.TreeHoldsPaths` | scripts/merge_source_reflow.py:153-244 | The tree text is exactly the tracked and the allow-listed paths, each once, in strictly increasing order, one a line |
| `ReflowContents.EncodedFilesAre` | scripts/merge_source_reflow.py:153-244 | The facts file encodes the run and the fields of the state document, the evidence index the fields of the ledger |
| `ReflowContents.DocumentsHoldTheirBlocks` | scripts/merge_source_reflow.py:190-218 | Both documents hold the new block exactly where the old one stood, and everything before and after it unchanged |
| `ReflowContents.ReceiptHoldsTheRun` | scripts/merge_source_reflow.py:285-305 | The receipt of a reflow that writes names the commit, the time, exactly the outputs that were missing or different, exactly the others, and the manifest's digest |
| `ReflowContents.ReportNamesTheRun` | scripts/merge_source_reflow.py:289-313 | A run reports exactly the missing or different outputs as written and the others as unchanged, and the receipt as written exactly when some output was |
| `ReflowHandoff.HandoffRoundTrip` | scripts/merge_source_reflow.py:102-125 | Parsing the block put into the hand-off document gives back the run's commit and time, each echoed field exactly as the state document has it or not at all, and that no transfer is declared |
| `ReflowHandoff.HandoffBlockParses` | scripts/merge_source_reflow.py:102-125 | The printed hand-off block of any field table parses to exactly the run's two fields, the echoed ones and the block's own two |
| `BoundedBlock.RegenerationKeepsHumanText` | scripts/bounded_generated_block.py:18-60 | The human text of a regenerated document can be read exactly when the new block holds each marker once; it is then unchanged, and regenerating again gives what regenerating the original would |
| `BoundedBlock.AcceptedTextSplits` | scripts/bounded_generated_block.py:18-37 | An accepted text is human text, one framed block and human text, and neither human part holds a marker |
| `StatusFields.EchoRoundTrip` | scripts/generate_readme_status_block.py:38-72 | For every document, parsing the rendered block of its extracted fields recovers every echoed field unchanged and invents none |
| `StatusFields.PrintedBlockParses` | scripts/generate_readme_status_block.py:48-72 | The printed block of any field table parses to exactly its echoed fields and the block's own two |
| `StatusFields.ExtractedIsFieldTable` | scripts/validate_source_freshness.py:78-102 | Whatever the document, extracted keys are upper-case names and values are one line without trailing space |
| `StatusFields.ExtractFields` | scripts/validate_source_freshness.py:78-102 | The line loop with its flag and dictionary reads the fields of fenced text blocks, the last occurrence winning |
| `StatusReading.ExtractedExactly` | scripts/validate_source_freshness.py:78-102 | A document records a value for a key exactly when the last line inside a text block that says anything of that key says that value, a block being opened by one fence and closed by the other |
| `StatusReading.SplitsExactly` | scripts/validate_source_freshness.py:78-102 | A text is split at exactly its line breaks, a carriage return and line feed being one break, with no line after a last break |
| `StatusReading.StripsExactly` | scripts/validate_source_freshness.py:78-102 | A stripped line is the line without the space around it and nothing less |
| `StatusFields.RenderReadmeBlock` | scripts/generate_readme_status_block.py:48-72 | The rendered block is the preamble, one line for each recorded echoed field in order, and the closing lines |
| `Texts.SplitOfJoin` | scripts/generate_readme_status_block.py:72-72 | Joining one-line texts by newlines and splitting again gives them back when the last is not empty |

## Left out

- The store's file layout, locks, crash recovery and fault injection, the rewriting of `current.json` on an identical replay, and `commit_state_transition`.
- Schema validation, hashing, Ed25519 and canonical JSON bytes beyond the assumptions above; error message texts; clocks, command lines and file access beyond the path-to-content map.
- Statement and rationale texts of clauses play no role in classification and are carried only; comments and free-text scans for undeclared policy changes (`src/manosube_agent_civilization/acceptance_policy/engine.py:150-193`) are not modelled.
- PolicyRuns.EveryReachableAdoptionIsAuthorised: which error a stored adoption raises when it fails re-verification is collapsed to one provenance error.
- PolicyProcesses.RunInterleaved: the read-only preview and effective-policy calls are not run as processes; they read one store and are covered by the view theorems.
- Authority.Evaluate: unknown and missing keys of a request, an action or a scope, and wrongly typed values, are one well-shapedness verdict; all refusals other than a boundary violation or a stale input are one error.
- AuthorityGuarantees.WindowIsExact: an approval carries the instants its two stored texts name; the evaluator makes no other use of those texts.
- SchemaClosure.ReachableSchemas: `urljoin` is a parameter, and the order of the returned dictionary is not stated.
- CanonicalIdentity.DuplicateMeansEquivalentMembers: on a tree with members that cannot be iterated the original may answer before it meets them, depending on dictionary order; such trees are not covered.
- ReviewVerdict.ClassifyReviewResult: severities and inspected paths that are not hashable raise in the original and are not modelled; parsing of the review output is not part of this model.
- ReflowConvergence.ReflowConverges: texts are taken as already read with universal newlines and UTF-8, so a first run over a document with other line endings writes more than stated stale here.
- ReflowHandoff.HandoffRoundTrip: for an observation time of one line without trailing space; the code prints whatever text it is given.
- ReflowContents.SameManifestSameFiles: for digests that hold neither a space nor a line break and that no two texts share, as hexadecimal ones, and for source paths of one line, since a manifest line holds a path as it is.
- `topology.py` builds a static inventory of the installed package's module graph from its syntax trees.
- `model_execution_authorization.py` decides whether Human Authority granted one exact capability, by a sequence of refusals like the authority evaluator's.
- `source_impact_gate.py` classifies the paths a pull request changes; `validate_schemas.py` checks the schema registry and fixtures; `observation_contract_validator.py` compares fields across observation records.
- The rest of `difference_contract_validator.py` compares the fields of a bundle's records pair by pair; the rest of `bounded_technical_review.py` dispatches, cancels and records review launches.
- The observation, signing and benchmark scripts and `agent_runtime` run processes and handle keys, files and the network.
