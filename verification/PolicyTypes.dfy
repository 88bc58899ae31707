/** Records of the acceptance-policy lineage.

    A record's id is a hash of its identity projection; here an id is the
    projection itself, so two ids are equal exactly when the projections are.
    A baseline's id covers only its work unit, every other id the whole body.
    A signature is likewise the signer together with the payload it covers. */
module PolicyTypes {
  import opened Results

  datatype Gate = Implementation | StructuralReview | Merge | IssueClosure | PhaseCompletion

  datatype PolicyClass = AuthorityClass | RequiredEvidence

  datatype Operation = Add | Remove | Replace | Narrow | Broaden | Reclassify

  /** `blocks` is the set of the five gates whose flag is true. */
  datatype Clause = Clause(
    id: string, policyClass: PolicyClass, statement: string, blocks: set<Gate>,
    scope: string, rationale: string, original: bool)

  datatype SourceKind = OriginalIssue | StructuralReviewSource | AuthorityAdoptionSource | OtherSource

  datatype SourceReference = SourceReference(url: string, byOwner: bool, kind: SourceKind)

  datatype RecordId =
    | BaselineId(project: string, issue: int)
    | TransitionId(transition: Transition)
    | AdoptionId(adoption: Adoption)
    | ForeignId(name: string)

  datatype Kind = BaselineKind | TransitionKind | AdoptionKind

  datatype Ref = Ref(kind: Kind, id: RecordId)

  datatype BindingSource = FromBaseline | FromTransition

  datatype Binding = Binding(source: BindingSource, ref: Ref)

  datatype Baseline = Baseline(project: string, issue: int, source: SourceReference, clauses: seq<Clause>)

  datatype Transition = Transition(
    project: string, issue: int, baseline: Ref, clauseId: string, operation: Operation,
    proposedBy: string, prior: Binding, proposed: Option<Clause>, existed: bool,
    source: SourceReference, rollback: string)

  /** The fields of a Governance Adoption Record other than its signature;
      `admitted` is the verdict of that record's own owner. */
  datatype GovernanceCore = GovernanceCore(adoptionName: string, admitted: bool, url: string, issue: int)

  datatype SigningPayload = SigningPayload(
    project: string, issue: int, target: Ref, owner: string, source: SourceReference,
    core: GovernanceCore, projectBinding: string, decidedAt: string)

  datatype Signature = Signature(keyName: string, signer: string, covers: SigningPayload)

  datatype GovernanceRecord = GovernanceRecord(core: GovernanceCore, signature: Option<Signature>)

  datatype Adoption = Adoption(
    project: string, issue: int, target: Ref, owner: string, source: SourceReference,
    governance: GovernanceRecord, projectBinding: string, decidedAt: string)

  datatype Record =
    | BaselineRecord(baseline: Baseline)
    | TransitionRecord(transition: Transition)
    | AdoptionRecord(adoption: Adoption)
    | ForeignRecord(content: string)

  datatype PolicyError =
    | InvalidInput | UndeclaredChange | Unauthorized
    | LineageConflict | Provenance | ConflictingReplay

  /** The Human-Authority signing key of the project's genesis binding. */
  datatype TrustRoot = TrustRoot(projectBinding: string, keyName: string, publicKey: string)

  const HUMAN_AUTHORITY := "SHUKOU"

  function BaselineRef(b: Baseline): Ref { Ref(BaselineKind, BaselineId(b.project, b.issue)) }

  function TransitionRef(id: RecordId): Ref { Ref(TransitionKind, id) }

  function AdoptionRef(a: Adoption): Ref { Ref(AdoptionKind, AdoptionId(a)) }

  type Transitions = m: map<RecordId, Transition> | forall id :: id in m ==> id == TransitionId(m[id])
    witness map[]
}
