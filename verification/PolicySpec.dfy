/** The policy tree (policy/spec.go, policy/vocabulary.go). */
module PolicySpec {

  /** How the values of a requirement combine. Any integer can arrive; three are valid. */
  type Match = int

  const MATCH_DEFAULT: Match := 0
  const MATCH_ANY: Match := 1
  const MATCH_ALL: Match := 2

  predicate ValidMatch(m: Match) {
    MATCH_DEFAULT <= m <= MATCH_ALL
  }

  function MatchString(m: Match): string {
    if m == MATCH_ANY then "any" else if m == MATCH_ALL then "all" else "default"
  }

  datatype Requirement = Requirement(
    kind: string, vocabulary: string, mode: Match, values: seq<string>, params: map<string, string>)

  /** anyOf is a list of alternatives, each a list of requirements that must all hold. */
  datatype Policy = Policy(
    preset: string, presetArgs: map<string, string>, anonymous: bool,
    require: seq<Requirement>, anyOf: seq<seq<Requirement>>, forbid: seq<Requirement>)
  {
    /** Has a requirement that must be met, as opposed to one that must not. */
    predicate Positive() { |require| > 0 || |anyOf| > 0 }
  }

  const EMPTY_POLICY := Policy("", map[], false, [], [], [])

  /** All requirements of a policy (authz/decider.go, requirementsOf). */
  ghost predicate Mentions(p: Policy, r: Requirement) {
    r in p.require || r in p.forbid || exists g :: g in p.anyOf && r in g
  }

  /** Registered values by domain; an unregistered domain is unrestricted. */
  type Vocabulary = map<string, set<string>>

  predicate ValuesKnown(vocab: Vocabulary, domain: string, values: seq<string>) {
    domain in vocab ==> forall v :: v in values ==> v in vocab[domain]
  }

  // ---- operations ----

  datatype Exposure = ExposureUnspecified | ExposureInternal | ExposurePublic | ExposureDeprecated | ExposureHidden

  function ExposureString(e: Exposure): string {
    match e
    case ExposureInternal => "internal"
    case ExposurePublic => "public"
    case ExposureDeprecated => "deprecated"
    case ExposureHidden => "hidden"
    case ExposureUnspecified => "unspecified"
  }

  type StreamAuthMode = int

  const STREAM_AUTH_OPEN: StreamAuthMode := 1
  const STREAM_AUTH_PER_MESSAGE: StreamAuthMode := 2

  datatype OperationKind = GrpcMethod | HttpRoute

  datatype Operation = Operation(
    id: string, kind: OperationKind, service: string, api: string, policy: Policy, exposure: Exposure,
    docLabel: string, operationId: string, streaming: bool, streamAuth: StreamAuthMode, requestFields: seq<string>,
    metadata: map<string, string>)

  // ---- labels ----

  /** Documentation label of a policy. */
  function Label(p: Policy): string {
    if p.preset != "" then p.preset
    else if p.anonymous then "public"
    else if |p.require| == 1 && p.anyOf == [] && p.forbid == []
         && p.require[0].kind in {"authenticated", "role", "permission", "scope"} then p.require[0].kind
    else if p.require == [] && |p.anyOf| == 1 && p.forbid == [] && |p.anyOf[0]| == 1
         && p.anyOf[0][0].kind in {"role", "scope", "permission"} then p.anyOf[0][0].kind
    else "custom"
  }

  function EffectiveLabel(op: Operation): string {
    if op.docLabel != "" then op.docLabel else Label(op.policy)
  }
}
