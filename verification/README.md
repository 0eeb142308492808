# A verified model of grpcapi's core

grpcapi compiles access policies declared in proto files, decides requests by them, and assembles a
gRPC and HTTP server around the result. This project models six parts of it that carry hard
invariants and proves what they promise, in Dafny 4.11. `dafny verify dfyconfig.toml` checks
everything.

| part | modules |
|---|---|
| OpenAPI projection | Descriptors and Surface (shared with the routes), OpenApiModel, OpenApiBuilder, OpenApiDocument, OpenApiTheorems, OpenApiMeaning, OpenApiEntries |
| fixed-window rate limiter | RateLimit, RateLimitSkew |
| JWKS cache | Jwks, JwksMonotone |
| policy compiler and decider | Principal, PolicySpec, Registry, KindMeaning, Decider, DeciderMeaning, RequirementKeys, Canonical, CanonicalUniqueness, CanonicalMeaning, PolicySet, Manifest, ManifestMeaning, PolicyValidation, Presets, PolicyBuild, BuildTheorems, BuildMeaning |
| wire and path codecs | EventStream, Sse, SseMeaning, SseConcurrency, Upload, Paths, Routes, RouteMeaning, RouteTable, GroupMeaning, RouteClash, Mux, MuxFragment, Dispatch, RouteWitnesses |
| client address and scope language | TrustedProxy, Scope, ScopeMeaning, ScopeKindMeaning |

Wrappers, Text and Sorting hold what the parts share: results, the string functions of Go's library,
and `sort.Slice`, of which only a permutation in key order is known.

## How it is modelled

- The OpenAPI builder, the limiter, the JWKS cache, the SSE writer, the kind registry and the upload
  stream are classes with mutable state. The methods are proved against specification functions or
  predicates; the theorems are lemmas about those.
- What the specification functions compute is pinned a second time without them, in the modules named
  Meaning and Entries: the JSON a document accepts, where each part of a built operation comes from, what
  decisions follow from the answers of evaluators, what reaches an SSE client line by line.
- The schema walk keeps a white, grey and black account of the table: a placeholder is grey, a finished
  entry black. Its termination measure is the set of messages without an entry.
- The JWKS cache is also a transition system: any number of threads with program counters, two locks, a
  clock that never runs backwards, and a fetch that fails or returns a non-empty key set. A lemma ties it
  to the sequential method.
- SSE writers interleave as goroutines that take the writer's lock and write their frame in pieces. The
  reader is the parser of the WHATWG HTML Standard, sections 9.2.5 and 9.2.6.
- Errors are `Option` or `Result` values. Only success or failure is kept, and the status code where
  decisions depend on it.
- The server's mux is a parameter: which requests a pattern matches is arbitrary, while precedence by
  specificity, conflicts at registration and the redirect to a subtree are those net/http documents.
- Evaluators, presets, policy providers, the trust set of the proxy layer and all clock readings are
  arbitrary parameters.

## What turned out not to hold

Each failure is proved on a concrete input or from the guard that fails, together with the exact condition
under which the property holds.

- 64-bit integers are documented as JSON integers, and the descriptions say protojson emits numbers; the
  ProtoJSON format, in its table of representations of each type, writes them as strings. A component accepts
  exactly the ProtoJSON of its message if and only if no 64-bit integer can occur in it
  (`DescribesProtoJsonExactly`).
- Requirement keys collide when a value contains "=" (`KeysCollide`); then the unstable sort leaves two
  manifests of one policy (`CollisionBreaksUniqueness`). The form is unique if and only if nothing collides
  (`OneFormExactly`), and so is the manifest (`ManifestIsUnique`).
- A policy that still carries a preset is denied with Internal although policy/spec.go:72-73 calls the
  preset diagnostic only; its canonical form drops the preset and may allow (`PresetIsNotPreserved`, exactly
  when: `CanonicalDecidesAlike`). No set holds such a policy: building and every constructor validate
  (`BuildMakesValidSet`, `NewSetWithVocabulary`, `WithOperations`). The input is reachable only through a
  hand-made operation passed to Decide, so manifests are not affected (`ManifestDecidesAlike`).
- `andPolicy` is not associative in its anonymous flag; the gap needs an invalid layer (`AndAssociative`,
  `AndAssociativeOnValid`).
- A route of the unprefixed group may be declared exactly where a prefixed route is deployed; the checks
  of server/server.go:661-690 leave that group out (`ClashIsPossible`). Two extra routes without a method
  pass the conflict check at one path (`MethodlessPairIsPossible`); registering them is what fails
  (`RegisteredAreApart`). A methodless extra route and a methodless proto route at one path pass the check too
  (`MethodlessMeetIsPossible`), and the mux never sees the latter.
  `FinalTableHasNoDuplicates` states exactly when the table is free of duplicates.
- An extra route is compared with proto routes by the text of method and path only. One whose pattern covers
  a deployed binding passes the check and takes its requests (`ExtraTakesRequest`); `RequestReachesService`
  states exactly when a request reaches its group.
- A reader that reports `ErrUnexpectedEOF` has its truncated body finalised (`TruncatedBodyIsFinalized`,
  exactly when: `UploadConserves`).
- An event with a terminator in its id or name, a NUL in its id, or a CR in its data that no LF follows
  cannot reach a client as written (`ReadsBackExactlyIfWritable`).
- The limiter reads its clock before taking the lock. If readings are not in lock order a sweep can change
  an answer, exactly when a sweep falls between a call it is a window ahead of and a later call it is not
  (`SweepIsObservableExactly`). The other theorems about runs assume readings in lock order.
- An op-less instance grant does not cover the directions when the target itself ends in an op
  (`OpLessGrantsCoverOps`), and the two spellings of a scope differ when the resource is empty or has a colon
  (`SpellingsInterchange`).

## Model

| member | source | states |
|---|---|---|
| OpenApiBuilder.Builder.MessageSchema | openapi/openapi.go:314-348 | Terminates on every finite, possibly cyclic descriptor graph. Returns a reference to the message; old table entries stay; each added entry is the finished schema of its own descriptor (what that schema says: ComponentMeaning), is reachable from the message, and has all its successors in the table. |
| OpenApiBuilder.Builder.FieldSchema | openapi/openapi.go:354-365 | The schema of a map, list or singular field (which schema that is: ComponentProperties), with the same promise about the table for the messages the field refers to. |
| OpenApiBuilder.Builder.SingularSchema | openapi/openapi.go:367-395 | The schema of a scalar, enum or message kind, with the same promise about the table. |
| OpenApiBuilder.Builder.FieldPathSchema | openapi/openapi.go:542-564 | The schema of the field a dotted path denotes, nil exactly when some step is missing or is not a message; only what that field reaches is added. |
| OpenApiBuilder.FieldNamed | openapi/openapi.go:568-576 | The first field of that proto name; nothing exactly when no field has it. |
| OpenApiBuilder.CopyInOrder | openapi/openapi.go:333-337 | Rebuilding the property map name by name in sorted order loses and adds nothing. |
| OpenApiBuilder.GreyToBlack | openapi/openapi.go:324-347 | Overwriting the placeholder after the fields were visited completes the walk of that message: everything added is finished and reachable from it. |
| OpenApiBuilder.WalkAddsExactlyReachable | openapi/openapi.go:314-348 | Started on a table of finished entries, a walk leaves one, and the new keys are exactly what the roots reach through singular, list and map-value fields, stopping at well-known types. |
| OpenApiDocument.QueryParams | openapi/openapi.go:488-521 | One parameter for each top-level field a path variable does not carry, sorted by name, each with its own schema, none twice. |
| OpenApiDocument.PathParams | openapi/openapi.go:463-478 | One required parameter per template variable, in order, with the schema its path denotes or string. |
| OpenApiDocument.ResponseSchema | openapi/openapi.go:307-312 | The output message, or the field the response body selector denotes; the walk adds what that reaches. |
| OpenApiDocument.RequestBody | openapi/openapi.go:230-240 | The input message for "*", the denoted field for another selector, none without one. |
| OpenApiDocument.BuildProtoOperation | openapi/openapi.go:209-248 | Parameters, body and response of one binding are those of its template, selectors and verb. |
| OpenApiDocument.CollectFinalPaths | openapi/openapi.go:139-144 | The deployed path of each proto route by method and declared path; later routes win. |
| OpenApiDocument.LastWrite | openapi/openapi.go:153-162 | The last assignment at a path and method, nothing exactly when there is none. |
| OpenApiDocument.OpWritesMembers | openapi/openapi.go:147-156 | The assignments of the proto loop are exactly the served bindings of the operations. |
| OpenApiDocument.AddOperation | openapi/openapi.go:147-156 | After an operation each path and method holds the document of its last assignment, and the table grew by exactly the requested roots. |
| OpenApiDocument.AddExtras | openapi/openapi.go:157-163 | After the extra routes too: a later extra route replaces an earlier entry. |
| OpenApiDocument.Build | openapi/openapi.go:132-174 | Fails exactly without a surface or a title. Otherwise the paths written are exactly those of served bindings and extra routes, each holds what the last of them processed left there, and the component table is exactly what all requested roots reach. |
| OpenApiTheorems.BuiltDocumentHasNoDanglingRefs | openapi/openapi.go:132-174 | Every $ref at any depth in parameters, bodies, responses and components names a component of the document. |
| OpenApiTheorems.ProtoDocRefs | openapi/openapi.go:209-248 | The references of one operation stay inside any table that holds its roots. |
| OpenApiTheorems.ReachSetClosed | openapi/openapi.go:327-332 | What a message in the table refers to is in the table. |
| OpenApiTheorems.TableIgnoresOrder | openapi/openapi.go:139-156 | The component table is the same for every order of operations and routes, when no two proto routes share method and declared path. |
| OpenApiMeaning.PropertiesAreFields | openapi/openapi.go:327-337 | The properties of a message are the JSON names of its fields, each with the schema of the last field of that name. |
| OpenApiMeaning.ComponentProperties | openapi/openapi.go:327-395 | In a built document a component that is not well-known has exactly the JSON names of its fields as properties. Each is an array with items of the element kind, an object with values of the value kind, or one value: a reference to a message, or a scalar type with its format and enum values. Its description names the oneofs, if there are any. |
| OpenApiMeaning.WellKnownComponent | openapi/openapi.go:405-450 | A well-known component has the type of the JSON form protojson gives it; wrappers have the type of what they wrap and may be null. |
| OpenApiMeaning.ComponentMeaning | openapi/openapi.go:314-395 | A component of a built document accepts, as OpenAPI 3.0.3 reads its keywords and references, exactly the JSON of its message at any depth, with 64-bit integers as numbers. |
| OpenApiMeaning.Int64IsRefused | openapi/openapi.go:371-381 | A message with one int64 field, whose ProtoJSON its own component refuses. |
| OpenApiMeaning.DescribesProtoJsonExactly | openapi/openapi.go:371-381 | It accepts exactly the ProtoJSON of its message, where 64-bit integers are strings, if and only if no 64-bit integer can occur in it. |
| OpenApiEntries.FieldAtExactly | openapi/openapi.go:542-576 | The walk along a dotted path ends at a field if and only if each step is the first field of its name in the message of the step before. |
| OpenApiEntries.BodyMeaning | openapi/openapi.go:227-240 | The body of a surviving entry accepts exactly the JSON of the input message for "*", exactly the values of the denoted field for another selector, and is absent without one. |
| OpenApiEntries.ResponseMeaning | openapi/openapi.go:307-312 | Its response accepts exactly the JSON of the output message, or exactly the values of the field its selector denotes. |
| OpenApiEntries.ParameterMeaning | openapi/openapi.go:463-540 | Its parameters are the required variables of the template, in order, each accepting exactly the values of the field it denotes or text, and then optional query parameters, each typed as its field. |
| OpenApiEntries.InputIsCarried | openapi/openapi.go:227-246 | A GET or DELETE without a body carries every field of its input either in the path or in the query, and never in both. |
| OpenApiEntries.OnlyPathParameters | openapi/openapi.go:229-246 | Any other entry has path parameters only. |
| OpenApiEntries.EntryNamesOperation | openapi/openapi.go:269-274 | An entry shows the declared operation id, or the full method without its slash. |
| OpenApiEntries.BindingHasEntry | openapi/openapi.go:139-156 | Every deployed binding has an entry at the path of its route, under its method in lower case. |
| OpenApiEntries.EntryHasRoute | openapi/openapi.go:139-163 | Every entry is at the path of a deployed route. |
| OpenApiEntries.ExtraEntry | openapi/openapi.go:250-267 | The entry of an extra route shows its id and speaks of no messages. |
| OpenApiEntries.TemplateVariables | openapi/openapi.go:452-461 | The variables of a path are those of the template it prints, in order. |
| RateLimit.Limiter.constructor | ratelimit/ratelimit.go:72-76 | No windows, last sweep at creation. |
| RateLimit.Limiter.New | ratelimit/ratelimit.go:67-77 | Refuses exactly a non-positive limit; a non-positive window means one minute. |
| RateLimit.Limiter.Allow | ratelimit/ratelimit.go:80-98 | New state and answer are those of one step of the specified limiter. |
| RateLimit.Limiter.SweepLocked | ratelimit/ratelimit.go:102-112 | Removes exactly the expired windows, at most once per window length. |
| RateLimit.SweepIsUnobservable | ratelimit/ratelimit.go:87-112 | On every run with a non-decreasing clock each answer equals that of a limiter that never sweeps. |
| RateLimit.AnswersArePerKey | ratelimit/ratelimit.go:88-97 | The answer to a call depends only on the earlier calls with the same key. |
| RateLimit.MemoryBound | ratelimit/ratelimit.go:100-112 | Every stored window was opened by a call on its key less than two windows before the latest call. |
| RateLimit.BurstInvariantHolds | ratelimit/ratelimit.go:88-97 | How many admissions an interval of n windows can hold before and in its current window. |
| RateLimit.BurstBound | ratelimit/ratelimit.go:88-97 | No half-open interval of n window lengths holds more than (n + 1) * limit - 1 admissions of a key, for every n. |
| RateLimit.RunBurstBound | ratelimit/ratelimit.go:80-98 | The same for each key of every run of the whole limiter. |
| RateLimit.BurstBoundIsAttained | ratelimit/ratelimit.go:88-97 | For every n > 0, every limit and every window longer than one tick, some calls reach it. |
| RateLimit.DenialIsJustified | ratelimit/ratelimit.go:93-95 | A denial happens only with exactly limit admissions in the live window, and its delay is what is left of that window, so it lies in (0, window]. |
| RateLimit.RetryAdviceIsSound | ratelimit/ratelimit.go:145-168 | A call on the key after the advertised whole seconds is admitted unless another call on that key was admitted in between. |
| RateLimit.RetryAfterSeconds | gateway/errors.go:258-269 | Nothing exactly when no detail carries a positive delay; otherwise the ceiling of the first such delay in (float64) seconds, at least one. |
| RateLimit.NearSecondsRoundUp | gateway/errors.go:261-264 | Seconds off by less than a nanosecond, and exact when whole, round up to the exact ceiling. |
| RateLimit.FloatSecondsAreNear | gateway/errors.go:261 | Rounding each of the two steps to a 53-bit significand, in the range they stay in, is that close for every delay below 2^23 - 4 seconds. |
| RateLimitSkew.LastSweepOfRun | ratelimit/ratelimit.go:102-106 | Which calls sweep depends on the clock readings alone. |
| RateLimitSkew.HarmlessIsUnobservable | ratelimit/ratelimit.go:84-112 | For readings in any order: unless a sweep falls between a call it is a window ahead of and a later call it is not, every answer equals that of a limiter that never sweeps. |
| RateLimitSkew.SweepIsObservableExactly | ratelimit/ratelimit.go:84-112 | Readings let a sweep change some answer, for some limit and keys, if and only if such three calls exist. |
| RateLimitSkew.OrderedClockIsHarmless | ratelimit/ratelimit.go:84-87 | Readings in lock order never do. |
| Jwks.FreshCheckIsGood | authn/jwt/jwks.go:93-100 | What a fresh read returns is the last stored key set, non-empty and stored less than a refresh interval before the check. |
| Jwks.Cache.KeysCached | authn/jwt/jwks.go:67-91 | Cache and answer after an uninterrupted call: fresh keys, fetched keys, stale keys on a failed fetch, or an error. |
| Jwks.SoloCallMatchesMethod | authn/jwt/jwks.go:67-91 | The protocol run by one thread without interruption does exactly what the method does. |
| Jwks.NextKeepsInv | authn/jwt/jwks.go:67-109 | Every action of every thread keeps the lock, history and answer invariant. |
| Jwks.RunKeepsInv | authn/jwt/jwks.go:67-109 | The invariant holds in every reachable state of every interleaving of any number of threads. |
| Jwks.AtMostOneFetch | authn/jwt/jwks.go:71-77 | Never two fetches in flight. |
| Jwks.StoresAreSpaced | authn/jwt/jwks.go:74-89 | Stores i and j are at least (j - i) refresh intervals apart. |
| Jwks.NoErrorAfterFirstStore | authn/jwt/jwks.go:78-85 | After the first successful store no call turns into an error. |
| Jwks.AnswersComeFromFetches | authn/jwt/jwks.go:67-109 | Every returned key set is non-empty and the result of a completed fetch; one returned as fresh was younger than the refresh interval when checked. |
| Jwks.ThreadActionsProgress | authn/jwt/jwks.go:67-91 | Every thread step brings its call closer to its end. |
| Jwks.SomeThreadCanMove | authn/jwt/jwks.go:67-91 | While a call is unfinished some thread can move: no deadlock. |
| Jwks.CallsCanFinish | authn/jwt/jwks.go:67-91 | From every state satisfying the invariant, thread steps alone can finish every call. |
| JwksMonotone.ReadsAreMonotone | authn/jwt/jwks.go:67-109 | The keys answered to a call that begins when n stores have been made, fresh, fetched or stale, are those of store n - 1 or of a later one. |
| JwksMonotone.LaterCallsReadLaterStores | authn/jwt/jwks.go:67-109 | A call that begins after another has answered never answers an older store. |
| Principal.MatchClaim | principal/principal.go:108-130 | Without values: the claim is non-empty. Otherwise every value, or some value, is in the claim. A nil principal matches nothing. |
| Principal.HasKind | principal/principal.go:141-151 | The principal exists and its kind is listed. |
| Principal.ClaimMatchesReadsSet | principal/principal.go:108-130 | Order and repetition of values do not matter. |
| Registry.Registry.Register | policy/registry.go:40-49 | Refuses exactly an empty or taken name; otherwise adds the kind and nothing else. |
| Registry.Registry.NewRegistry | policy/registry.go:29-37 | Succeeds exactly on distinct non-empty names and holds exactly the given kinds. |
| Registry.ClaimKindReadsSet | policy/registry.go:181-210 | A fixed-claim kind reads its values as a set. |
| Registry.KindClaimReadsSet | policy/registry.go:117-150 | The claim kind reads its values as a set. |
| Registry.DefaultKindsReadSets | policy/registry.go:83-96 | So does every kind of the default registry. |
| KindMeaning.CallerKindsMean | policy/registry.go:99-113 | The authenticated kind asks for any caller, principal_kind for one whose kind is listed. |
| KindMeaning.ClaimKindsMean | policy/registry.go:181-217 | Role and scope ask for some of the listed values in the claims roles and scopes unless all are asked for; permission asks for all of them in permissions unless some are asked for. |
| KindMeaning.ClaimKindMeans | policy/registry.go:137-149 | The claim kind asks the same of the claim its parameter names, for any value of it without values, and fails without a name. |
| KindMeaning.ValidClaimKinds | policy/build.go:437-460 | A role, permission or scope requirement is valid if and only if its match is known, it has values and no parameters, and a registered domain, named or that of the kind, lists the values. |
| KindMeaning.ValidCallerKinds | policy/build.go:437-460 | The same for authenticated, which takes neither, and for principal_kind, which asks for all of one value at most. |
| KindMeaning.ClaimKindValidates | policy/registry.go:121-136 | The claim kind takes exactly the parameter name, and checks values against its own domain or the named one. |
| Decider.RequirementsOf | authz/decider.go:143-151 | Lists exactly the requirements a policy mentions anywhere. |
| Decider.MatchAny | authz/decider.go:153-166 | The first requirement that holds, unless an error comes first. |
| Decider.FindGroup | authz/decider.go:120-138 | Groups in order, each up to its first unmet requirement, errors in that order. |
| Decider.HasEmptyGroup | authz/decider.go:80-84 | True exactly when some group is empty. |
| Decider.HasInvalidMatch | authz/decider.go:85-89 | True exactly when some mentioned requirement has an unknown match. |
| Decider.DecidePolicy | authz/decider.go:70-141 | The loops compute the decision function, errors and failed requirement included; AllowsExactly, FailsExactly and the denials below say what it is. |
| Decider.MatchExactly | authz/decider.go:168-183 | A requirement holds exactly if its evaluator answers true, is unmet exactly if it answers false or an error with status OK, and fails otherwise: with the code of the error, or with Internal for a plain error or a missing evaluator. |
| Decider.DecisionMeaning | authz/decider.go:70-141 | When no evaluator errs, Allow, Code and Reason are read off a table over what holds, without regard to evaluation order. |
| Decider.ErrorsComeFromRequirements | authz/decider.go:91-138 | A decision fails only with the error of a requirement the policy mentions. |
| Decider.NewRequirementDecider | authz/decider.go:43-63 | Accepts exactly the sets whose every requirement has a registered, evaluable kind. |
| Decider.AcceptedErrorsComeFromEvaluators | authz/decider.go:43-63 | For an accepted policy only an evaluator itself can make a decision fail. |
| DeciderMeaning.ListExactly | authz/decider.go:153-166 | Evaluation of a list runs through, ends at a requirement or fails, exactly if every requirement before that one lets it go on. |
| DeciderMeaning.GroupsExactly | authz/decider.go:120-138 | An alternative is found, none is, or evaluation fails, exactly if every group before has an unmet requirement that is reached. |
| DeciderMeaning.AllowsExactly | authz/decider.go:70-141 | Whatever evaluators answer, a decision allows if and only if the policy is well-formed, there is a principal unless it is anonymous, every forbidden requirement is unmet, every required one holds, and some alternative holds after groups that are unmet. |
| DeciderMeaning.FailsExactly | authz/decider.go:91-138 | A decision fails with a code if and only if evaluation reaches a requirement that fails with it, forbidden ones first, then required ones, then groups. |
| DeciderMeaning.ForbidsExactly | authz/decider.go:104-108 | It forbids by a requirement if and only if that is the first forbidden one not unmet, and it holds. |
| DeciderMeaning.DeniesExactly | authz/decider.go:110-118 | It denies for want of a requirement if and only if nothing is forbidden and that is the first required one not to hold, and it is unmet. |
| DeciderMeaning.OtherDenialsExactly | authz/decider.go:70-102 | Internal exactly for malformed policies, Unauthenticated exactly without a principal, and no alternative exactly if all groups are unmet. |
| DeciderMeaning.FailureExcludesAllow | authz/decider.go:168-183 | A required or forbidden requirement whose evaluator fails or is missing excludes Allow. |
| DeciderMeaning.FailureHasCause | authz/decider.go:168-183 | The code of a failing decision is that of the failure of a requirement the policy mentions. |
| RequirementKeys.RequirementKey | policy/manifest.go:113-127 | The grown key is the NUL-joined list of kind, vocabulary, match, values and sorted parameters. |
| RequirementKeys.RequirementListKey | policy/manifest.go:129-135 | The concatenation of terminated keys. |
| RequirementKeys.KeyInjective | policy/manifest.go:113-127 | Equal keys mean equal requirements, with a valid match, no NUL or U+0001 anywhere, and no "=" in values and parameter names. |
| RequirementKeys.ListKeyInjective | policy/manifest.go:129-135 | The same for lists of requirements. |
| Canonical.CanonicalValues | policy/manifest.go:96-111 | The strictly sorted listing of the set of values. |
| Canonical.CanonicalRequirements | policy/manifest.go:80-94 | A permutation of the normalised requirements in key order, nothing said about equal keys. |
| Canonical.CanonicalGroups | policy/spec.go:302-314 | The same two levels deep. |
| Canonical.CanonicalPolicy | policy/manifest.go:70-78 | Preset cleared, all three parts canonical, the anonymous flag kept. |
| Canonical.CanonicalFormIsUnique | policy/manifest.go:70-94 | Two policies with clean strings have equal canonical forms exactly when they differ only in the order of require, forbid, groups, requirements in groups and values, repetition of values, and preset metadata. |
| CanonicalUniqueness.OneListExactly | policy/manifest.go:80-94 | A list of requirements has one canonical form if and only if no two of them share a key without normalising to the same. |
| CanonicalUniqueness.OneGroupsExactly | policy/spec.go:302-314 | Groups have one if and only if that holds inside each group and no two different canonical groups share a list key. |
| CanonicalUniqueness.OneFormExactly | policy/manifest.go:70-78 | A policy has one canonical form if and only if that holds of require, forbid and its groups. |
| CanonicalUniqueness.CleanIsApart | policy/manifest.go:113-135 | A valid match, no NUL or U+0001 anywhere and no "=" in values and parameter names keep all keys apart. |
| CanonicalUniqueness.IdempotentExactly | policy/manifest.go:68-78 | Canonicalising a canonical form may always leave it as it is, and has no other result if and only if no keys of the original collide. |
| CanonicalMeaning.CanonicalDecidesAlike | policy/manifest.go:68-78 | For error-free evaluators that read the values of this policy as sets: a policy and its canonical form decide with the same Allow, Code and Reason if and only if the policy carries no preset, or is empty apart from it. |
| CanonicalMeaning.KindsReadSets | principal/principal.go:108-130 | Evaluators that read values as sets, as those of the default registry do, meet the hypothesis for every policy. |
| CanonicalMeaning.PresetIsNotPreserved | policy/manifest.go:72-73 | A policy with a preset that is denied while its canonical form allows. |
| ScopeMeaning.ScopeReadsSet | policy/scope/scope.go:76-104 | The scope kind reads the values of a requirement it validates as a set. |
| ScopeMeaning.ValidPolicyReadsSets | policy/scope/resource.go:111-134 | So every valid policy over set-reading, scope and resource kinds is evaluated without regard to order and repetition of values. |
| ScopeMeaning.ValidPolicyDecidesAlike | policy/manifest.go:68-78 | Such a policy and its canonical form decide alike. |
| CanonicalMeaning.KeysCollide | policy/manifest.go:113-127 | A value "a=b" and a parameter a=b share a key. |
| CanonicalMeaning.CollisionBreaksUniqueness | policy/manifest.go:90-92 | Two colliding requirements in both orders: both lists are canonical forms of one policy (the exact condition is OneFormExactly). |
| PolicySet.NewSet | policy/set.go:53-68 | Succeeds exactly on distinct non-empty ids and holds exactly the given operations. |
| PolicySet.NewSetWithVocabulary | policy/set.go:41-51 | Succeeds exactly on distinct non-empty ids with valid policies; the set then holds valid policies only. |
| PolicySet.WithOperations | policy/set.go:133-154 | Succeeds exactly on new, distinct, non-empty ids with policies valid for the set itself; keeps what was there, and keeps all policies valid. |
| PolicySet.LookupFindsAdded | policy/set.go:71-80 | A lookup finds every operation that was added, and under any other id what was there before. |
| PolicySet.Operations | policy/set.go:89-99 | All operations, by strictly increasing id. |
| Manifest.BuildManifest | policy/manifest.go:32-54 | One entry for each API that has operations, by name; in it exactly its operations, by id, each with a canonical form of its policy. |
| Manifest.ManifestIsUnique | policy/manifest.go:31-54 | A manifest of a set is its only one, whatever order its map is read in, if and only if no keys collide in any of its policies. |
| ManifestMeaning.EntryShowsOperation | policy/spec.go:126-252 | An entry shows exposure, kind and stream mode of its operation by their names, and its label: its own, or the preset, public, one plain kind or custom. |
| ManifestMeaning.ManifestDecidesAlike | policy/manifest.go:38-47 | The policy a manifest shows for an operation of a set decides as the operation itself; sets hold valid policies, so no preset is left. |
| PolicyValidation.ValidatePolicy | policy/build.go:407-435 | No violation exactly for preset-free policies that are anonymous without positive requirements or have one, with non-empty groups and valid requirements only. |
| PolicyValidation.ValidNeverInternal | policy/build.go:407-460 | A valid policy with evaluable kinds never decides Internal and fails only if an evaluator errs. |
| PolicyValidation.AndKeepsValid | policy/build.go:393-405 | Merging two valid policies gives a valid one. |
| PolicyValidation.AndDecision | policy/build.go:393-405 | What a merge allows, from what its two layers hold: both forbid lists and both require lists apply, groups are pooled by OR. |
| PolicyValidation.AndIsConjunction | policy/build.go:393-405 | A merge allows at least what both layers allow, and exactly that when at most one layer has groups. |
| PolicyValidation.AndAssociative | policy/build.go:393-405 | The merge is associative exactly outside one combination of anonymous flags and positive requirements. |
| PolicyValidation.AndAssociativeOnValid | policy/build.go:393-405 | That combination needs an invalid layer, so on valid policies the merge is associative. |
| Presets.NewPresetSet | policy/preset.go:14-29 | Succeeds exactly on distinct non-empty names with a builder, and holds exactly those. |
| Presets.CompatibleStep | policy/preset.go:61-68 | One merge succeeds exactly when the layers added are compatible. |
| Presets.MergeIsFlatten | policy/preset.go:69-77 | One merge puts the inner lists before the outer ones. |
| Presets.ChainExpands | policy/preset.go:34-59 | A chain that fits the depth expands exactly when its layers are compatible, to their lists concatenated from innermost to outermost. |
| Presets.ExpansionHasChain | policy/preset.go:34-59 | Whatever expands has such a chain of registered, pairwise distinct presets. |
| Presets.ExpandSucceedsExactly | policy/preset.go:31-59 | Expansion succeeds if and only if the chain has at most eight pairwise distinct registered presets, every builder succeeds and no two layers conflict; the result is the flattened chain. |
| PolicyBuild.ChoosePolicy | policy/build.go:247-289 | Both policies expanded, then merged, overridden or inherited (which of these: OperationAsDeclared); an error or nothing exactly when an expansion fails or no policy is declared. |
| PolicyBuild.RequestFields | policy/build.go:353-365 | All field names of the request message in order. |
| PolicyBuild.BuildOperation | policy/build.go:228-351 | The operation of one method, request fields included, or a violation exactly when lookup, expansion, policy, exposure, streaming or stream mode is at fault. |
| PolicyBuild.ExpandKeepsPreset | policy/build.go:283-289 | Expansion keeps the name the label is read from. |
| PolicyBuild.BuildService | policy/build.go:189-202 | One operation per non-exempt method, in order, or a violation exactly if one cannot be built. |
| PolicyBuild.BuildFile | policy/build.go:161-202 | The same for all selected services of a file, and their lookups. |
| PolicyBuild.BuildFiles | policy/build.go:129-203 | The same for all selected files, with one supported schema version among them. |
| PolicyBuild.DedupeFiles | policy/build.go:376-391 | The first file of each path, by path. |
| PolicyBuild.DedupedUnique | policy/build.go:376-391 | That determines the result. |
| PolicyBuild.CheckRules | policy/build.go:209-221 | No violation exactly when every rule passes on every operation and on the set. |
| PolicyBuild.BuildSet | policy/build.go:129-225 | Returns a set exactly when lookups, versions, targets, ids and rules are all in order. |
| PolicyBuild.Build | policy/build.go:91-226 | Succeeds exactly when the presets are well registered and a set meeting all requirements exists, and returns such a set. |
| BuildTheorems.EveryTargetIsBuilt | policy/build.go:129-203 | On success every non-exempt method of a selected service has the operation its declarations give it (what they give: OperationAsDeclared). |
| BuildTheorems.EveryOperationHasTarget | policy/build.go:129-203 | The set holds no other operation. |
| BuildTheorems.TargetsDoNotCollide | policy/build.go:205-208 | Two methods never share an operation. |
| BuildTheorems.TargetOperationValid | policy/build.go:297-314 | A built operation has a valid policy and an exposure that fits its streaming. |
| BuildTheorems.BuildIsFailClosed | policy/build.go:91-226 | Every policy in a built set is valid, and once its kinds are evaluable deciding it never yields Internal and fails only if an evaluator errs. |
| BuildTheorems.BuildMakesValidSet | policy/build.go:205-225 | Every policy of a built set is valid, so none carries a preset. |
| BuildTheorems.MissingPolicyFailsBuild | policy/build.go:277-281 | A method with no policy and no default fails the whole build. |
| BuildMeaning.TargetOperationExactly | policy/build.go:228-351 | An operation is built for a method if and only if its policy, exposure, API, label, operation id, stream mode, fields and metadata are those its declarations call for, and policy, exposure and stream mode are acceptable. |
| BuildMeaning.BuildsExactly | policy/build.go:129-203 | Operations can be built if and only if every selected method is buildable. |
| BuildMeaning.OperationAsDeclared | policy/build.go:156-202 | In a built set every selected method has the operation its declarations call for: the first specified of method, service and file exposure; the API of the file or of the resolver; the declared label or the name of its own or its default preset. |
| BuildMeaning.OwnPolicyWins | policy/build.go:273-276 | A method with a policy that does not inherit, or has no default, has exactly that policy, expanded, without its preset. |
| BuildMeaning.InheritedPolicyIsMerged | policy/build.go:271-274 | One that inherits has the requirements of both, those of its default first; the default of the service goes before that of the file. |
| BuildMeaning.DefaultPolicyApplies | policy/build.go:275-276 | One without a policy has that of its default, the service before the file. |
| BuildMeaning.BuildsTheSelection | policy/build.go:129-202 | A set holds exactly the methods of services and files that the options select, under their full names, and none that the framework exempts. |
| BuildMeaning.OneSupportedVersion | policy/build.go:141-155 | All selected files declare one schema version, no declaration counting as 1, and it is supported. |
| BuildMeaning.ServiceHasOneApi | policy/build.go:156-159 | All operations of a service, declared in one file, are built for one API. |
| EventStream.FeedLine | bridge/sse.go:62-66 | The parser of the WHATWG HTML Standard, sections 9.2.5 and 9.2.6, consumes a written line as one line. |
| EventStream.FieldLine | bridge/sse.go:56-64 | A line with one space after the colon sets the field to the value, whatever the value starts with. |
| Sse.SseWriter.EventWithID | bridge/sse.go:52-71 | Appends exactly the text of one event frame (its data lines: LinesAreWritten). |
| Sse.SseWriter.Event | bridge/sse.go:47-49 | The same without an id. |
| Sse.SseWriter.Comment | bridge/sse.go:74-82 | Appends exactly one comment frame. |
| Sse.SseWriter.Retry | bridge/sse.go:85-93 | Appends exactly one retry frame. |
| Sse.SplitLinesAreLines | bridge/sse.go:143-151 | Data whose every CR precedes an LF splits into lines that join to the data with CR LF turned into LF and one final LF dropped. |
| Sse.EventFrameParses | bridge/sse.go:52-71 | A client at rest reads one event frame as exactly that event, with its id kept for later events. |
| Sse.DecimalParses | bridge/sse.go:88 | The printed reconnection time reads back as the number; a negative one is ignored. |
| Sse.FrameParses | bridge/sse.go:52-93 | Every frame reads back as what was written and leaves the client at rest. |
| Sse.StreamRoundTrip | bridge/sse.go:46-93 | Any sequence of frames parses to exactly the events written, with the last id sticking; id, name and comment text must be single lines, an id without NUL, data without a lone CR. |
| Sse.CommentsAreInvisible | bridge/sse.go:73-82 | Comments change nothing a client sees, wherever they fall. |
| Sse.BrokenStream | bridge/sse.go:62-71 | A stream cut anywhere inside a frame reads back as the events of the whole frames before it, and of that frame only if all its bytes arrived. |
| Sse.OnlyWritableArrives | bridge/sse.go:51-71 | An event whose arguments are not writable (a terminator in id or name, NUL in id, a lone CR in data) is carried by no stream at all. |
| Sse.ReadsBackExactlyIfWritable | bridge/sse.go:51-71 | An event frame reads back as written to a new client if and only if its arguments are writable. |
| SseMeaning.LinesAreDelivered | bridge/sse.go:143-151 | Data made of lines that each end in LF or CR LF, with or without a final terminator, is delivered as those lines joined by LF. |
| SseMeaning.EveryTextIsLines | bridge/sse.go:143-151 | All data is made of such lines, so that determines what is delivered of any data. |
| SseMeaning.CrFreeIsDelivered | bridge/sse.go:145-147 | Data without CR is delivered unchanged, but for one final LF. |
| SseMeaning.LinesAreWritten | bridge/sse.go:62-66 | An event is written with one data line for each of those lines. |
| SseMeaning.LinesArrive | bridge/sse.go:52-71 | A new client gets one event with the lines joined by LF, its id, and its name or "message". |
| SseConcurrency.RunKeepsInv | bridge/sse.go:53-54 | At every moment of every interleaving the output is whole frames followed by a part of the frame being written. |
| SseConcurrency.InterleavingsParse | bridge/sse.go:108-139 | In every state of every interleaving, even with a frame half written, the output reads back as exactly the events of the frames written so far, in lock order; the frames of each goroutine appear in its own order. |
| SseConcurrency.HeartbeatsAreInvisible | bridge/sse.go:112-139 | With heartbeats that only write comments a client sees at any moment exactly what the handler has written. |
| Upload.ReadFull | bridge/upload.go:46-48 | Fills the buffer unless the body ends first; for every fragmentation the bytes read and the rest make up the body; a partial read at the end becomes ErrUnexpectedEOF. |
| Upload.Upload | bridge/upload.go:46-82 | Frames sent, calls of Finalize and outcome are a function of body, chunk size, end of the reader, number of sends that succeed and result of Finalize, not of the fragmentation. |
| Upload.ChunksConserve | bridge/upload.go:46-57 | The frames concatenate to the body and are all full, except that the last may be shorter but not empty. |
| Upload.FramesAreChunked | bridge/upload.go:36-57 | Frames have the configured number of bytes, one mebibyte if none is configured, except that the last may be shorter but not empty. |
| Upload.UploadConserves | bridge/upload.go:46-82 | Frames sent are always a prefix of the body; a finalised run sent all of it, once; it is finalised exactly when the reader ends in EOF or ErrUnexpectedEOF and every send succeeds, and answered exactly when Finalize then succeeds. Otherwise a failed send, a body over the limit and a failed read are told apart. |
| Upload.TruncatedBodyIsFinalized | bridge/upload.go:61 | A body cut short by the reader with ErrUnexpectedEOF is finalised like a whole one. |
| Paths.NormalizePath | surface/surface.go:211-228 | Terminates, and returns the rooted path of the non-empty components of its input. |
| Paths.NormalizeIsIdempotent | surface/surface.go:211-228 | Normalising twice is normalising once. |
| Paths.CanonicalShape | surface/surface.go:210-228 | A normalised path is rooted, without a trailing slash except the root itself. |
| Paths.HalvingKeepsSegments | surface/surface.go:218-220 | One pass of replacing double slashes keeps the components. |
| Paths.HalvingShrinks | surface/surface.go:218-220 | And shortens the path, so the loop ends. |
| Paths.JoinPaths | server/server.go:957-969 | The path of all components of all parts, in order. |
| Paths.StripPrefix | guard/documents.go:190-203 | Removes the prefix's components where the path starts with them; other paths are only normalised. |
| Paths.BelowIsSegmentPrefix | server/server.go:677-690 | The textual test prefix + "/" holds exactly when the components of the prefix properly start those of the path. |
| Paths.StrippedExactly | guard/documents.go:190-203 | What stripping leaves are the components after those of the prefix, or all of them where the path does not start with those. |
| Paths.StripUndoesJoin | guard/documents.go:190-203 | stripPrefix undoes joinPaths for every prefix and every normalised path. |
| Routes.BindingsOf | surface/surface.go:155-208 | Succeeds exactly when every rule has a pattern with a path; one binding per rule, in order, normalised. |
| Routes.SurfaceOpOf | surface/surface.go:98-128 | Succeeds exactly when the method has a policy, good bindings and an exposure that fits them. |
| Routes.AddRoutes | surface/surface.go:112-118 | Fails exactly when a method and path is taken. |
| Routes.BuildFromServices | surface/surface.go:80-132 | Succeeds exactly when every method of the first service of each name can be put on the surface and no method and path is declared twice; the result is those operations, by id. |
| Routes.EveryMethodIsOnSurface | surface/surface.go:89-129 | Every such method has its operation there. |
| Routes.SortedSurface | surface/surface.go:130-131 | Sorting keeps the operations those of the policy set and the routes distinct. |
| Routes.SurfaceRoutesAreCanonical | surface/surface.go:198-206 | Declared paths are normalised and methods upper case. |
| Routes.ConfigureGroups | server/server.go:602-621 | Succeeds exactly on distinct non-empty names; one group per API, with its normalised prefix, the root meaning none. |
| Routes.PlaceRegistrations | server/server.go:627-660 | Succeeds exactly when no registration contradicts its proto; every service is in the group of its API, prefixes stay, and nothing else is added. |
| Routes.CheckPrefixes | server/server.go:661-690 | True exactly when prefixes are distinct and no non-empty one lies below another. |
| Routes.BuildGroups | server/server.go:601-697 | Succeeds exactly when groups that match configuration and registrations with prefixes apart exist, and returns them by name. The API derived for a service is that of its last operation, and no other service has one. |
| Routes.ApiByService | server/server.go:623-626 | Each service of the operations gets the API of its last one, and no other service any. |
| Routes.AgreedApi | server/server.go:623-626 | A service whose operations agree gets the API of each of them. |
| Routes.ApartIsDetermined | server/server.go:661-690 | Whether the prefixes are apart depends on configuration and registrations only. |
| RouteMeaning.BindingOfExactly | surface/surface.go:176-208 | A rule makes a binding if and only if it has a pattern with a path, and then with its verb, or its custom kind in upper case, its normalised path, its body and its response body. |
| RouteMeaning.SurfaceOpExactly | surface/surface.go:89-128 | A method gets an operation if and only if a policy of its full name exists, its exposure fits its rules, and every rule makes a binding; it has those bindings in order, and the messages of the method. |
| RouteMeaning.MethodIsBound | surface/surface.go:89-129 | Every method of the first service of its name is on a built surface with that operation. |
| RouteMeaning.OnlyMethodsAreBound | surface/surface.go:89-129 | Nothing else is on it. |
| RouteMeaning.RoutesAreBindings | surface/surface.go:281-307 | The routes of a surface are exactly those of its bindings, with method, path, id and API of their operation. |
| GroupMeaning.AllRegistrationsExactly | server/server.go:711-722 | All registrations are those of the configuration, and those under an API, which belong to it unless they name another. |
| GroupMeaning.MountedExactly | server/server.go:627-660 | A group has exactly the services whose registrations name it, or name none while their proto declares it. |
| GroupMeaning.NothingContradicts | server/server.go:641-643 | No registration names another API than its proto declares, unless it says so. |
| GroupMeaning.GroupPrefixes | server/server.go:609-621 | A configured group is mounted at the components of its trimmed prefix; any other has no prefix. |
| GroupMeaning.DeployedExactly | server/server.go:699-709 | A deployed route is the declared one at the components of the prefix of its group followed by its own. |
| RouteTable.PrefixedRoutes | server/server.go:699-709 | Each route keeps its place and gets the path of its group joined with its declared path. |
| RouteTable.TableHasNoDuplicates | server/server.go:661-709 | The prefixed table has no duplicate method and path if and only if no unprefixed route is declared where a prefixed one is deployed. |
| RouteTable.StayingOutAvoidsClashes | server/server.go:673-685 | No clash when no unprefixed route lies at or under another group's prefix. |
| RouteTable.ValidateExtraConflicts | server/server.go:786-817 | True exactly when the keys of extra routes are distinct and none is the key of a deployed proto route. |
| RouteTable.ConfiguredPrefixIsGroupPrefix | server/server.go:786-798 | The conflict check and the route table use the same prefixes, although they compute them separately. |
| RouteTable.OnlyMethodlessMeet | server/server.go:786-817 | Checked extra routes meet each other or a deployed proto route only when both have no method. |
| RouteTable.NoClashes | server/server.go:673-685 | No clash at all when every unprefixed route stays out. |
| RouteTable.FinalTableHasNoDuplicates | server/server.go:552-569 | Once surface, groups and extra routes pass their checks, the final sorted table has each method and path once if and only if no unprefixed route is declared where a prefixed one is deployed and no methodless extra route shares its path with another or with a methodless proto route. |
| RouteTable.FinalTableHasDistinctKeys | server/server.go:552-569 | In the final table no two proto routes share method and declared path, which is what the OpenAPI projection relies on. |
| RouteTable.MethodlessPairIsPossible | server/registration.go:124-166 | Two extra routes without a method but with different ids pass the conflict check and meet in the table. |
| RouteTable.RegisteredAreApart | server/server.go:522-524 | A mux that refuses a pattern it already has leaves no two extra routes with the same method and path. |
| RouteTable.RegisteredTableHasNoDuplicates | server/server.go:505-569 | So once the extra routes are registered, duplicates come only from unprefixed routes and from methodless proto routes. |
| RouteClash.ClashIsPossible | server/server.go:683-685 | Two services, one API and two registrations that pass surface, group and conflict checks, and whose table has a duplicate. |
| Dispatch.ChosenExactly | server/server.go:487-525 | The mux chooses a group for a request if and only if its subtree holds the path, no other group lies deeper, and no other route matches and is more specific. |
| Dispatch.ServesExactly | server/server.go:487-525 | The group serves it if and only if, further, the path is not the bare prefix of a group and no other route is for that path with a slash. |
| Dispatch.BarePrefixExactly | server/server.go:487-525 | A request for a bare prefix is redirected into the group's subtree and served there if and only if no other route is for exactly that path or takes the root of the subtree. |
| Dispatch.PrefixedExactly | server/server.go:487-525 | Below a prefix the group gets the request, stripped to the path it declares, if and only if no extra route or document takes it. |
| Dispatch.RootExactly | server/server.go:487-525 | The same for a group's own root, after the redirect. |
| Dispatch.UnprefixedExactly | server/server.go:487-525 | The unprefixed group gets a request if and only if no prefix starts the path and no extra route or document takes it. |
| Dispatch.RequestReachesService | server/server.go:434-525 | For a registered service, prefixed or not: its group mounts it, and gets a request for any path of the service with the path its handler knows if and only if no other route on the mux steps in and, for the unprefixed group, no prefix starts the path. |
| Dispatch.BindingReachesService | server/server.go:434-525 | The same for the deployed path of a binding of a built surface, when the operations of its service agree on their API; the API table is the one buildGroups makes. |
| Dispatch.BuiltServiceAgrees | server/server.go:623-626 | On the surface of a built set they always agree. |
| Mux.RegisterAll | server/server.go:494-524 | Registration succeeds exactly when every pattern is accepted and conflicts with none before it. |
| Mux.RegisteredOnce | server/server.go:908-916 | No pattern can be registered twice. |
| Mux.SomeChosen | server/server.go:494-524 | Registered patterns leave a handler for every request that some pattern matches. |
| Mux.ChosenUnique | server/server.go:494-524 | Only one handler is chosen. |
| MuxFragment.FragmentObeysPrecedence | server/server.go:908-916 | The assumptions on precedence are met by a mux of whole paths, subtrees and named rests. |
| MuxFragment.FragmentReadsSubtrees | server/server.go:487-493 | So are those on subtree patterns. |
| RouteWitnesses.ExtraTakesRequest | server/server.go:505-525 | An extra route "GET /v1/{rest...}" that passes surface, groups, conflict check and registration takes the requests of a binding deployed at /v1/notes; without it they reach their group. |
| RouteWitnesses.MethodlessMeetIsPossible | surface/surface.go:197-206 | Services, registrations and an extra route that pass all checks and whose table lists two routes at one path, neither with a method. |
| TrustedProxy.ClientFromXff | interceptor/trusted_proxy.go:87-104 | The rightmost untrusted non-blank hop; if all are trusted, the leftmost non-blank one; if all are blank, nothing. |
| TrustedProxy.ClientIsUnique | interceptor/trusted_proxy.go:79-104 | That leaves one answer. |
| TrustedProxy.ResolveClientIP | interceptor/trusted_proxy.go:68-78 | An untrusted peer is the client itself; a trusted one is asked for its forwarded hops, then for its real-ip header. |
| TrustedProxy.ForgedPrefixIsIgnored | interceptor/trusted_proxy.go:79-97 | Putting any hops in front of a header with an untrusted hop does not change the answer. |
| TrustedProxy.ForgedPrefixIsIgnoredByResolve | interceptor/trusted_proxy.go:65-78 | The same for a whole resolution from any peer. |
| TrustedProxy.OneHopResolvesToItself | interceptor/trusted_proxy.go:68-104 | A trimmed non-blank address without comma, sent as a one-hop header by a trusted peer, resolves to itself. |
| TrustedProxy.ResolutionIsStable | server/server.go:420-431 | What the annotator resolved and sends on as forwarded-for is resolved behind it to the same address. |
| Scope.CutLast | policy/scope/scope.go:222-227 | Cuts exactly at the last separator; nothing exactly without one. |
| Scope.AcceptedExactly | policy/scope/scope.go:172-201 | Accepted are the two wildcards, a star-free whole resource, and a star-free resource with an op in either spelling. |
| Scope.ColonFormRoundTrips | policy/scope/scope.go:172-201 | Parsing the colon printing of any accepted non-wildcard token gives back its parse. |
| Scope.SatisfiesSet | policy/scope/scope.go:149-170 | True exactly when some token satisfies the request. |
| Scope.SatisfyingTokens | policy/scope/scope.go:149-170 | Exactly which strings satisfy resource and op. |
| Scope.GrantsInstanceFor | policy/scope/resource.go:166-203 | True exactly when some token grants the instance. |
| Scope.GrantingTokens | policy/scope/resource.go:166-203 | Exactly which strings grant an instance: a wildcard, the whole resource, resource:*, the instance, or the instance with the asked direction. |
| Scope.GatesAreMonotone | policy/scope/resource.go:166-203 | Both gates read tokens as a set, and more tokens never take a permission away. |
| Scope.SpellingsInterchange | policy/scope/scope.go:202-211 | resource.op and resource:op mean the same to either gate if and only if the resource is not empty and has no colon. |
| Scope.OpLessGrantsCoverOps | policy/scope/resource.go:188-200 | A grant without direction is a grant in every direction, for every token set, if and only if the target does not itself end in an op (or holds a colon). |
| Scope.DirectedTokenGrantsOneOp | policy/scope/resource.go:157-164 | An instance token with a direction grants that direction and no other, and nothing to a gate without direction. |
| Scope.OneTokenPassesBothGates | policy/scope/resource.go:5-7 | No single token passes both gates for a directed request but a wildcard or the whole resource. |
| Scope.TwoTokensPassBothGates | policy/scope/resource.go:5-7 | An operation token and an instance token together do. |
| Scope.OperationTokensAddressNothing | policy/scope/resource.go:184-186 | An operation token in either spelling never grants an instance of a validly declared resource. |
| Scope.ParseSet | policy/scope/scope.go:111-130 | All or nothing: accepted exactly when every token is, and then unchanged. |
| Scope.HasWildcard | policy/scope/scope.go:140-147 | True exactly when some token is a wildcard. |
| Scope.ValidateScope | policy/scope/scope.go:48-75 | Accepts exactly the requirements whose every value is accepted and in the vocabulary. |
| Scope.EvaluateScope | policy/scope/scope.go:76-104 | The first value that is malformed or settles the answer decides. |
| Scope.ValidScopeMeaning | policy/scope/scope.go:48-104 | A validated requirement never errs and means every value, or some value. |
| Scope.ValidScopeReadsSet | policy/scope/scope.go:48-104 | So order and repetition of its values do not matter, and reordering keeps it valid. |
| Scope.ResourceValueExactly | policy/scope/resource.go:138-147 | Accepted are a colon-free name and resource:op, and the parts are what was printed. |
| Scope.EvaluateResource | policy/scope/resource.go:111-134 | Errs exactly on a malformed declaration or a missing target; otherwise true exactly when the caller holds a granting token. |
| ScopeKindMeaning.ScopeKindMeans | policy/scope/scope.go:76-104 | A requirement the kind validates never fails. All, or some, of its values must be met: a wildcard by a wildcard token, where they are allowed; a resource and op by a token for the whole resource, for that op in either spelling, or a wildcard. |
| ScopeKindMeaning.DeclaredWildcardExactly | policy/scope/scope.go:83-87 | A declared wildcard is met exactly by callers with a wildcard token, and by none where wildcards are disallowed. |
| ScopeKindMeaning.ScopeKindValidates | policy/scope/scope.go:48-75 | Valid are requirements with values unless some suffice, in a registered domain where one is required, each a permitted wildcard or a well-formed value whose resource the domain knows. |
| ScopeKindMeaning.ResourceKindValidates | policy/scope/resource.go:82-107 | An instance gate declares one resource, with or without a direction, by a plain name that the domain knows. |

## Left out

- OpenAPI operations: tags, labels, security and requirement extensions, info and JSON encoding; none of
  them can hold a reference.
- Build: the texts of violations and how they are aggregated.
- ComponentMeaning: ranges of numbers and the form of dates, durations and base64 text; formats and descriptions
  are annotations. Floating-point values are finite and enum values declared ones.
- DescribesProtoJsonExactly: assumes that the fields of a message have distinct JSON names, as protobuf requires;
  ComponentMeaning does not.
- TableIgnoresOrder: assumes proto routes distinct in method and declared path, which
  `FinalTableHasDistinctKeys` proves of every final table.
- Evaluation contexts: the operation and resource an evaluator may also read are part of its arbitrary
  behaviour, so canonicalisation is compared in one and the same context.
- Registry: looking up and listing names, which are one map access each.
- Policy sets: API listing and filtering, one loop each, and copying of what is returned; values here
  are immutable, so aliasing of clones cannot be observed.
- Manifest: JSON text; the textual form produced by `Format`.
- Rate limiter: how the key of a request is chosen, logging and callbacks.
- Retry-After: that the conversion to float64 rounds each step to a 53-bit significand is an assumption of
  `FloatSecondsAreNear`; longer delays than it covers are not claimed to round up exactly.
- JWKS: the HTTP exchange and key decoding inside a fetch, and the choice of a key by kid afterwards.
- SSE: response headers, flushing, write errors, and when the ticker fires; a heartbeat may come at any
  moment.
- Upload: what is written back to the HTTP client, whether cancellation silences an error answer, and a
  response that cannot be encoded. The stream is given open.
- Mux: what a pattern with wildcards matches, host names in patterns, the cleaning of request paths, the status
  code of a redirect, and the percent-encoded form of a path. Prefixes with wildcards are left out, as
  StripPrefix would not strip them; request paths are canonical. Which requests the inner mux of a group
  matches to a template is not modelled, so a group is said to get the request, not its method.
- Server: handlers, middleware and body limits. Documents are further patterns on the mux.
- BindingReachesService: needs the operations of the service to agree on their API. Those of a built set do
  (`BuiltServiceAgrees`, for files that declare each service once, as a descriptor pool guarantees); a set made by
  hand could hold others, and buildGroups then goes by the last of them.
- EvaluateResource: with a principal it needs at least one declared value, as the source does, which indexes
  the first one.
- Trusted proxies: address parsing and CIDR matching behind the trust predicate, and the fallback to the
  first forwarded hop of a call without peer.
- Scope: extracting a target id from a request; it is a parameter. Parsing errors carry no text.
- String functions work on sequences of characters; `ToUpper`, `ToLower` are modelled on ASCII letters.
- All listeners, TLS, gRPC wiring, cryptography and protobuf reflection.
