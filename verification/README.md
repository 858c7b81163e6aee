# ZRM kernel verification

A Dafny model of the parts of the ZRM repository where correctness is an argument rather than a
table: the frontier algebra, the delegation-plan checker, the canonical resource codec with its
hash framing and intrinsic construction, the role partition, verifier cost, and the lexical
scanner that measures Rust source. Verify everything with `dafny verify dfyconfig.toml`.

## What is modelled

| modules | subject |
|---|---|
| `Outcomes`, `Ordering`, `Rows`, `Bytes` | results, sorting under a strict total order, keyed row lists in normal form, big-endian bytes |
| `LinearPoints`, `FrontierForms` | points as normalised linear combinations, kind bases, delta equations, basis certification, binding keys |
| `ScalarCarrier` | the partial carrier of nonzero residues and the triple-loop search for a counterexample |
| `Summaries`, `SummaryForms` | exact fact coverage, semantic summaries, their partial composition, composition trees |
| `DependencyGraph` | depth-first cycle detection over mutable `visited` and `active` sets |
| `DelegationPlan`, `PlanRules` | the state rules of a completion plan and what an accepted plan guarantees |
| `WireCursor`, `ResourceWire`, `WireTheorems`, `WireLayout` | the strict resource decoder and its encoder, over a mutable cursor and buffer, and the wire form byte by byte |
| `HashFrames`, `PreimageLayout`, `IntrinsicResource` | length-framed hash inputs; sealed construction of a resource body |
| `ResourceRoles` | the three-role partition, ordinal lookup, binding of a body to its role |
| `VerifierCost` | checked 128-bit charge arithmetic, caps, and the admission reservation |
| `LexicalScanner`, `LiteralForms`, `SegmentForms` | in-place blanking of comments and literals, and the grammar of what is blanked |
| `Delimiters`, `BracketCounts`, `Parameters`, `FunctionBodies`, `SignatureForms` | delimiter matching on three stacks, parameter splitting, nesting depth, the signature scan |

Each imperative operation is a method proved against a specification, and the specification is
then shown to be right by lemmas that do not mention how it is computed: the `Forms`, `Rules`,
`Layout` and `Counts` modules restate what is accepted, what is returned and which error is given
in the token texts, bytes and fields of the input alone. SHA-256 is a parameter
(any function from bytes to 32 bytes), allocation success is a parameter, Python's `isalnum` is a
parameter, and file existence is a parameter (the set of references that name an existing file).
Integers in Python are unbounded and are modelled so; Rust widths appear as subset types.

Four facts differ from what a reader may expect.

- `DeltaEquation` does not normalise rows given to its constructor, only those given to
  `from_mapping`. Nonempty rows that cancel kind by kind therefore raise the forgery flag even
  under a certified basis. `ForgeryFlagUnderCertifiedBasis` states exactly when this happens, for
  all equations, and `UnnormalizedRowsRaiseTheFlag` gives an instance.
- The last guard of `compose` (cross-summary tag collision) can never be the one that fires on
  constructed summaries, and the constructor call at its end can never raise (`CompositionSucceeds`).
- Multiplication in the cost computation can never overflow 128 bits; only the additions can, and
  they do for admissible 64-bit inputs.
- Both error exits of `_function_block_depth` are unreachable from `_extract_functions`, because
  a body lies between matched braces (`BodyIsSelfContained`).

## Model

| member | source | states |
|---|---|---|
| LinearPoints.MakeAcceptsNormal | reference_models/arm_zrm_frontier_v1.py:34-39 | the point constructor accepts exactly strictly ascending nonzero coefficient lists, unchanged |
| FrontierForms.PointConstructorExact | reference_models/arm_zrm_frontier_v1.py:34-39 | on the rows themselves: accepted iff symbols ascend by code points and no value is zero; otherwise a symbol repeated among nonzero rows is reported before any other disorder |
| FrontierForms.FromMappingExact | reference_models/arm_zrm_frontier_v1.py:41-43 | points and equations made from dictionaries hold exactly the items that are not zero, in order of their keys |
| Ordering.TextLessExact | reference_models/arm_zrm_frontier_v1.py:34-39 | the text order: a proper prefix stands first, else the smaller code point at the first difference |
| LinearPoints.LinearPoint.Add | reference_models/arm_zrm_frontier_v1.py:56-60 | the dictionary loop computes `Plus`, the sum whose group laws are proved below |
| LinearPoints.PointExtensional | reference_models/arm_zrm_frontier_v1.py:24-40 | two constructed points with the same coefficient at every symbol are structurally equal |
| LinearPoints.PointsFormCommutativeGroup | reference_models/arm_zrm_frontier_v1.py:49-65 | addition is closed, commutative and associative, zero is neutral and scaling by minus one is the inverse, all with structural equality |
| LinearPoints.ScalingIsLinear | reference_models/arm_zrm_frontier_v1.py:62-65 | scaling distributes over point and scalar addition, composes multiplicatively, and one is its unit |
| LinearPoints.MakeBasisAccepts | reference_models/arm_zrm_frontier_v1.py:89-96 | a basis is constructed iff its profile is nonempty and its kinds strictly ascend |
| FrontierForms.BasisConstructorExact | reference_models/arm_zrm_frontier_v1.py:89-96 | the basis constructor with its errors: empty profile, then kinds out of order, then repeated kinds, else accepted; accepted iff named and ascending |
| FrontierForms.HonestExact | reference_models/arm_zrm_frontier_v1.py:98-105 | the honest basis lists each kind once and in order with one of its own `K:` symbol, is authenticated, and is certified for every named proof |
| FrontierForms.TablesExact | reference_models/arm_zrm_frontier_v1.py:107-133 | the two caller tables entry by entry: the scalar on `G`, or one of the shared symbol; neither is authenticated |
| LinearPoints.BasisLookup | reference_models/arm_zrm_frontier_v1.py:135-139 | lookup succeeds exactly on listed kinds, with each kind's own point, else names the unknown kind |
| LinearPoints.DeltaEquation.PointOn | reference_models/arm_zrm_frontier_v1.py:172-176 | the accumulating loop, including its first failing lookup, computes `Point` |
| LinearPoints.PointCoefficients | reference_models/arm_zrm_frontier_v1.py:172-176 | the point exists iff every kind is listed; each coefficient is the quantity-weighted sum of basis coefficients, plus the blinding on the generator |
| LinearPoints.DeltaPointIsHomomorphic | reference_models/arm_zrm_frontier_v1.py:159-176 | over any basis the point of the kind-wise sum of two equations is the sum of their points |
| LinearPoints.CertifiedEntries | reference_models/arm_zrm_frontier_v1.py:153-155 | certification accepts exactly authenticated bases that give every kind its own symbol with coefficient one, and a nonempty proof identifier |
| FrontierForms.CertificationExact | reference_models/arm_zrm_frontier_v1.py:198-204 | an unnamed proof is refused first, then any basis not authenticated or not of own symbols; all others are sealed |
| LinearPoints.CertifiedCoefficients | reference_models/arm_zrm_frontier_v1.py:198-204 | under such a basis the generator carries only the blinding, each kind's symbol carries that kind's net quantity, and nothing else appears |
| FrontierForms.CertifiedPointExact | reference_models/arm_zrm_frontier_v1.py:172-176 | under a certified basis the delta point holds the blinding on `G`, the net quantity of each kind on `K:` and its name, and nothing else |
| LinearPoints.CertifiedBindingKey | reference_models/arm_zrm_frontier_v1.py:181-183 | under a certified basis a binding key is known iff every kind nets to zero, and is then the blinding |
| LinearPoints.CertifiedBasisAdmitsNoForgery | reference_models/arm_zrm_frontier_v1.py:178-186 | for normalised equations the key is known iff the equation is balanced, so the forgery flag is never raised |
| LinearPoints.ForgeryFlagUnderCertifiedBasis | reference_models/arm_zrm_frontier_v1.py:185-186 | for arbitrary rows the flag is raised iff the rows are nonempty and cancel kind by kind |
| LinearPoints.UnnormalizedRowsRaiseTheFlag | reference_models/arm_zrm_frontier_v1.py:158-170 | concrete rows, which the constructor accepts, raise the flag under a certified basis |
| LinearPoints.KnownScalarsGiveEveryKey | reference_models/arm_zrm_frontier_v1.py:107-120 | under a known-scalar table every covered equation has a known key: blinding plus the scalar-weighted quantities |
| LinearPoints.SharedSymbolKey | reference_models/arm_zrm_frontier_v1.py:122-133 | under a shared-symbol table the key is known iff the symbol is the generator or the quantities sum to zero, with its value |
| ScalarCarrier.BracketingsCompared | reference_models/arm_zrm_frontier_v1.py:245-268 | both bracketings equal the true residue whenever defined, and they differ iff exactly one of a+b and b+c vanishes |
| ScalarCarrier.ComposeExact | reference_models/arm_zrm_frontier_v1.py:245-252 | two numbers compose iff both are nonzero residues, to nothing when they add up to the modulus and else to their residue; each error has its own condition |
| ScalarCarrier.FindPartialAssociativityCounterexample | reference_models/arm_zrm_frontier_v1.py:271-278 | the search returns (1, 1, m-1, 1, None) for every modulus m of at least three and fails for every smaller one |
| Summaries.ExactLogicCoverage | reference_models/arm_zrm_frontier_v1.py:222-242 | the counting loop computes the verdict with its exact missing, extra and duplicate lists, in that order of precedence |
| Summaries.CoverageAcceptsPermutations | reference_models/arm_zrm_frontier_v1.py:222-242 | coverage accepts iff the facts are a permutation of the required tags |
| SummaryForms.CoverageExact | reference_models/arm_zrm_frontier_v1.py:222-242 | the report in full: repeated facts are listed before missing tags and these before extra ones, each list exact and ascending; repeated required tags are refused |
| Summaries.MakeAcceptsWellFormed | reference_models/arm_zrm_frontier_v1.py:294-316 | the constructor accepts exactly: sorted unique lists, normal rows, disjoint tags, facts being exactly the tags, nonempty bindings |
| SummaryForms.ConstructorExact | reference_models/arm_zrm_frontier_v1.py:294-316 | the constructor returns the summary itself or the error of the first of its nine checks that fails, each stated on the lists and rows |
| Summaries.Compose | reference_models/arm_zrm_frontier_v1.py:362-394 | the guarded accumulation of rows and lists computes `Composition` |
| Summaries.CompositionSucceeds | reference_models/arm_zrm_frontier_v1.py:362-394 | composition succeeds iff bindings agree and actions and tags are disjoint; the final constructor never raises |
| SummaryForms.CompositionExact | reference_models/arm_zrm_frontier_v1.py:362-394 | constructed summaries compose to their join, field by field, or fail with the first of seven guards that does not hold |
| Summaries.JoinedWellFormed | reference_models/arm_zrm_frontier_v1.py:382-394 | the composed summary is well formed, with unions of lists and kind-wise sums of rows |
| Summaries.TreeSucceeds | reference_models/arm_zrm_frontier_v1.py:362-394 | any tree of compositions succeeds iff its leaves are pairwise compatible, and its value collects exactly the leaves |
| Summaries.AnyBracketingAnyOrder | reference_models/arm_zrm_frontier_v1.py:362-394 | any two trees over the same bag of summaries succeed together, iff pairwise compatible, and yield the identical summary |
| Summaries.TreeConservesDelta | reference_models/arm_zrm_frontier_v1.py:382-394 | each kind's row is the sum over all leaves and is absent exactly when that sum is zero |
| DependencyGraph.DepthFirstSearch.Visit | tools/delegation_plan_model.py:111-119 | the recursion terminates; success restores `active`, adds the node to a topological order of visited nodes; a reported node really reaches itself |
| DependencyGraph.BuildGraph | tools/delegation_plan_model.py:98-106 | the first loop reports the first self or unknown dependency, else builds the dependency dictionary |
| DependencyGraph.FirstDefectExact | tools/delegation_plan_model.py:98-106 | the first faulty node is reported: self-dependency first, else exactly those of its dependencies that are no node |
| DependencyGraph.SearchAll | tools/delegation_plan_model.py:108-122 | success implies no cycle; failure names a node on a real cycle |
| DependencyGraph.ValidateGraph | tools/check_conformance.py:144-171 | the whole check (written alike in both tools) accepts iff dependencies are known and self-free and the graph has no cycle |
| DependencyGraph.AcceptsKnownAcyclic | tools/delegation_plan_model.py:96-122 | with unique identifiers acceptance is: every dependency known, and no task reaches itself by a nonempty path |
| DependencyGraph.TopologicalIsAcyclic | tools/delegation_plan_model.py:111-119 | an order in which dependencies come first rules out cycles of every length |
| DependencyGraph.MinimalNode | tools/delegation_plan_model.py:96-122 | in an acyclic graph every nonempty set of tasks has one that depends on none of the set |
| DelegationPlan.ExpectedIdInjective | tools/check_delegation_plan.py:125-131 | zero-padded sequential identifiers are distinct for distinct positions, also beyond three digits |
| PlanRules.ExpectedIdExact | tools/check_delegation_plan.py:125-131 | a position has exactly one identifier: the prefix and its number in at least three digits, with no zero in front of more |
| DelegationPlan.CheckTasksAccepts | tools/delegation_plan_model.py:182-214 | the list is accepted iff every task at its own position has its sequential identifier, duplicate-free dependency and evidence lists without blanks, no blank unresolved decision, and meets the tier, unresolved and evidence rules; otherwise the first failure is reported |
| PlanRules.TaskExact | tools/delegation_plan_model.py:182-214 | one task passes iff it has the expected identifier, lists of names without repeats, a tier that fits its state, an unresolved decision where architects are needed, and evidence with nothing unresolved where complete |
| PlanRules.TaskErrorExact | tools/delegation_plan_model.py:124-214 | a task that does not pass gets the error of the first of these that fails |
| DelegationPlan.ValidateStates | tools/check_delegation_plan.py:23-47 | the loop reports the first violated state rule in task order, else succeeds |
| PlanRules.StateExact | tools/check_delegation_plan.py:23-47 | one state passes iff: delegable has complete dependencies, nothing unresolved, an available oracle, and its decision and oracle files; complete has complete dependencies and all evidence files; blocked has a reason; an available oracle has its file |
| PlanRules.StateErrorExact | tools/check_delegation_plan.py:23-47 | a state that does not pass gets the error of the first of these that fails, and missing evidence is the first that names no file |
| PlanRules.FirstFailureReported | tools/check_delegation_plan.py:23-47 | the loop fails with the error of the first task whose state does not pass |
| DelegationPlan.ValidatePlan | tools/check_delegation_plan.py:98-134 | the phases run in order, and the plan is accepted iff each accepts |
| PlanRules.SummariesExact | tools/check_delegation_plan.py:50-72 | the summaries pass iff the required tasks are known, readiness says that they are complete, production is not claimed, blanket delegation agrees, and safe-now lists the delegable tasks in order; else the first wrong one is reported |
| PlanRules.AcceptanceExact | tools/check_delegation_plan.py:98-134 | a plan is accepted iff all of this holds of its own tasks, every dependency names a task and no chain of dependencies comes back to its beginning |
| DelegationPlan.SequentialIdsDistinct | tools/check_delegation_plan.py:122-131 | accepted numbering makes identifiers unique |
| DelegationPlan.DependenciesOfReadyWorkAreComplete | tools/check_delegation_plan.py:23-47 | in an accepted plan every transitive dependency of a complete or delegable task is complete |
| DelegationPlan.NoSilentDeadlock | tools/check_delegation_plan.py:23-47 | an accepted plan with unfinished work has an unfinished task, all dependencies complete, that is delegable, human-only or names an unresolved decision that is not blank |
| DelegationPlan.SafeNowRestsOnCompleteWork | tools/check_delegation_plan.py:70-72 | whatever is advertised as safe now depends, transitively, on complete work only |
| DelegationPlan.HandoffMeansClosure | tools/check_delegation_plan.py:50-62 | the required list is never empty, and the handoff flag is raised iff every required task and everything below it is complete |
| WireCursor.Cursor.Take | crates/zrm-codec/src/cursor.rs:14-24 | splits off exactly the next bytes, or rejects with the given code and leaves the cursor unmoved |
| WireCursor.Cursor.TakeU16 | crates/zrm-codec/src/cursor.rs:34-39 | reads a big-endian 16-bit number off the front |
| WireCursor.Cursor.TakeU32 | crates/zrm-codec/src/cursor.rs:41-46 | reads a big-endian 32-bit number off the front |
| WireLayout.BigEndianDigits | crates/zrm-codec/src/resource_wire_v1.rs:126-135 | each byte of a written number is its base-256 digit, most significant first |
| ResourceWire.Encode | crates/zrm-codec/src/resource_wire_v1.rs:107-137 | the buffer ends up holding the header and eighteen frames in wire order, of 595 or 603 bytes |
| ResourceWire.AppendExpiryField | crates/zrm-codec/src/resource_wire_v1.rs:353-368 | appends the option frame of one or nine bytes after its predecessors |
| ResourceWire.EncodingLength | crates/zrm-codec/src/resource_wire_v1.rs:107-137 | encodings are 603 bytes with an expiry and 595 without |
| WireLayout.HeaderStands | crates/zrm-codec/src/resource_wire_v1.rs:334-339 | an encoding begins with the ten header bytes of version one |
| WireLayout.SubjectLayout | crates/zrm-codec/src/resource_wire_v1.rs:117-121 | machine, domain, application and kind stand at bytes 10, 48, 86 and 124 behind their tag and length bytes |
| WireLayout.LogicLayout | crates/zrm-codec/src/resource_wire_v1.rs:122-125 | logic, profile, kind policy and unit stand at bytes 162, 200, 238 and 276 behind their tag and length bytes |
| WireLayout.ContentLayout | crates/zrm-codec/src/resource_wire_v1.rs:126-129 | quantity and the label, value and controller roots stand at bytes 314, 336, 374 and 412 |
| WireLayout.OriginLayout | crates/zrm-codec/src/resource_wire_v1.rs:130-132 | policy root, provenance root and nonce stand at bytes 450, 488 and 526 |
| WireLayout.TermsLayout | crates/zrm-codec/src/resource_wire_v1.rs:133-136 | the created epoch stands at 564 and the expiry option at 578, one zero byte or a one and eight bytes; the flags follow and end the encoding |
| ResourceWire.ParseHeaderAt | crates/zrm-codec/src/resource_wire_v1.rs:249-272 | header defects are reported in order magic, version, object, count; success leaves the cursor at the first field |
| ResourceWire.ReadFieldHeader | crates/zrm-codec/src/resource_wire_v1.rs:274-286 | short header before wrong tag before success with the declared length |
| ResourceWire.ReadFixedField | crates/zrm-codec/src/resource_wire_v1.rs:288-301 | one fixed-length frame off the cursor, with the source's order of rejections |
| ResourceWire.ReadExpiryField | crates/zrm-codec/src/resource_wire_v1.rs:303-332 | the option frame off the cursor: absent is one zero byte, present is a one and eight bytes, nothing else |
| ResourceWire.Decode | crates/zrm-codec/src/resource_wire_v1.rs:200-233 | the cursor-driven decoder computes `Decoding`, reject codes included |
| WireLayout.HeaderExact | crates/zrm-codec/src/resource_wire_v1.rs:235-272 | input over the bound, under ten bytes, or with wrong magic, version, object or count bytes gets that code, in this order, and no other input does |
| WireLayout.RejectionExact | crates/zrm-codec/src/resource_wire_v1.rs:200-332 | for all bytes and codes: rejected with the code iff it names the first fault, in the header, in the first frame that is not whole (short header, tag, length, short value, option marker), or surplus after the last |
| WireLayout.AcceptanceExact | crates/zrm-codec/src/resource_wire_v1.rs:200-332 | for all bytes: accepted iff they are the header and eighteen whole frames and nothing more |
| WireTheorems.DecodesIffEncoding | crates/zrm-codec/src/resource_wire_v1.rs:107-233 | for all bytes and values, decoding yields the value iff the bytes are its encoding |
| WireTheorems.EncodingInjective | crates/zrm-codec/src/resource_wire_v1.rs:107-137 | distinct values have distinct encodings |
| WireTheorems.AcceptedLengths | crates/zrm-codec/src/resource_wire_v1.rs:200-233 | accepted input has length 603 or 595 according to the expiry it decodes to |
| WireTheorems.CutFallsInOneFrame | crates/zrm-codec/src/resource_wire_v1.rs:107-137 | every cut past the header lies inside exactly one of the eighteen frames |
| WireTheorems.TruncationRejected | crates/zrm-codec/src/resource_wire_v1.rs:235-332 | every proper prefix is rejected: HEADER below ten bytes, else FIELD_HEADER or FIELD_VALUE by the place of the cut in its frame |
| WireTheorems.ExtensionRejected | crates/zrm-codec/src/resource_wire_v1.rs:200-247 | every nonempty surplus is rejected: TRAILING up to the byte bound, BYTES beyond it |
| WireTheorems.EncodingsPrefixFree | crates/zrm-codec/src/resource_wire_v1.rs:107-137 | no encoding is a prefix of another |
| HashFrames.DeriveResourceId | crates/zrm-codec/src/resource_wire_v1.rs:152-188 | the pieces fed to the hasher join to the resource preimage; no width check can fail; only allocation and a zero digest can |
| HashFrames.StartFramedHash | crates/zrm-crypto/src/lib.rs:58-66 | fails iff the domain does not fit 16 bits; else feeds length, domain and payload length |
| HashFrames.Sha256ReferenceSuiteId | crates/zrm-crypto/src/lib.rs:82-85 | the digest of the framed empty payload, rejected when zero |
| HashFrames.DeriveTransparentNullifier | crates/zrm-crypto/src/lib.rs:94-107 | the digest of the framed machine, domain and resource, rejected when zero |
| HashFrames.FramedInjective | crates/zrm-crypto/src/lib.rs:58-66 | equal framed inputs have equal domains and equal payloads |
| HashFrames.ResourceIdPreimageInjective | crates/zrm-codec/src/resource_wire_v1.rs:152-166 | distinct wire values have distinct resource-id preimages |
| HashFrames.NullifierPreimageInjective | crates/zrm-crypto/src/lib.rs:94-107 | distinct (machine, domain, resource) triples have distinct nullifier preimages |
| HashFrames.OperationsSeparated | crates/zrm-crypto/src/lib.rs:58-107 | resource, nullifier and suite preimages never coincide |
| PreimageLayout.ResourceIdLayout | crates/zrm-codec/src/resource_wire_v1.rs:152-166 | the resource preimage: domain length, ASCII domain, payload length, inner length, encoding |
| PreimageLayout.NullifierLayout | crates/zrm-crypto/src/lib.rs:94-107 | the nullifier preimage: domain length, ASCII domain, the length 96, then machine, domain and resource |
| PreimageLayout.SuiteLayout | crates/zrm-crypto/src/lib.rs:82-85 | the suite preimage: domain length, ASCII domain, the length zero |
| IntrinsicResource.ReportsFirstDefect | crates/zrm-kernel/src/resource.rs:296-330 | validation accepts iff none of sixteen defects is present, and otherwise reports the first in wire order |
| IntrinsicResource.ValidationExact | crates/zrm-kernel/src/resource.rs:296-330 | every refusal with its own condition in wire order, and an accepted candidate's parts are the wire fields of those names |
| IntrinsicResource.ConstructAccepts | crates/zrm-kernel/src/resource.rs:332-346 | given an identifier, construction accepts iff there is no defect, carries that identifier, and its getters give back the whole wire value |
| IntrinsicResource.BytesSurviveConstruction | crates/zrm-kernel/src/resource.rs:160-275 | decode, construct, rebuild from getters, encode is the identity on accepted bytes |
| IntrinsicResource.FieldsDetermineBytes | crates/zrm-kernel/src/resource.rs:158-275 | two accepted resources have equal fields iff they came from equal bytes |
| IntrinsicResource.IdIsDigestOfBody | crates/zrm-kernel/src/resource.rs:154-156 | construction succeeds iff there is no defect, allocation succeeds and the digest is nonzero; the identifier is then the digest of the preimage of the body rebuilt from its getters |
| IntrinsicResource.EqualIdsMeanEqualBodies | crates/zrm-kernel/src/resource.rs:154-156 | two constructed bodies with one identifier are the same body, or their distinct preimages are a collision of the hash |
| ResourceRoles.ValidateDuplicates | crates/zrm-kernel/src/resource_roles.rs:313-325 | the pairwise scan rejects iff an identifier is repeated |
| ResourceRoles.ValidateDisjoint | crates/zrm-kernel/src/resource_roles.rs:327-342 | the crosswise scan rejects iff the roles share an identifier |
| ResourceRoles.InsertionPosition | crates/zrm-kernel/src/resource_roles.rs:289-300 | the first place holding a greater identifier; the u16 cursor never saturates |
| ResourceRoles.CopyAndSort | crates/zrm-kernel/src/resource_roles.rs:277-287 | repeated insertion yields the sorted list, or the capacity error |
| ResourceRoles.TryNew | crates/zrm-kernel/src/resource_roles.rs:140-180 | counts, duplicates, collisions, then capacity: the first failure in role order wins, else the sorted partition |
| ResourceRoles.IdLessExact | crates/zrm-kernel/src/resource_roles.rs:289-300 | one identifier precedes another iff at some place below 32 they first differ and its byte is the smaller |
| ResourceRoles.FirstFailureReported | crates/zrm-kernel/src/resource_roles.rs:140-180 | each of the twelve errors with its own condition on the proposed lists, and success otherwise |
| ResourceRoles.PartitionIsCanonical | crates/zrm-kernel/src/resource_roles.rs:140-180 | success gives strictly ascending, pairwise disjoint permutations of the inputs with exact counts within policy |
| ResourceRoles.PartitionAscendsByBytes | crates/zrm-kernel/src/resource_roles.rs:140-180 | the lists of a partition ascend by bytes |
| ResourceRoles.PartitionIgnoresOrder | crates/zrm-kernel/src/resource_roles.rs:140-180 | error or value is invariant under permuting each role's input |
| ResourceRoles.PositionIn | crates/zrm-kernel/src/resource_roles.rs:344-363 | the scan finds the first place of the identifier, or none iff it is absent |
| ResourceRoles.PositionOf | crates/zrm-kernel/src/resource_roles.rs:224-228 | a position is returned iff the identifier is present, and it names where it stands |
| ResourceRoles.PlaceExact | crates/zrm-kernel/src/resource_roles.rs:344-363 | a place is that ordinal of the list its role names |
| ResourceRoles.PlaceIsUnique | crates/zrm-kernel/src/resource_roles.rs:224-228 | an identifier stands in one role and at one ordinal only |
| ResourceRoles.EveryPlaceIsTaken | crates/zrm-kernel/src/resource_roles.rs:224-228 | every ordinal below a role's count belongs to exactly one identifier, and no other ordinal does |
| ResourceRoles.OrdinalCountsSmaller | crates/zrm-kernel/src/resource_roles.rs:344-363 | the ordinal is the number of smaller identifiers in the role |
| ResourceRoles.BindIntrinsic | crates/zrm-kernel/src/role_bound_resource.rs:117-136 | binding succeeds iff the body's derived identifier is present, and pairs the body with its place |
| VerifierCost.ComputeQuote | crates/zrm-policy/src/cost.rs:169-210 | the stepwise checked accumulation gives the verdict on the exact total |
| VerifierCost.QuoteSucceedsIff | crates/zrm-policy/src/cost.rs:169-210 | a quote succeeds iff bounds hold and the exact total fits 64 bits and both caps, with that value; overflow iff the total reaches 2^128 |
| VerifierCost.QuoteExact | crates/zrm-policy/src/cost.rs:169-210 | every outcome with its own condition on the sum written out, in the order of the checks |
| VerifierCost.UnitPrices | crates/zrm-policy/src/cost.rs:169-210 | with no bytes the total is the base, and each further artifact, statement or output byte adds its own unit price |
| VerifierCost.MultiplyNeverOverflows | crates/zrm-policy/src/cost.rs:388-394 | the product of two 64-bit numbers always fits, so the multiply check never fires |
| VerifierCost.ReservationDominates | crates/zrm-policy/src/verifier.rs:175-199 | when the reservation quote succeeds every in-bound request under the policy succeeds at no greater cost |
| VerifierCost.RequestMeans | crates/zrm-policy/src/verifier.rs:175-199 | a request takes over every bound of its policy, and the reservation asks for the policy's maxima |
| VerifierCost.ReservationIsTight | crates/zrm-policy/src/verifier.rs:192-199 | the reservation, being the request at the policy's maxima, succeeds iff every in-bound request does |
| VerifierCost.OverflowIsReachable | crates/zrm-policy/src/cost.rs:396-399 | the addition check fires on concrete admissible 64-bit inputs |
| LexicalScanner.BlankNonNewlines | tools/rust_complexity.py:140-145 | blanks the range in place except line breaks, and touches nothing else |
| LexicalScanner.RawStringEnd | tools/rust_complexity.py:148-169 | computes `RawEnd`: no raw string, its end, or unterminated |
| LexicalScanner.QuotedStringEnd | tools/rust_complexity.py:172-186 | the escape-toggling loop stops at the first quote behind an even run of backslashes |
| LexicalScanner.BlockCommentEnd | tools/rust_complexity.py:230-243 | the depth-counting loop returns the end of the nested comment, or unterminated |
| LexicalScanner.BlankNext | tools/rust_complexity.py:223-263 | one turn blanks exactly the segment at the cursor unless it is code |
| LexicalScanner.BlankNextComment | tools/rust_complexity.py:278-314 | one turn blanks exactly the segment at the cursor if it is a comment, and steps over literals |
| LexicalScanner.StripNonCode | tools/rust_complexity.py:218-264 | the loop's output is the source with every segment but code blanked |
| LexicalScanner.StripRustComments | tools/rust_complexity.py:273-315 | the loop's output is the source with only comments blanked |
| SegmentForms.NonCodeStripped | tools/rust_complexity.py:218-264 | the full scanner returns a text iff the source is a row of comments, literals and code by their forms, and the text shows all but the code blanked |
| SegmentForms.CommentsStripped | tools/rust_complexity.py:273-315 | the comment scanner returns a text iff, in the same row, it shows the comments alone blanked |
| LexicalScanner.StrippingKeepsShape | tools/rust_complexity.py:140-264 | length and exact newline positions are kept; every other character is kept or a space |
| LexicalScanner.CodeStandsAlone | tools/rust_complexity.py:218-264 | a character classed as code is one at which the scan stood and nothing else began |
| LexicalScanner.KindsExact | tools/rust_complexity.py:218-264 | a character is code, comment or literal iff it lies in a segment of that kind which opens where the scan stood |
| SegmentForms.SegmentExact | tools/rust_complexity.py:218-264 | one turn takes a segment of a kind up to a place iff the text there has that form: line comment, block comment, raw string, string, character literal, or none of these |
| SegmentForms.LineCommentExact | tools/rust_complexity.py:224-228 | a line comment ends at the first line break after its slashes, or at the end of the text, and nowhere else |
| LexicalScanner.BlankedIsNotCode | tools/rust_complexity.py:218-264 | a character is changed iff it is no space or line break and lies in a comment or literal that opens where the scan stood, so nothing else is blanked |
| LexicalScanner.NoQuotesOrCommentsRemain | tools/rust_complexity.py:218-264 | stripped source holds no double quote, no line-comment and no block-comment opener |
| LexicalScanner.ScannersAgree | tools/rust_complexity.py:218-315 | both scanners fail on the same inputs with the same error, agree wherever code was left, and whatever one blanks as comment the other blanks too |
| LiteralForms.QuotedEndExact | tools/rust_complexity.py:172-186 | a string ends just past its first closing quote, both directions |
| LiteralForms.RawStringExact | tools/rust_complexity.py:148-169 | all three outcomes: none unless a prefix, n hashes and a quote stand there; then the end of the first later quote with n hashes, or unterminated iff there is none |
| LiteralForms.CharacterLiteralExact | tools/rust_complexity.py:189-215 | a tick begins a literal ending at a place iff the text prints one of four shapes: single, two-character hex, braced unicode, other escape |
| LiteralForms.BlockCommentExact | tools/rust_complexity.py:230-243 | a comment ends at a place iff its inside is the printed form of a nested comment tree |
| LexicalScanner.FailureExact | tools/rust_complexity.py:218-264 | the scan fails with an error iff it stands at a place where reading a segment fails with that error |
| LiteralForms.SegmentFailure | tools/rust_complexity.py:148-243 | reading a segment fails iff a block comment, raw string or string opens there and never ends, each with its own error |
| LiteralForms.StrippingFailsExactly | tools/rust_complexity.py:218-315 | either scanner fails with an error iff it reaches something of that sort which never ends |
| Delimiters.DelimiterPairs | tools/rust_complexity.py:339-359 | succeeds iff each bracket kind balances on its own, with exactly the matched positions; an error names the first underflow or the lowest unclosed opening |
| Delimiters.PartnerUnique | tools/rust_complexity.py:339-359 | a position has at most one matching position |
| BracketCounts.DepthExact | tools/rust_complexity.py:342-343 | the depth of each kind is how often its opening text stands among the tokens less how often its closing text does |
| Parameters.ParameterSegments | tools/rust_complexity.py:368-403 | the loop returns the nonempty pieces between top-level commas, in order |
| Parameters.CountersExact | tools/rust_complexity.py:374-394 | after any number of tokens each of the four counters is the largest surplus of its brackets over the stretches ending there |
| Parameters.SeparatesExact | tools/rust_complexity.py:395-398 | a token separates iff it is a comma and no stretch ending there opens more brackets of any kind than it closes |
| Parameters.SplitExact | tools/rust_complexity.py:368-403 | only the scan's pieces rejoin to the list with every comma inside them inside some bracket and each closed where a comma follows, all on token texts |
| Parameters.NonemptyExact | tools/rust_complexity.py:396-402 | the segments are the nonempty pieces, none dropped, moved or repeated |
| Parameters.PiecesExact | tools/rust_complexity.py:368-403 | each piece, read on its own, has no top-level comma and, but for the last, ends outside all brackets; rejoined with the separating commas the pieces are the token list |
| Parameters.SplitUnique | tools/rust_complexity.py:368-403 | those properties hold of one split only, the one the scan makes |
| Parameters.RoundIsTrueDepth | tools/rust_complexity.py:378-382 | between matched round brackets the guard on the round counter never fires: the counter is the true depth |
| Parameters.ReceiverExact | tools/rust_complexity.py:406-413 | a segment is a receiver iff some `self` in it has no colon before it |
| Parameters.PositionalParameterCount | tools/rust_complexity.py:416-419 | counts the nonempty pieces that are not receivers |
| Parameters.PositionalExact | tools/rust_complexity.py:416-419 | the count is the number of places of the split that are neither empty nor a receiver |
| FunctionBodies.PairsAreAnInvolution | tools/rust_complexity.py:339-359 | the pairs cover every bracket, are their own inverse, fix nothing, and lead from an opening to a later closing of its kind |
| FunctionBodies.SpansNestOrSeparate | tools/rust_complexity.py:339-359 | spans of one kind are nested or disjoint |
| FunctionBodies.FunctionBlockDepth | tools/rust_complexity.py:422-437 | succeeds iff the body is self-contained, with the true maximum nesting; each error says what went wrong and where |
| FunctionBodies.BodyIsSelfContained | tools/rust_complexity.py:495-514 | between matched braces neither error of the depth computation can occur |
| FunctionBodies.FindParameterList | tools/rust_complexity.py:450-462 | the first round bracket, unless the declaration or file ends before it |
| FunctionBodies.CountersTrack | tools/rust_complexity.py:468-493 | the three depth counters equal openings less closings along the walk, and fail exactly where a bracket closes too much |
| FunctionBodies.FindTerminator | tools/rust_complexity.py:463-504 | the scan, which jumps over whole blocks, terminates, never misses a partner, and returns what the first deciding position calls for |
| SignatureForms.DecidesExact | tools/rust_complexity.py:468-493 | a token decides iff a round or square bracket closes too much up to it, or it ends a declaration where those balance and no angle bracket is open |
| SignatureForms.TerminatorExact | tools/rust_complexity.py:463-504 | over exact pairs the result, errors included, is what the texts of the examined tokens call for |
| FunctionBodies.TerminatorUnique | tools/rust_complexity.py:463-504 | the walk of examined positions stops in one place only, so that result is the only possible one |
| FunctionBodies.BodyDepth | tools/rust_complexity.py:510-514 | the depth recorded for a body is the maximum nesting between its matched braces |
| FunctionBodies.ExtractFunction | tools/rust_complexity.py:447-527 | parameter list, positional count, terminator and block depth of one declaration; each error names the defect that is really there |
| SignatureForms.DeclarationExact | tools/rust_complexity.py:447-527 | over exact pairs a function has an extent iff the texts read so: first round bracket, matching close, terminator, count and deepest nesting |
| SignatureForms.DefectExact | tools/rust_complexity.py:447-504 | over exact pairs a function has a defect iff the texts read so: no parameter list, or a scan that fails with that error |
| FunctionBodies.SitesExact | tools/rust_complexity.py:446-448 | the sites of extraction are exactly the `fn` tokens with an identifier after them, ascending |
| FunctionBodies.ExtractFunctions | tools/rust_complexity.py:440-527 | one extent for each site, in order, or the error of the first defective declaration, all earlier ones being sound |
| FunctionBodies.ExtentUnique | tools/rust_complexity.py:440-527 | a declaration has one extent at most, so the result of extraction is fixed |
| FunctionBodies.SoundIsNotDefective | tools/rust_complexity.py:440-527 | a declaration whose parameter list and scan are sound, as those of every extracted one are, has no defect |
| FunctionBodies.MeasureFunctions | tools/rust_complexity.py:598-605 | matching and extraction together: the pairs that matching yields are all that extraction asks for, and unbalanced source is reported by matching |

## Left out

- SHA-256, collision resistance and the zero-digest event: external; statements are about preimages.
- Why an allocation fails: success is a boolean input, reported as the source reports failure.
- The README's machine state, nullifier set and atomic commit: described there, not implemented in these files.
- `KindBasis.root`, `semantic_root`, `proof_topology_root`, `ShieldedTransitionFact`, `singleton`: hashing or comparison of given fields; a certificate keeps the basis where the source keeps its root.
- DelegationPlan.CheckTasksAccepts: leaves out the fields with no bearing on states (title, phase, class, boundary, packages, contract ids, negatives, path formats, oracle kind and status names, prose), each a membership or pattern check on one field.
- DelegationPlan.ValidatePlan: leaves out the schema, version, review policy, task contract and prose checks that come before the tasks, each a comparison of one field with a constant, and the JSON types of all fields.
- `load_task_files`, file and path checks: plan data starts after loading.
- Policy ceilings other than the three role counts, machine policy, resource-kind policy, validity windows: short branch tables.
- The cost model's schema version and rows root, candidate validation: single comparisons.
- Error message texts, diagnostic labels, `Debug` redaction: string tables.
- FunctionBodies.ExtractFunction: leaves out the name, the two line numbers, which are fields of tokens the extent names, and the count of noncomment lines.
- FunctionBodies.ExtractFunctions: leaves out the same fields of each entry.
- FunctionBodies.MeasureFunctions: leaves out public-trait extraction, the line count of the file and its digest.
- Tokenisation by regular expression: delimiter properties start from a given token sequence.
- Idempotence of `_strip_non_code`: not claimed; a blanked comment inside an unfinished escape can become a literal on a second pass.
- Dictionary iteration order: `SearchAll` visits in input order, where the source visits each identifier once in first-insertion order; repeated visits return at once.
- The shape of three loops: one turn of each scanner's loop is a method of its own, consecutive 32-byte fields are read and written two at a time through a helper, and the depth counters of the signature and parameter scans are one value with a function `After`. Order, branches and results are those of the source; character-literal and segment rules are functions, since they only compute.
