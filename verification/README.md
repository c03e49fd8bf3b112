# Verified model of skil's scanner algorithms

skil is a static scanner for agent skills. Most of it matches patterns, but some of its parts are algorithms on which
its verdicts rest, and this project models those and proves what they are for:

- **Binary decoders.** The bounded decoder for CPython's marshal format behind the `.pyc` check
  (`Marshal*.dfy`), the pickle disassembler (`Pickle*.dfy`), the WebAssembly section walk (`Wasm.dfy`) and the charset
  canonicalization (`Unicode.dfy`, `Encoding*.dfy`). Each is proved against an encoder of its own: decoding undoes
  encoding and consumes exactly the encoding, and marshal and UTF-16 accept nothing but encodings. The tables
  inside the marshal and pickle decoders are proved to agree with a second description that names every object type,
  code-object field and opcode with the bytes it is written as (`MarshalNamed.dfy`, `PickleOpcodes.dfy`).
- **Graph and fixpoint algorithms.** Delegation cycles and scopes (`Delegation.dfy`), transitive authority
  (`Authority*.dfy`), taint propagation (`Taint.dfy`) and the walk over decoded code objects (`MarshalWalk.dfy`), each
  against a declarative statement: a cycle exists, a shortest walk exists, the least closed set, reachability.
- **Edit distance.** The one-row algorithm is the minimum edit script and a metric (`Levenshtein.dfy`).
- **Assurance state.** Closure canonicalization and exact comparison (`Closure*.dfy`), authorization constraints over
  delegation chains and contexts that share their storage (`Constraint*.dfy`, `Contexts.dfy`), version ranges
  (`Version*.dfy`, `Rule*.dfy`), the prerequisite ledger under every interleaving (`Prerequisite*.dfy`), the container
  expander with its shared budget (`Nested*.dfy`) and the evidence graph (`EvidenceGraph*.dfy`).

Code that changes state step by step is a class or a loop here as it is in the program: the marshal reader and the pickle
scanner with their position and tables, the cycle detector, the code-object walk, the edit-distance row, the ledger, the
container budget, the derivation of a child context in shared storage and the evidence graph. Each such method is proved
against a function or predicate whose properties are then proved as lemmas. `Orders.dfy` holds the string order and the
contract of the library sort, which is not stable: a caller may rely on an ordered permutation and on nothing else.

The functions that those statements rest on, such as the order of versions, the keys of maps, the names kept of a code
object or the effect of an opcode, are described a second time, without their own definitions: by fields, characters,
positions and bytes (`*Meaning.dfy`, `MarshalNames.dfy`, `VersionOrder.dfy`, `AuthorityTrails.dfy`, `ClosureDrift.dfy`,
`PrerequisiteNeeds.dfy`, `PickleEffects.dfy`).

Regular expressions, tree parsing, archive reading, lower-casing, digests and the clock are parameters: attributes of the
input or arbitrary functions; the clock is a function of how often it was asked, which may answer anything. A digest is
assumed collision-free only where a statement says so. 32-bit fields, and the sizes and lengths read from WebAssembly and
pickle data, are signed two's complement as in the code, wrap-around included.

## What the proofs found

Where a property one would expect does not hold of the code, the code is modelled as it is, a lemma gives an input, and
the exact condition is proved where there is one.

- A WebAssembly section size of ten bytes can decode to a negative number. One of -11 takes the section loop back to
  where it was, for ever, on a file of 19 bytes (`BackwardsForEver`); a lower one makes it read out of range
  (`BackwardsOutOfRange`). The loop ends with an answer exactly when it never reads at a negative position and never
  comes back to a position (`AnswersExactly`), as on every well-formed module (`ModuleImports`).
- A pickle length prefix that takes position plus length past the largest integer makes the scan panic, and everything
  named before it is lost (`HugeLengthLosesAll`). That is the only damage that hides anything: names survive if and only
  if no length read in the damaged part overflows (`DamageHidesExactly`).
- A container found at depth 3 is not expanded and no warning says so (`SilentAtDepthLimit`), nor is one whose turn comes
  when the budget has just run out, if it is the last file (`SilentAtBudgetEnd`). A run without a warning is complete
  exactly when neither happened (`CompleteExactly`); the first alone can happen when the archives are clean and need less
  than the budget (`AmpleRun`).
- Nodes with equal sort keys, and edges that share a text (`EdgesCanShareText`), have two canonical forms. Finalizing is
  independent of order exactly when there are neither (`OrderIndependentExactly`); it is idempotent, and its digest is
  that of what it shows, exactly when there are no tied nodes (`IdempotentExactly`, `DigestExactly`); and verification is
  exact exactly when the current closure has no tied nodes or is incomplete anyway (`VerifyExactly`).
- The code-object walk stops at depth 200, which a chain of code objects built with back-references exceeds: in such a
  file, shallow to decode, the name at the end is missed exactly when the chain has more than 200 links (`NamesOfTower`).
  Back-references to code are what it takes: without them every name is found (`ExtractedNamesOfEncoding`). Even a name two
  constants from the root can be missed, when a long chain leads to the object in between first, at the depth limit
  (`NamesOfShortcut`: of these files only the one with 201 links). What is visited is everything reachable exactly when it
  is closed under constants (`WalkIsCompleteExactly`).
- Cycle keys are agent names joined with a comma, so two cycles with different agents can share a key when names contain
  commas (`CommasShareAKey`), and then no report has both (`SharedKeyHidesACycle`). Emptiness of the report is exact in any
  case, and every cycle has an edge that closes a reported cycle when keys tell cycles apart, as they do without commas
  (`CommaFreeAgents`); when they do not and the two cycles share no edge with others, the report fails
  (`SharedKeyFailsTheReport`).
- `DeriveChild` compares constraints before it trims them. An effective constraint that differs from a denied one only by
  surrounding blanks is invisible to the comparison and joins the denied authority afterwards
  (`CleanReportCanHideAnAllow`); preservation survives finalizing exactly when there is no such near miss
  (`PreservedAfterFinalize`).
- `DeriveChild` overwrites its parent: the child holds the parent's constraint storage. A finalized parent keeps its
  constraints exactly when they already belong to the child's principal (`ParentKeepsItsOwnExactly`), and of two children
  the first ends up with the second's constraints under its own old digest (`DeriveSiblings`).
- `contradictory` probes no version below a lone strict cap such as `<2.0.0` and calls it contradictory
  (`LoneCapIsCalledContradictory`, exact condition in `ContradictoryWithoutFloor`). It also misses ranges between strict
  bounds with no release between them, such as `>1.0.0` with `<1.0.1` (`OnlyPrereleaseIsGap`) and `>1.0.0-alpha` with
  `<1.0.0-beta` (`PrereleaseGap`). For every well-formed rule, prerelease clauses included, the answer is range membership
  exactly outside these two families (`AnswerExactly`).
- A prerelease identifier such as `-5` is parsed as a negative number and lies below `1`, where section 11 has a text above
  every number (`HyphenIsMisread`); the texts that are not read as section 11 reads them are exactly those and the numbers
  past 64 bits (`ReadRightExactly`).
- A conflicting duplicate after a blocking node overwrites UNSAFE with UNKNOWN (`ConflictMasksUnsafe`); UNSAFE is
  characterised exactly in `FinalizeUnsafe`.
- In `ApplyPrerequisites` a stray settlement, or a failure that arrives after the snapshot, lowers the outcome but adds no
  limitation of its own (`LateCallLowersInSilence`). An outcome is lowered without a limitation exactly when everything in
  a snapshot that is not empty was loaded and the ledger is incomplete at the final check (`LoweredInSilenceExactly`).

## Model

| member | source | states |
|---|---|---|
| MarshalRoundTrip.DecodeEncode | internal/analyzer/marshal.go:141-431 | Reading the encoding of any object tree, in each of the three code layouts, with flagged objects and back-references to completed slots, within the depth and object limits and whatever bytes follow, yields the tree's meaning, leaves exactly what follows, fills the reference table as the tree says and spends exactly its objects |
| MarshalAccepts.Accepts | internal/analyzer/marshal.go:141-431 | Whatever bytes decode successfully are the encoding of some well-formed tree within the limits: the decoder accepts nothing else |
| MarshalAccepts.DecodesExactlyTheEncodings | internal/analyzer/marshal.go:141-170 | Decoding succeeds if and only if the input starts with the encoding of a well-formed tree whose back-references are resolvable and which fits the object budget and the depth limit |
| MarshalShape.EvalLayered | internal/analyzer/marshal.go:156-170 | Reading an object keeps every code object completed and every slot filled before it, as they were, and its value refers only to code objects completed by then |
| MarshalShape.DecodedCodeIsAcyclic | internal/analyzer/marshal.go:156-170 | For every input that decodes, each code object's constants refer only to code objects completed earlier, so completion order is a topological order |
| MarshalShape.TableIsPreOrder | internal/analyzer/marshal.go:153-168 | The reference table gets exactly one entry for each flagged object, in the order of their type bytes: the k-th new slot holds exactly what the k-th flagged object means given the tables reached when its type byte is read, back-references included; every earlier entry is kept |
| MarshalReaders.MarshalReader.ReadObject | internal/analyzer/marshal.go:141-170 | The in-place reader computes the specification's result and leaves position, reference table, objects and budget in the specification's state, failing exactly when it fails |
| MarshalReaders.MarshalReader.ReadObjectBody | internal/analyzer/marshal.go:172-304 | The same for everything behind a type byte |
| MarshalReaders.MarshalReader.ReadItems | internal/analyzer/marshal.go:306-316 | The same for a counted run of objects |
| MarshalReaders.MarshalReader.ReadDict | internal/analyzer/marshal.go:277-290 | The same for the NULL-terminated key and value loop |
| MarshalReaders.MarshalReader.ReadCodeObject | internal/analyzer/marshal.go:331-431 | The same for a code object: the fields of each layout are read in schedule order, and only constants and names are kept; `MarshalNames.NamesAreMembers` says which texts the names are |
| MarshalReaders.MarshalReader.NextInt32 | internal/analyzer/marshal.go:128-134 | Four little-endian bytes as a signed 32-bit integer, or failure without moving |
| MarshalReaders.MarshalReader.Next | internal/analyzer/marshal.go:119-126 | Exactly the requested bytes, or failure without moving when the count is negative or too large |
| MarshalWalk.Walker.Walk | internal/analyzer/marshal.go:464-478 | The recursive walk marks exactly the objects its specification visits, all of them within reach of the root, collects exactly the names of those, and, when no chain of constants is longer than the limit, leaves the marked set closed under constants |
| MarshalWalk.ExtractPycNames | internal/analyzer/marshal.go:448-481 | Succeeds exactly on a known version and a stream that decodes to a code object; the names are exactly those of the objects visited, which are names of code objects at most 200 constants away from the root, and of all reachable ones when no chain of constants exceeds the depth limit; `MarshalNames.NamesOfFile` says what they are in terms of the file |
| MarshalReach.ExtractedNamesOfEncoding | internal/analyzer/marshal.go:448-481 | From the encoding of any tree within the limits, with any trailing bytes, whose back-references stand for no code object, exactly the names of all code objects reachable from the root are collected: the walk's depth limit hides nothing there |
| MarshalReach.TreeIsBounded | internal/analyzer/marshal.go:464-478 | Why: in a tree without back-references to code no chain of constants is longer than the tree is deep, whatever tables it is read with |
| MarshalTower.NamesOfTower | internal/analyzer/marshal.go:448-481 | A file of any number of links within the object budget, decoded no deeper than five levels, in every known version: the extraction succeeds, and the one name, at the end of a chain of back-references, is among the names if and only if the chain has at most 200 links |
| MarshalTower.TowerDecodes | internal/analyzer/marshal.go:141-431 | The bytes of that file, written object by object, decode whatever follows them to a chain of that many code objects with the name in the last |
| MarshalTower.TowerHidesItsName | internal/analyzer/marshal.go:464-478 | In that chain the name is always reachable, and belongs to what the walk may collect exactly when the chain has at most 200 links |
| MarshalReach.WalkIsCompleteExactly | internal/analyzer/marshal.go:464-478 | For every table and root: the walk visits all code objects reachable from the root if and only if no object it visits has a code constant it does not visit |
| MarshalShortcut.NamesOfShortcut | internal/analyzer/marshal.go:448-481 | A file whose root refers to the top of a tower of n links and also, directly, to its second lowest storey: the extraction succeeds, and the name in the lowest storey is missed if and only if n is 201, when the walk first meets the storey above at its depth limit and marks it seen |
| MarshalShortcut.TwoConstantsAway | internal/analyzer/marshal.go:464-478 | In that file the name is two constants away from the root, whatever the height |
| MarshalShortcut.FileDecodes | internal/analyzer/marshal.go:141-431 | The bytes of that file decode, whatever follows them |
| MarshalNamed.EncodingAgrees | internal/analyzer/marshal.go:26-57 | The bytes CPython writes for every Python object, described by name and by the fields of a code object in each version, are the encoding of a well-formed tree: an independent description that the tables of type bytes and field schedules agree with |
| MarshalNamed.TypeByteKind | internal/analyzer/marshal.go:26-57 | What follows each named type byte |
| MarshalNamed.KindsAreTheSchedule | internal/analyzer/marshal.go:343-413 | The fields of a code object in the order of each of the three layouts |
| MarshalNamed.DecodeWritten | internal/analyzer/marshal.go:141-431 | Decoding the bytes written for any Python object, with any flags and resolvable back-references, within the limits and whatever follows, yields what the object stands for and consumes exactly those bytes |
| MarshalNamed.LeavesMean | internal/analyzer/marshal.go:172-252 | Strings are kept, scalars and byte strings are dropped, and a back-reference stands for the object in its slot |
| MarshalNamed.CodeKeepsConstsAndNames | internal/analyzer/marshal.go:318-431 | In every layout a decoded code object holds exactly the constants of its constants field and, of its names field, the strings that `MarshalNames.StringsAreKept` characterises |
| MarshalNames.StringsAreKept | internal/analyzer/marshal.go:424-431 | Of a list of values exactly the strings are kept: a text is kept if and only if it stands in the list as a string |
| MarshalNames.ListMeansMembers | internal/analyzer/marshal.go:259-276 | A list means what its members mean, one by one and in order, each read with the tables its predecessors leave |
| MarshalNames.MembersAreItems | internal/analyzer/marshal.go:259-276 | The k-th member of the tree of a written list is the k-th object written in it |
| MarshalNames.ListObjectMeans | internal/analyzer/marshal.go:259-276 | A written tuple or list, flagged or not, means the list of what its members mean |
| MarshalNames.NamesAreMembers | internal/analyzer/marshal.go:406-431 | A text is a name of a decoded code object exactly when some member of the names tuple written for it stands for that string, as a string written there or as a back-reference to one |
| MarshalNames.ObjectsArePostOrder | internal/analyzer/marshal.go:318-431 | The decoded objects are the code objects of the tree in the order of completion: for each, the second object field gives its constants, and its names are exactly the texts that members of its third object field mean |
| MarshalNames.NamesOfFile | internal/analyzer/marshal.go:448-481 | From the bytes written for any code object within the limits, in any known version and whatever follows: a text is among the extracted names if and only if a member of the written names list of some visited code object stands for it |
| MarshalNames.LayoutMeaning | internal/analyzer/marshal.go:80-91 | Of the versions 3.0 to 3.99, 3.7 has the first layout, 3.8 to 3.10 the second, 3.11 to 3.13 the third, and no other has one |
| MarshalNames.OtherVersionsAreUnknown | internal/analyzer/marshal.go:80-91 | No other version text at all has a layout |
| Bytes.FromLe32OfLe32 | internal/analyzer/marshal.go:128-134 | Reading a signed 32-bit integer undoes writing it |
| Bytes.Le32OfFromLe32 | internal/analyzer/marshal.go:128-134 | Writing a signed 32-bit integer undoes reading it |
| Bytes.LowestByteFirst | internal/analyzer/marshal.go:128-134 | The lowest byte comes first, and the number is negative exactly when the highest bit is set |
| EditDistance.Levenshtein | internal/analyzer/dependency.go:249-269 | The one-row algorithm returns the length of a shortest script of insertions, deletions and substitutions turning one string into the other: some script has that length and none is shorter |
| EditDistance.NextRow | internal/analyzer/dependency.go:256-267 | One pass over the row in place turns the distances of one prefix into those of the next |
| EditDistance.NoShorterScript | internal/analyzer/dependency.go:249-269 | No edit script is shorter than the distance |
| EditDistance.ShortestScript | internal/analyzer/dependency.go:249-269 | Some edit script is as short as the distance |
| EditDistance.DistanceZero | internal/analyzer/dependency.go:249-269 | The distance is zero exactly on equal strings |
| EditDistance.DistanceSymmetric | internal/analyzer/dependency.go:249-269 | The distance is symmetric |
| EditDistance.Triangle | internal/analyzer/dependency.go:249-269 | The distance obeys the triangle inequality |
| EditDistance.TyposquatTarget | internal/analyzer/dependency.go:225-238 | Reports the first popular name that differs from a candidate of at least six bytes of UTF-8 and is at most two edits away, with that distance, and nothing when there is none |
| EditDistance.ByteLengthMeaning | internal/analyzer/dependency.go:233-233 | The length that is tested is that of the UTF-8 form of the name (section 3 of RFC 3629) |
| Delegation.DetectDelegationCycles | internal/analyzer/multi_agent.go:160-206 | Every reported list is a real directed cycle without repeated agents; the report is empty exactly when the graph is acyclic; no two reported cycles have the same agents or the same key; every cycle of the graph has an edge on which a cycle with a reported key closes; and when simple cycles with one key have the same agents, every directed cycle has an edge from the last to the first agent of some reported list |
| Delegation.CycleDetector.Dfs | internal/analyzer/multi_agent.go:176-199 | One visit keeps the stack a path of the graph, records only real cycles, and settles the node: each of its edges goes to a node finished earlier or closes a recorded cycle |
| Delegation.CycleDetector.Follow | internal/analyzer/multi_agent.go:182-196 | One child: a child on the stack is reported, an unvisited one is explored, and either way its edge is settled |
| Delegation.CycleDetector.Report | internal/analyzer/multi_agent.go:183-191 | The stack from the child upwards is a cycle closed by this edge, and exactly that list is appended if its key is new, and nothing otherwise |
| Delegation.OneListPerAgents | internal/analyzer/multi_agent.go:183-191 | Two stack segments with the same agents are the same list, because the stack is in the order in which agents were entered: why a cycle left out as already seen was reported with the same ends |
| Delegation.DelegatesMeaning | internal/analyzer/multi_agent.go:163-170 | An agent delegates to another exactly when its last entry lists it: the graph the cycles are about |
| Delegation.ByIdMeaning | internal/analyzer/multi_agent.go:219-226 | The entry whose scope counts for an agent is its last |
| Delegation.SettledCoversEveryCycle | internal/analyzer/multi_agent.go:176-205 | When all nodes are settled, every directed cycle contains an edge that closes a recorded cycle |
| Delegation.NoCyclesIffAcyclic | internal/analyzer/multi_agent.go:160-206 | A finished search that reported nothing means an acyclic graph, and conversely |
| Delegation.RunSummary | internal/analyzer/multi_agent.go:160-206 | What a finished search means, put together from its invariants |
| Delegation.CommaFreeAgents | internal/analyzer/multi_agent.go:186-190 | Without commas in agent names, simple cycles with one key have the same agents |
| Delegation.SharedKeyHidesACycle | internal/analyzer/multi_agent.go:186-190 | Of any two simple cycles with different agents and one key, no report that keeps its promises has both |
| Delegation.SharedKeyFailsTheReport | internal/analyzer/multi_agent.go:186-190 | If no other cycle runs along the edges of either, no such report closes every cycle |
| Delegation.CommasShareAKey | internal/analyzer/multi_agent.go:186-190 | A concrete graph with two such cycles without a common agent, of which no report closes every cycle |
| Delegation.DetectScopeEscalations | internal/analyzer/multi_agent.go:218-256 | Every report is justified by a delegation from a scoped agent to a scoped agent with exactly those extra scopes, sorted; every widening delegation is reported; reports come in the order of the delegators |
| Delegation.ParentEscalations | internal/analyzer/multi_agent.go:228-253 | The same for one delegator, in the order of its children |
| Delegation.NoEscalationContainsChains | internal/analyzer/multi_agent.go:214-217 | When nothing is reported, an agent at the end of a chain of scoped delegations of any length has no scope its first agent lacks |
| Authority.TransitiveEscalations | internal/assurance/context.go:310-371 | Fails exactly when a budget is exceeded; otherwise reports exactly the denied, evidence-backed authorizations whose source is reachable from the root in fewer than the depth limit of evidence-backed traversal edges, each edge once, each with a valid and shortest path and its evidence, in order |
| Authority.Search | internal/assurance/context.go:338-363 | The breadth-first loop terminates on every graph, cyclic or not, with exactly the escalating edges found |
| Authority.SearchIsExhaustive | internal/assurance/context.go:338-363 | Every node reachable within the depth limit has been enqueued, at a depth no larger than any walk to it |
| Authority.Progresses | internal/assurance/context.go:341-363 | Each step removes a node from those still to be expanded, because no node is enqueued twice: why the loop ends |
| Authority.Follow | internal/assurance/context.go:351-361 | One edge: nothing changes if its target was seen, and otherwise the target is enqueued, one deeper, with path and evidence extended by the edge, and marked seen at that depth |
| Authority.Expand | internal/assurance/context.go:347-362 | One node: its granting edges are found once each, and all its traversal edges are followed |
| Authority.FinishedIsExact | internal/assurance/context.go:341-363 | When the queue is empty, what was found is exact |
| AuthorityTrails.TraversesMeaning | internal/assurance/context.go:348-356 | The edges that pass authority on are exactly the evidence-backed ones whose relation is delegation, invocation, calling, controlling or executing |
| AuthorityTrails.ReachMeaning | internal/assurance/context.go:341-363 | A node is reached in n steps exactly when a trail of n such edges leads to it, head to tail |
| AuthorityTrails.EscalationMeaning | internal/assurance/context.go:338-363 | An edge is an escalation exactly when it is an evidence-backed authorization of a denied capability at the end of a trail of fewer edges than the depth limit |
| AuthorityTrails.ReportMeaning | internal/assurance/context.go:347-371 | Each report gives the root, the capability and a path from the root to both ends of the edge, as short as any trail there, with one piece of evidence for each edge, the last being that of the edge itself |
| Constraints.FinalizeBindsDigest | internal/assurance/context.go:52-79 | Finalizing is idempotent, ignores a stale digest, and gives two complete constraints the same digest exactly when their trimmed terms agree, given a collision-free hash |
| Constraints.CompareConstraints | internal/assurance/context.go:97-130 | The drifts are one per declared constraint, sorted by id, judged against the effective constraints of the same authority; all are PRESERVED exactly when every declared constraint is matched once, with the same effect and no confirmation dropped |
| Constraints.PreservationComposes | internal/assurance/context.go:94-130 | If a list is preserved in a second and the second in a third, the first is preserved in the third |
| Constraints.PreservedAlongChain | internal/assurance/context.go:94-130 | Preservation composes over chains of any length |
| Constraints.DenySurvivesChain | internal/assurance/context.go:94-130 | At the end of a preserved chain a constraint of the first list still has its effect: a DENY is a DENY for every constraint of that authority, and a required confirmation is still required |
| Contexts.DeriveChild | internal/assurance/context.go:204-260 | The child's fields, finalized constraint lists, drifts with their reasons, limitations with their texts and the digest of the child without its own digest, and exactly when it fails; it is never verified. It works in place: the child holds the parent's constraint storage, and its effective authority unless the delta replaces that, so the parent's constraints are renamed to the child, finalized and sorted, and the drifts show them as renamed |
| Contexts.FinalizeContext | internal/assurance/context.go:171-200 | Both lists are finalized and sorted in place, also when they are the same storage; exactly when it fails; what the digest is taken of |
| Contexts.ParentKeepsItsOwnExactly | internal/assurance/context.go:214-221 | A parent whose constraints are finalized keeps them, up to order, if and only if each already belongs to the child's principal |
| Contexts.BelongToChild | internal/assurance/context.go:214-221 | Every constraint left in the shared storage belongs to the child's principal |
| Contexts.DeriveSiblings | internal/assurance/context.go:204-260 | Two children of one parent hold the same constraints: after the second is derived, those of the first all belong to the second, while its digest is still that of those it had |
| Contexts.HeldUnderTheChildsName | internal/assurance/context.go:214-252 | When constraints are compared, each stands under the name of the child and without a digest, and is otherwise what the parent held, or the replacement where there is one |
| Constraints.PreservedAfterFinalize | internal/assurance/context.go:245-259 | A list reported as preserved is still preserved once finalized if and only if no constraint in it differs from a held one merely by surrounding blanks |
| Constraints.DelegationsPreserve | internal/assurance/context.go:204-260 | Over any number of delegations with clean reports and no such near miss, the last agent's finalized authority preserves the first agent's |
| Constraints.CleanReportCanHideAnAllow | internal/assurance/context.go:245-259 | For every DENY there is an effective list that is reported as preserved and yet holds the same authority under a name that finalizing trims to the denied one |
| ConstraintMeaning.TrimMeaning | internal/assurance/context.go:53-57 | Trimming takes away the characters with the White_Space property of Unicode at both ends, all of them, and nothing else |
| ConstraintMeaning.FinalizeMeaning | internal/assurance/context.go:52-79 | A constraint can be finalized exactly when none of its four parts is blank and its effect is ALLOW or DENY; what comes out has the trimmed parts and everything else but the digest and a missing id as it was |
| ConstraintMeaning.DigestMeaning | internal/assurance/context.go:52-79 | Two finalized constraints have one digest exactly when their trimmed parts, effect, confirmation and provenance agree, given a collision-free hash |
| ConstraintMeaning.MatchesMeaning | internal/assurance/context.go:98-104 | The constraints compared with a declared one are exactly those of the same action, resource and scope, as often as they occur |
| ConstraintMeaning.DriftMeaning | internal/assurance/context.go:105-129 | The verdict case by case: LOST when nothing speaks of the authority, CONFLICTING when several constraints do, and of one that speaks alone PRESERVED, WEAKENED and LOST each exactly under its condition on effects and confirmations |
| ConstraintMeaning.ReasonMeaning | internal/assurance/context.go:105-129 | The reason text of each verdict |
| ConstraintMeaning.ComplaintsMeaning | internal/assurance/context.go:253-257 | Every drift but a preserved constraint, and nothing else, leaves its sentence behind: verdict, boundary and reason |
| Taint.Propagate | internal/analyzer/taint.go:452-512 | The loop always leaves through the no-change exit, within one pass more than there are assignments; the tainted keys are then exactly those some chain of unsanitised assignments leads to and, for names without colons, exactly the keys of the variables, told apart by scope and name, that such a chain leads to; they are the least set closed under the assignments with scope shadowing, and the origin recorded for each is that of the source or privileged name at the start of some chain that ends there |
| Taint.Pass | internal/analyzer/taint.go:463-508 | One pass either makes an assignment fire for the first time or leaves the tainted keys closed, and taints nothing that no chain leads to |
| Taint.Origin | internal/analyzer/taint.go:466-497 | An unsanitised assignment gets an origin exactly when it names a source, reads a tainted name visible in its scope, or assigns a privileged name; the origin is its own or that of a name it reads |
| Taint.TaintTargets | internal/analyzer/taint.go:498-507 | All targets become tainted, nothing tainted changes its origin, and a change is reported exactly when a key is new |
| Taint.LookupIsHot | internal/analyzer/taint.go:437-450 | A name is tainted when its own scope's key is, or when its scope does not assign it and the module's key is |
| Taint.FlowStaysInClosed | internal/analyzer/taint.go:463-511 | Every chain of assignments stays inside every closed set |
| Taint.ClosedFlowsAreLeast | internal/analyzer/taint.go:463-511 | A closed set of keys that chains lead to is exactly the set of such keys, and the least closed set |
| Taint.FlowsIgnoreOrder | internal/analyzer/taint.go:460-462 | The tainted keys are the same for every ordering of the assignments |
| Taint.KeysTellVariablesApart | internal/analyzer/taint.go:433-436 | The key of a variable tells scopes and names apart when names have no colon |
| Taint.FlowsMeaning | internal/analyzer/taint.go:452-512 | For such names a key is tainted exactly when a chain of assignments leads to that variable of that scope, each assigning a variable the next one sees: its own scope's, or the module's where its scope assigns none of that name |
| Taint.FlowStaysInScope | internal/analyzer/taint.go:437-450 | A chain that ends in a scope runs through assignments of that scope and of the module only |
| Taint.CleanScopeIsUntainted | internal/analyzer/taint.go:452-512 | No variable of a scope is tainted when no unsanitised assignment of that scope or of the module names a source or assigns a privileged name, whatever other scopes do |
| Taint.OriginIsNamed | internal/analyzer/taint.go:466-507 | The recorded origin is the source, or the mark of a privileged name, at which some chain begins, with a prefix exactly when it came through a summarised function |
| Closures.CanonicalizeNodes | internal/assurance/closure.go:180-191 | The nodes with their findings sorted and deduplicated, in the order of the sort key |
| Closures.CanonicalizeEdges | internal/assurance/closure.go:193-206 | The edges in key order, the first of each run of equal keys kept |
| Closures.CanonicalNodesUnique | internal/assurance/closure.go:180-191 | Permuted nodes have one canonical form when nodes with equal sort keys are equal |
| Closures.CanonicalEdgesUnique | internal/assurance/closure.go:193-206 | Edge lists with the same elements have one canonical form when edges with equal keys are equal |
| Orders.SortedUniqueCanonical | internal/assurance/closure.go:208-221 | Only which strings occur decides their sorted list without repetition |
| Orders.SortedUniqueIdempotent | internal/assurance/closure.go:208-221 | Doing it twice changes nothing |
| Orders.SortedUniqueFacts | internal/assurance/closure.go:208-221 | That list is strictly ascending and holds exactly the strings that occur |
| Orders.LeqMeaning | internal/assurance/closure.go:180-191 | The order of strings is that of their first differing character, or else of their lengths |
| Orders.KeyLeqMeaning | internal/assurance/closure.go:180-206 | Keys of several fields are ordered by the first field that differs |
| ClosureState.Finalize | internal/assurance/closure.go:33-98 | The result is the canonical form of the closure with the counters, state, completeness, verification, limitations and digest that one pass over its canonical nodes yields |
| ClosureState.TallyNodes | internal/assurance/closure.go:51-85 | The loop over the nodes computes the tally |
| ClosureFacts.TallyMeaning | internal/assurance/closure.go:51-85 | What the loop decides: conflicts are two different nodes with one id; the state stays SAFE exactly when there is no conflict, every required node is resolved and none is blocking; verification survives exactly when every required node is verified or exempt |
| ClosureFacts.UnsafeMeaning | internal/assurance/closure.go:58-84 | The state is UNSAFE exactly when a required blocking node comes at or after every conflict |
| ClosureFacts.FinalizeMeaning | internal/assurance/closure.go:43-98 | SAFE, complete and verified, each as an if-and-only-if over the canonical nodes and the limitations; verified implies that every required node is resolved, analyzed, digested, verified or exempt and not blocking, with no conflict and no limitation |
| ClosureFacts.FinalizeUnsafe | internal/assurance/closure.go:43-98 | UNSAFE as an if-and-only-if over the canonical nodes |
| ClosureFacts.ConflictMasksUnsafe | internal/assurance/closure.go:58-62 | However a closure lists a required blocking node and two different later ones with one id, it finalizes as UNKNOWN although it is blocked |
| ClosureFacts.FinalizeOrderIndependent | internal/assurance/closure.go:33-98 | Permuting nodes, edges, limitations or a node's findings gives the same closure and digest whenever nodes, and edges, with equal sort keys are equal |
| ClosureFacts.FinalizeIdempotent | internal/assurance/closure.go:31-98 | Applying it twice equals applying it once whenever nodes with equal sort keys are equal, whatever edges share a text |
| ClosureFacts.DigestIsOfContent | internal/assurance/closure.go:100-115 | Under the same condition the digest is the hash of exactly the root, canonical nodes, canonical edges and limitations shown |
| ClosureMeaning.NodeMeaning | internal/assurance/closure.go:63-85 | What makes a node unresolved, blocking and vetted, by its fields, in letters of either case as Unicode folds them |
| ClosureMeaning.SeverityOrder | pkg/skil/severity.go:31-48 | CRITICAL above HIGH above MEDIUM above LOW above INFO; no severity ranks with INFO, and an unknown one with HIGH |
| ClosureMeaning.StateByFields | internal/assurance/closure.go:33-98 | SAFE, complete and verified by the fields of the required nodes of the finalized closure: a required CRITICAL or HIGH node, or one of unknown severity, is never SAFE |
| ClosureMeaning.CountersMeaning | internal/assurance/closure.go:51-85 | What each counter counts: required nodes, those of them not settled, the findings of those not harmless, at least one each, and the greatest depth and severity |
| ClosureMeaning.LimitationsMeaning | internal/assurance/closure.go:58-62 | The limitations are the closure's own and one for each identity that two different nodes share, in order and without repetition |
| ClosureDrift.TiesByFields | internal/assurance/closure.go:185-190 | Two nodes have one sort key exactly when identity, kind, digest and depth agree, for texts without NUL |
| ClosureDrift.NodeOrder | internal/assurance/closure.go:185-190 | Nodes are in the order of their identities, then kinds, then digests |
| ClosureDrift.TextsTellEdgesApart | internal/assurance/closure.go:239-241 | Edges without a dash in source and relation share a text only when they are equal |
| ClosureTies.TiedNodesHaveTwoForms | internal/assurance/closure.go:185-190 | Whenever two different nodes share a sort key, every canonical form of the list has another beside it |
| ClosureTies.TiedEdgesHaveTwoForms | internal/assurance/closure.go:193-206 | Whenever two different edges share a text, the list has two canonical forms that keep different ones |
| ClosureTies.OrderIndependentExactly | internal/assurance/closure.go:33-98 | All finalizations of a closure and its permutations have equal nodes and edges if and only if equal sort keys mean equal nodes and equal texts mean equal edges |
| ClosureTies.IdempotentExactly | internal/assurance/closure.go:31-98 | Finalizing a finalized closure always changes nothing if and only if nodes with equal sort keys are equal |
| ClosureTies.DigestExactly | internal/assurance/closure.go:100-115 | The digest is always that of the nodes and edges shown if and only if nodes with equal sort keys are equal, given a collision-free hash |
| ClosureTies.VerifyExactly | internal/assurance/closure.go:118-178 | VERIFIED always coincides with equal finalized content of a complete closure if and only if nodes with equal sort keys are equal in the current closure or it would not be complete, given a collision-free hash |
| ClosureFacts.EdgesCanShareText | internal/assurance/closure.go:239-241 | Two different edges with one key, of which one is dropped: why the condition is needed for edges |
| ClosureVerify.Verify | internal/assurance/closure.go:118-178 | Finalizes both closures and reports, in order, exactly the differences between them |
| ClosureVerify.Compare | internal/assurance/closure.go:121-178 | The violations are exactly the drifts in root, nodes, edges, digest and completeness, and the status follows from them |
| ClosureTies.VerifyIsExact | internal/assurance/closure.go:118-178 | Under that condition, VERIFIED if and only if root, canonical nodes, canonical edges and limitations agree and the current closure is complete, whatever ties the reviewed closure has and whatever edges share a text |
| ClosureVerify.VerifiedMeansSameDigest | internal/assurance/closure.go:150-178 | VERIFIED if and only if there is no drift, the digests agree and the current closure is complete, and then there are no violations |
| ClosureDrift.DriftMeaning | internal/assurance/closure.go:121-170 | Which differences are listed, each with its reason, expected and actual value: the root digest, every node of the reviewed closure that is gone or differs in digest, verification or requirement, every required new node and every edge on one side only |
| ClosureDrift.ViolationOrder | internal/assurance/closure.go:171-176 | Violations come in the order of their nodes, then edges, then reasons |
| Versions.CompareAntisymmetric | internal/assurance/ruleeffect.go:120-144 | The precedence of Semantic Versioning 2.0.0, section 11, is antisymmetric up to equality |
| Versions.CompareTransitive | internal/assurance/ruleeffect.go:120-144 | and transitive |
| Versions.PrereleaseJustBelow | internal/assurance/ruleeffect.go:120-144 | A prerelease lies below its release and above every release below that |
| VersionOrder.CompareMeaning | internal/versioning/ecosystems.go:57-139 | The comparison of versions is the precedence of section 11, stated without it: the first difference of major, minor and patch decides; of one triple a prerelease is below its release; otherwise the first identifier that differs decides, numbers by value, texts by character, a number below a text; and a proper prefix is below |
| VersionOrder.ClauseMeaning | internal/assurance/ruleeffect.go:120-144 | What each of the five comparisons says of a version, in terms of that precedence |
| VersionOrder.AnswerMeaning | internal/assurance/ruleeffect.go:102-144 | A rule that can be evaluated answers VULNERABLE of exactly the versions on the right side of every bound, and NOT_VULNERABLE of all others |
| RuleEffect.EvaluateClauses | internal/assurance/ruleeffect.go:120-144 | VULNERABLE exactly when every clause holds of the version |
| RuleEffect.IsContradictory | internal/assurance/ruleeffect.go:208-234 | The probe loop decides whether some probe satisfies all clauses |
| RuleEffect.ContradictoryIsExact | internal/assurance/ruleeffect.go:206-234 | Small-model theorem: for release clauses with at least one =, > or >=, the probes fail exactly when no release version satisfies all clauses |
| RuleEffect.ContradictoryWithoutFloor | internal/assurance/ruleeffect.go:206-234 | For clauses without one, prereleases included, that is caps alone, the range is called contradictory exactly when a tightest cap is a strict one at patch zero |
| RuleEffect.LoneCapIsCalledContradictory | internal/assurance/ruleeffect.go:208-223 | Every lone cap "<n.0.0" with n > 0 is called contradictory although versions satisfy it |
| RuleRange.CapsAnswerIsMembership | internal/assurance/ruleeffect.go:102-118 | With caps alone, prereleases included, VULNERABLE is range membership for all versions if and only if no tightest cap is a strict one at patch zero |
| RuleEffect.OnlyPrereleaseIsGap | internal/assurance/ruleeffect.go:208-234 | A floored range with no release in it but with some version is one between a strict floor and a strict cap at the next patch |
| RuleEffect.AnswerIsMembership | internal/assurance/ruleeffect.go:102-118 | For release clauses with a floor, VULNERABLE is range membership for all versions if and only if the range is not one that only prereleases lie in |
| RuleRange.AnswerExactly | internal/assurance/ruleeffect.go:102-118 | For every well-formed rule, whatever releases or prereleases its clauses name, VULNERABLE is range membership for all versions if and only if: with a floor, it is not the case that nothing is asked to be equal and the highest floor and the tightest cap are strict and have no release between them; without one, no tightest cap is a strict one at patch zero |
| VersionTexts.ReadRightExactly | internal/versioning/ecosystems.go:97-139 | A prerelease identifier, as a text, is compared as section 11 has it with all that are not misread themselves if and only if it is neither a hyphen before a number that fits 64 bits nor a number that does not |
| VersionTexts.HyphenIsMisread | internal/versioning/ecosystems.go:108-120 | Every identifier that is a hyphen before such a number counts as a negative number, and so lies below 1, where section 11 has it above every number |
| RuleRange.WronglyContradictory | internal/assurance/ruleeffect.go:206-234 | A range with a floor that some version satisfies and the probes call contradictory has such a gap between its bounds |
| RuleRange.GapIsCalledContradictory | internal/assurance/ruleeffect.go:206-234 | Every such gap is called contradictory, and a version lies in it |
| RuleRange.PrereleaseGap | internal/assurance/ruleeffect.go:102-118 | Any two versions of one release, such as >1.0.0-alpha,<1.0.0-beta, bound a gap: a version between them is constructed, and the rule evaluates none |
| RuleRange.ReleaseGap | internal/assurance/ruleeffect.go:206-234 | For release clauses the gaps are the ranges that only prereleases lie in |
| RuleEffect.VulnerableIsConvex | internal/assurance/ruleeffect.go:102-144 | A version between two vulnerable versions is vulnerable |
| RuleEffect.EvaluateVersion | internal/assurance/ruleeffect.go:105-118 | Unevaluated exactly when the rule is unsupported, malformed, empty or called contradictory or the version does not parse; otherwise membership decides, in the order that `VersionOrder.AnswerMeaning` spells out |
| RuleEffect.ValidateRule | internal/assurance/ruleeffect.go:148-204 | Each level of effectiveness implies the one below; the semantic level and the behaviour level hold exactly under the stated conditions, the latter that all positive fixtures are in the range and all negative ones outside it |
| Unicode.EncodedIsValid | internal/artifact/encoding.go:94-94 | The UTF-8 of any text (section 3 of RFC 3629) is valid UTF-8 |
| Unicode.ValidIsEncoded | internal/artifact/encoding.go:37-50 | Valid UTF-8 is the encoding of a text |
| Unicode.Utf8Injective | internal/artifact/encoding.go:94-94 | Two texts with the same UTF-8 are the same |
| Unicode.Decode16OfUtf16 | internal/artifact/encoding.go:88-88 | Decoding UTF-16 code units (section 2 of RFC 2781) undoes encoding |
| Unicode.Utf16OfDecode16 | internal/artifact/encoding.go:88-93 | Decoding without a replacement character loses nothing: encoding gives the units back |
| Encoding.DecodeUtf16 | internal/artifact/encoding.go:76-95 | The in-place decoder computes the specified decoding |
| Encoding.DecodingOfText | internal/artifact/encoding.go:76-95 | The UTF-16 of any text without U+FFFD, in either byte order, decodes to that text's UTF-8 |
| Encoding.DecodingIsExact | internal/artifact/encoding.go:72-95 | Decoding succeeds if and only if the bytes are the UTF-16 of some text without U+FFFD, and then gives that text in UTF-8 |
| Encoding.DecodingInjective | internal/artifact/encoding.go:76-95 | Different files never decode to the same text in the same byte order |
| Encoding.DetectUnmarkedUtf16 | internal/artifact/encoding.go:104-133 | The counting loop decides on nine tenths of zero bytes on one side and none on the other |
| Encoding.GuessMeaning | internal/artifact/encoding.go:97-133 | Little-endian exactly when there are at least eight whole units, none with a zero low byte and at least nine tenths with a zero high byte; big-endian the other way round |
| Encoding.CanonicalizeText | internal/artifact/encoding.go:31-61 | The branches in their order: mark, plain UTF-8, unmarked UTF-16, binary; which files take which and what comes out is `EncodingMeaning.LabelMeaning` and `EncodingMeaning.BytesMeaning` |
| Encoding.CanonicalIsValid | internal/artifact/encoding.go:26-61 | Whatever is not called binary comes out as valid UTF-8, and whatever is called binary comes out unchanged |
| Encoding.MarkedTextIsSeen | internal/artifact/encoding.go:39-52 | Any text without U+FFFD saved as UTF-16 with a mark, in either order, comes out as the same text in UTF-8 |
| Encoding.UnmarkedAsciiIsSeen | internal/artifact/encoding.go:97-133 | Any NUL-free ASCII text of eight or more characters saved as UTF-16 without a mark, in either order, comes out as itself |
| EncodingMeaning.Utf8Bits | internal/artifact/encoding.go:94-94 | The bytes of one character: their number by range, the leading bits of each and the value of the rest (section 3 of RFC 3629) |
| EncodingMeaning.Utf8Concat | internal/artifact/encoding.go:94-94 | A text is encoded character by character |
| EncodingMeaning.Utf16Bits | internal/artifact/encoding.go:88-88 | The units of one character: itself, or a high and a low surrogate (section 2.1 of RFC 2781) |
| EncodingMeaning.BytesOfUnit | internal/artifact/encoding.go:78-87 | The high byte comes first exactly in big-endian order |
| EncodingMeaning.MarkedUtf8IsSeen | internal/artifact/encoding.go:36-38 | Any text saved as UTF-8 with a byte-order mark comes out as the same text without it |
| EncodingMeaning.PlainTextIsSeen | internal/artifact/encoding.go:49-50 | Any text without NUL whose first character is not U+FEFF, saved as UTF-8, comes out unchanged |
| EncodingMeaning.LabelMeaning | internal/artifact/encoding.go:31-61 | Which files get which label, each as an if-and-only-if: a mark counts when what follows it is text in that encoding; then UTF-8 without NUL; then the guess, when the file is text in the guessed order; anything else is binary |
| EncodingMeaning.BytesMeaning | internal/artifact/encoding.go:31-61 | Which bytes come out under each label: what follows the mark, the text in UTF-8, or the file itself |
| PickleScanner.Scanner.Run | internal/analyzer/pickle.go:101-320 | The in-place scan computes the specified references and position from any stack and position, or panics exactly when the specification says so |
| PickleScanner.Scanner.ReadArguments | internal/analyzer/pickle.go:44-100 | Arguments of every shape: what is read, what is left, what a broken one leaves, and the panic when position plus length passes the largest 64-bit integer |
| PickleScanner.Scanner.Act | internal/analyzer/pickle.go:108-311 | The effect of every opcode on the shadow stack and the references |
| PickleScanner.Scanner.PopToMark | internal/analyzer/pickle.go:126-133 | Pops down to and including the topmost mark |
| Pickle.DropToMark | internal/analyzer/pickle.go:126-133 | What remains lies below the topmost mark, or is nothing when there is no mark |
| PickleScanner.ScanPickleOpcodesOnce | internal/analyzer/pickle.go:23-321 | The references of one scan and the position where it stopped, or the loss of all of them in a panic |
| PickleScanner.ScanPickleOpcodes | internal/analyzer/pickle.go:331-343 | Up to 64 scans one behind the other, their references concatenated, or all lost when one of them panics |
| PickleFacts.ArgumentsOfAssembled | internal/analyzer/pickle.go:44-100 | Reading the arguments of any assembled well-formed instruction gives them back and leaves exactly what follows |
| PickleFacts.ScanFollowsAssembly | internal/analyzer/pickle.go:103-311 | The scanner stays aligned: behind any list of assembled instructions it is exactly at their end, with the state those instructions lead to |
| PickleFacts.ScanOfStream | internal/analyzer/pickle.go:103-107 | A STOP-terminated stream within the opcode limit is read to its STOP and no further, whatever follows |
| PickleFacts.ScanOfLongStream | internal/analyzer/pickle.go:101-103 | Past the opcode limit the scan still stops on an instruction boundary |
| PickleFacts.RecoveredStepByStep | internal/analyzer/pickle.go:108-311 | What each instruction adds to the recovered (module, name) list: GLOBAL and INST their pair; STACK_GLOBAL its two strings when both are real and were just pushed with only memo stores and headers between; all others nothing; nothing is dropped or reordered |
| PickleFacts.PushedIsOnTop | internal/analyzer/pickle.go:110-127 | Two strings just pushed with only memo stores and headers in between are the two topmost values |
| PickleFacts.NamesAfterStep | internal/analyzer/pickle.go:118-300 | The names any instruction adds in any state |
| PickleOpcodes.WrittenIsAssembled | internal/analyzer/pickle.go:106-311 | Every supported opcode, described by name with the bytes it is written as, is a well-formed instruction of the disassembler's table and assembles to those bytes: an independent table that the switch agrees with |
| PickleOpcodes.NamingByOpcode | internal/analyzer/pickle.go:118-300 | By name: GLOBAL, INST and STACK_GLOBAL name references and no other opcode does |
| PickleOpcodes.FoundIsRecovered | internal/analyzer/pickle.go:101-107 | A program written by name and closed by STOP is read to its STOP and no further, and its references are those its instructions name |
| PickleOpcodes.FoundStepByStep | internal/analyzer/pickle.go:108-311 | By name: what one more opcode adds to the references found |
| PickleEffects.KindMeaning | internal/analyzer/pickle.go:108-311 | By name: the opcodes that leave the tracked stack alone, those that push a value without a string, and those that push their string, each in every state |
| PickleEffects.NamedMeaning | internal/analyzer/pickle.go:104-311 | By name: what GLOBAL, INST, STACK_GLOBAL, REDUCE, MARK, POP_MARK and POP do in every state to the stack and to the references, the flags included |
| PickleEffects.RealMeaning | internal/analyzer/pickle.go:345-347 | The values that name nothing: the empty one and the three that the tracker pushes itself |
| PickleEffects.UnquoteMeaning | internal/analyzer/pickle.go:349-357 | A pair of equal quotes around a string goes, once; any other line is taken as it is |
| PickleEffects.KnownExactly | internal/analyzer/pickle.go:103-320 | The scan goes on from exactly the bytes of the named opcodes, halts at STOP and stops at every other byte |
| PickleEffects.AfterIsTidy | internal/analyzer/pickle.go:25-40 | After any program every entry that stands for a reference stands for one that is there |
| PickleEffects.FlaggedExactly | internal/analyzer/pickle.go:285-311 | After any program a reference is flagged as called exactly when an INST named it or a REDUCE ran while the entry standing for it was under the topmost one |
| PickleEffects.CallIsSeen | internal/analyzer/pickle.go:285-311 | GLOBAL, one opcode that builds the arguments, and REDUCE, with only opcodes in between that leave the stack alone: the reference is flagged |
| PickleEffects.ReportOfProgram | internal/analyzer/pickle.go:101-320 | The bytes of any program closed by STOP are reported as its references with their flags, whatever follows |
| PickleEffects.BrokenFields | internal/analyzer/pickle.go:44-62 | What is left behind an argument cut short: nothing behind a line without its newline, everything behind a field with too few bytes |
| PickleEffects.BrokenCount | internal/analyzer/pickle.go:84-100 | A count that promises more bytes than there are, or that is negative as a signed integer, is taken and nothing behind it |
| PickleFacts.DamageHidesExactly | internal/analyzer/pickle.go:17-22 | Truncation, damage or an unknown opcode further on hides what the instructions before it named if and only if they named something and a length read in the damaged part takes the position past the largest 64-bit integer |
| PickleFacts.ScanKeepsNames | internal/analyzer/pickle.go:57-62 | From any state and over any bytes the scan panics exactly when a length it reads makes position plus length overflow, and otherwise never drops a name it has |
| PickleFacts.HugeLengthLosesAll | internal/analyzer/pickle.go:57-62 | Nine bytes, a BINUNICODE8 of length 2 to the 63rd less one, behind any program make the scan panic and lose all that the program named |
| PickleFacts.StreamsConcatenate | internal/analyzer/pickle.go:323-343 | Concatenated STOP-terminated streams within the opcode limit give the concatenation of their separate results, for as many streams as are allowed |
| NestedFacts.RunIsConserved | internal/artifact/nested.go:66-97 | For every set of files at any depth, every archive tree and every clock: members produced equal the drop in the member budget; stored bytes never exceed the drop in the byte budget and equal it unless that budget was given up; neither goes negative; every file is a member, with path, digest, depth and parent digest, of a container that came before it, and none lies beyond depth 3 |
| NestedFacts.ContainerIsAccounted | internal/artifact/nested.go:107-197 | The same for one container and any budget, and no two of its direct members share a path, whatever the case |
| NestedFacts.EntryIsAccounted | internal/artifact/nested.go:131-195 | The same for one entry and everything inside it |
| NestedFacts.AccountedThen | internal/artifact/nested.go:126-196 | Two accounts one behind the other are an account of both: conservation and provenance compose along the recursion |
| NestedComplete.CompleteExactly | internal/artifact/nested.go:66-197 | A run without a warning, under a clock that does not run back, made every named entry of everything that looks like a container, to any depth, if and only if no file at depth 3 is a container with a named entry in it and the last file is not a container reached when members, bytes or time had run out |
| NestedComplete.RunCovers | internal/artifact/nested.go:66-197 | A run without a warning, under such a clock, made the complete expansion down to depth 3 but for the inside of its last file, when all was gone by then |
| NestedAmple.AmpleRun | internal/artifact/nested.go:66-197 | Told from the archives alone: when all entries are directories or regular, safely named, acceptable members with paths of their own, the entries and bytes they need down to depth 3 are fewer than the budget and the deadline does not pass, nothing is warned of, everything down to depth 3 is made, and that is everything if and only if no file at depth 3 is a container with a named entry |
| NestedSilences.SilentAtDepthLimit | internal/artifact/nested.go:190-194 | An archive that holds itself: three members, no warning, and the container at depth 3 left unopened |
| NestedSilences.SilentAtBudgetEnd | internal/artifact/nested.go:190-194 | An archive of exactly a thousand members, the last an archive: no warning, and the content of the last left out |
| Nested.FateMeaning | internal/artifact/nested.go:136-191 | An entry becomes a file exactly if it is a regular, safely named, new, acceptable member that fits the byte budget; only a directory is passed over in silence; everything else gets a warning |
| NestedMeaning.RulesDecide | internal/artifact/nested.go:136-191 | The eight rules for an entry, each stated by itself, in their order: an entry is kept exactly when it breaks none, and otherwise warned about with the first it breaks, for the container under the first three and for the member under the others; a directory is passed over |
| NestedMeaning.EveryFileMeaning | internal/artifact/nested.go:66-197 | Every file of a run is described by an acceptable entry of a root or of a file made before it: path, content, digest, mode, label, depth and parent digest; there are at most 1000, of at most 25 MiB together, none nested deeper than three |
| NestedMeaning.EveryWarningMeaning | internal/artifact/nested.go:66-197 | Every warning of a run is about a root or a file made: its budget, its depth, its number of members, or the first rule that one of its entries breaks |
| NestedMeaning.OverBudgetEnds | internal/artifact/nested.go:131-177 | A member that does not fit the byte budget ends it: nothing more is made from its container, and the remaining members are warned about together |
| NestedMeaning.RootsAfterwards | internal/artifact/nested.go:84-95 | With no member or no byte left nothing more is made, and every further container is warned about |
| NestedMeaning.ContentMeaning | internal/artifact/nested.go:203-221 | What is read in pieces is the pieces one behind the other, however they are cut |
| NestedExpander.VirtualizeNestedContainers | internal/artifact/nested.go:66-97 | The loop over the files, with its shared budget, computes the run these theorems are about |
| NestedExpander.VirtualizeContainer | internal/artifact/nested.go:107-197 | The same for one container |
| NestedExpander.ExpandEntry | internal/artifact/nested.go:131-195 | The same for one entry and everything inside it |
| NestedExpander.Materialize | internal/artifact/nested.go:136-191 | The same for one entry without what is inside it: its fate, the budget spent and the paths seen |
| NestedExpander.BoundedRead | internal/artifact/nested.go:199-221 | The whole content within the limit, or nothing |
| NestedExpander.ContainerBudget.IsExhausted | internal/artifact/nested.go:62-64 | Exhausted exactly when members or bytes ran out or the clock is past the deadline at this check |
| PrerequisiteLedgers.PrerequisiteLedger.Expect | internal/assurance/prereq.go:49-56 | Appends one call to the history that the ledger always agrees with |
| PrerequisiteLedgers.PrerequisiteLedger.Settle | internal/assurance/prereq.go:58-84 | Appends one call to the history, with failures sticky and unexpected settlements recorded |
| PrerequisiteLedgers.PrerequisiteLedger.Snapshot | internal/assurance/prereq.go:86-96 | Every entry once, in key order |
| PrerequisiteLedgers.PrerequisiteLedger.Complete | internal/assurance/prereq.go:98-112 | True exactly when in the whole history something was expected, nothing was settled before being expected, and every expected key was loaded and never rejected or unavailable; for analyzers and kinds without NUL, exactly when that holds of the (analyzer, kind, name) triples |
| Prerequisites.CompleteMeaning | internal/assurance/prereq.go:98-112 | The ledger after any history is complete exactly under that condition |
| PrerequisiteNeeds.KeysTellNeedsApart | internal/assurance/prereq.go:33-33 | Keys are equal exactly when analyzer, kind and name are, for analyzers and kinds without NUL |
| PrerequisiteNeeds.CompleteMeansNeeds | internal/assurance/prereq.go:98-112 | Completeness over (analyzer, kind, name) triples: something was expected, every settlement follows an expectation of the same triple, and every expected triple was loaded and never reported otherwise |
| PrerequisiteNeeds.StrayMeaning | internal/assurance/prereq.go:58-65 | The ledger notes down exactly the settlements that nothing before them expected, with their words |
| PrerequisiteNeeds.EntryMeaning | internal/assurance/prereq.go:49-84 | Each entry has the parts of a call that expected it and the state, digest and reason of the settlement that decides: the first failure, or the last settlement when there is none |
| Prerequisites.StateMeaning | internal/assurance/prereq.go:58-74 | Without strays, the state of a key depends on which settlements there were and not on their order |
| Prerequisites.OrderIndependent | internal/assurance/prereq.go:35-38 | Histories of the same calls, in any order and repetition, agree on completeness as long as neither settles before expecting |
| Prerequisites.InterleavingsDoNotStray | internal/assurance/prereq.go:35-38 | If every concurrent run expects its prerequisites before it settles them, no interleaving strays |
| Prerequisites.ScheduleIndependent | internal/assurance/prereq.go:35-38 | Completeness does not depend on how such runs were scheduled |
| Prerequisites.FailureStays | internal/assurance/prereq.go:66-73 | A rejection or unavailability keeps its state, digest and reason whatever is reported later; strays are never forgotten |
| Prerequisites.FailureIsFinal | internal/assurance/prereq.go:66-73 | After a stray, a rejection or an unavailability no continuation is complete |
| PrerequisiteLedgers.ApplyPrerequisites | internal/assurance/prereq.go:114-161 | With any calls by other runs between the snapshot and the final check: the outcome is kept or falls from COMPLETE to PARTIAL; it stays COMPLETE exactly when every snapshot entry was loaded and the ledger is complete at the final check; limitations, proof and digest accordingly; without a report or a ledger nothing changes |
| PrerequisiteLedgers.LimitationsMeaning | internal/assurance/prereq.go:125-140 | Each entry that is not loaded, and no other, has its limitation: name, kind, state, reason, analyzer and digest |
| PrerequisiteLedgers.LoweredInSilenceExactly | internal/assurance/prereq.go:114-161 | The downgrade lowers the outcome and adds no limitation if and only if the report was COMPLETE, the snapshot was not empty and wholly loaded, and the ledger is incomplete at the final check |
| PrerequisiteLedgers.LateCallLowersInSilence | internal/assurance/prereq.go:114-161 | A ledger with one prerequisite, expected and loaded, and after the snapshot either a stray settlement or the rejection of that prerequisite: any COMPLETE report becomes PARTIAL with the limitations it had |
| EvidenceGraphs.LinkAttackPathToEvidenceGraph | internal/attackpath/verified.go:285-382 | The graph is updated in place to the sorted result of inserting the path's nodes and adding its edges, or a new one is made; the digest is that of the result |
| EvidenceGraphs.EvidenceGraph.UpsertNode | internal/attackpath/verified.go:304-311 | Overwrites the last node with the id or appends; the id-to-index map stays consistent with the node list |
| EvidenceGraphs.EvidenceGraph.AddEdge | internal/attackpath/verified.go:327-333 | Adds an edge unless its key is there; the key set stays that of the edge list |
| EvidenceGraphs.UpsertByIndex | internal/attackpath/verified.go:300-311 | Overwriting through the index map is overwriting the last node with the id |
| EvidenceGraphFacts.LinkingKeeps | internal/attackpath/verified.go:287-373 | Into a graph with distinct ids and keys: ids and keys stay distinct and become sorted; every earlier edge is unchanged and every earlier id kept; nodes the path does not name are unchanged; and exactly which nodes and edges are there afterwards |
| EvidenceGraphFacts.LinkingTwiceIsLinkingOnce | internal/attackpath/verified.go:287-382 | Linking the same path again changes nothing |
| EvidenceGraphMeaning.NodesMeaning | internal/attackpath/verified.go:313-363 | The nodes a path brings: one for each of its entities, in order, and one for its evidence, with their fields and the state that the confidence amounts to |
| EvidenceGraphMeaning.EdgesMeaning | internal/attackpath/verified.go:327-373 | The edges a path brings: one for each of its edges, in the same direction and between the same entities, and one from the evidence to the last entity |
| EvidenceGraphMeaning.NodesShown | internal/attackpath/verified.go:300-363 | The nodes after linking are those of the path's entities, of each identity the last, that of its evidence, and the earlier ones with other ids |
| EvidenceGraphMeaning.KeysTellEdgesApart | internal/attackpath/verified.go:327-333 | Edges share a key exactly when source, target and relation agree, for texts without NUL |
| EvidenceGraphMeaning.EdgesShown | internal/attackpath/verified.go:327-373 | After linking every edge was there before or is one the path brings; nothing is gone; whatever the path brings is there; and nothing between the same ends is added twice |
| EvidenceGraphFacts.EveryRunIsWellKept | internal/attackpath/verified.go:287-373 | A graph built by any sequence of links has distinct, sorted ids and keys at every moment, and an edge or id once there stays |
| Wasm.DecodeUleb128 | internal/analyzer/asset.go:166-180 | The length of the encoding at the front and the encoded number as a signed 64-bit integer holds it, wrapped where ten bytes do not fit, or no bytes when no prefix is an encoding (section 5.2.2 of the WebAssembly Core Specification) |
| Wasm.UlebPrefixFree | internal/analyzer/asset.go:166-180 | No encoding is the beginning of another |
| Wasm.UlebRoundTrip | internal/analyzer/asset.go:166-180 | The shortest encoding of every number below 2 to the 63rd, with any bytes behind it, decodes to that number and that length and to nothing else |
| Wasm.WasmHasImportSection | internal/analyzer/asset.go:135-164 | The section loop, watched for any number of turns on any file: it has answered, faulted or stands at a position exactly as the run of single turns says |
| Wasm.AnswersExactly | internal/analyzer/asset.go:143-163 | The loop ends with an answer if and only if it never reads at a negative position and never comes back to a position, and then it does so within as many turns as the file has bytes |
| Wasm.BackwardsForEver | internal/analyzer/asset.go:143-163 | On a file of 19 bytes, whose one section size decodes to -11, the loop is back at byte 8 after every number of turns |
| Wasm.BackwardsOutOfRange | internal/analyzer/asset.go:143-163 | On a file whose one size decodes to the lowest integer the loop reads at a negative position |
| Wasm.OrderlyAnswers | internal/analyzer/asset.go:143-163 | When every size met is below 2 to the 63rd and takes the position on without overflow, the loop ends, and answers whether the bytes lead to an import section |
| Wasm.BodyImports | internal/analyzer/asset.go:143-163 | Well-formed sections, padded sizes or not, are skipped whole, whatever follows them |
| Wasm.SectionsAreSkipped | internal/analyzer/asset.go:143-163 | From the start of any run of well-formed sections the loop answers whether one of them is an import section, in no more turns than there are sections |
| Wasm.ModuleImports | internal/analyzer/asset.go:135-164 | On every well-formed module the loop ends and its answer is whether a section has id 2 (section 5.5.2) |
| Wasm.OtherFilesImportNothing | internal/analyzer/asset.go:130-141 | A file without the eight bytes of a module's header is answered with no |
| Wasm.LongSizeGivesUp | internal/analyzer/asset.go:152-155 | A size of more than ten bytes ends the walk with no |

## Left out

- Marshal.ReadObject: the identity of a code object (a pointer) is the index of its completion, and scalars are all read as one value, as the walk looks at neither.
- Wasm.WasmHasImportSection: a loop that may run for ever is watched for a given number of turns, which may be any; data is shorter than 2 to the 63rd bytes, as any slice is.
- PickleScanner.ScanPickleOpcodes: data is shorter than 2 to the 63rd bytes, as any slice is; a panic is an outcome without references.
- PickleEffects.FlaggedExactly: is about the tracked stack, as the flag is; tuple opcodes do not pop there, so it need not be the call that the pickle machine would make.
- Encoding.DetectUnmarkedUtf16: the threshold 0.90 is exact nine tenths, not a product of floating-point numbers.
- Contexts.DeriveChild: the settings a delta may replace are one opaque value, and constraint lists of one context are either the same storage or share none, not overlapping pieces of one array.
- VersionOrder.CompareMeaning: identifiers arrive parsed; which texts the program parses otherwise than section 11 reads them is `ReadRightExactly`.
- RuleRange.AnswerExactly: version numbers and numeric prerelease identifiers are unbounded; the program's are 64-bit integers.
- Constraints.FinalizeBindsDigest: field texts of the hashed record are a tuple, not canonical JSON.
- ClosureState.ComputeDigest: the hashed record is a tuple, not canonical JSON, so JSON's treatment of text that is not valid UTF-8 is not modelled; the same holds of the node comparison.
- NestedExpander.VirtualizeNestedContainers: leaves out reads that fail in the middle of a member, which the program treats as the end of it.
- NestedComplete.CompleteExactly: is about clocks that do not run back; with one that does, a container can be passed over and the run go on.
- PrerequisiteLedgers.ApplyPrerequisites: causes of limitations are structured values, not message texts.
- EvidenceGraphs.LinkAttackPathToEvidenceGraph: assumes that the canonical JSON of the graph exists; on an encoding error the program keeps the earlier digest.
- RuleEffect.EvaluateVersion: parsing of constraint expressions and version texts is left out; a rule arrives with its clauses, its issues and whether its ecosystem is supported.
- Delegation.DetectDelegationCycles: agents arrive already collected from a configuration; deduplication by name follows the adjacency map, where a later entry wins.
- Taint.FlowsMeaning: is about names without colons, which is what keeps the keys of two variables apart; identifiers have none.
- PrerequisiteNeeds.CompleteMeansNeeds: is about analyzers and kinds without NUL; with one, two needs can share a key, and the ledger then takes them for one.
- ClosureDrift.TiesByFields: is about identities, kinds and digests without NUL, and ClosureDrift.TextsTellEdgesApart about sources and relations without a dash.
- EvidenceGraphMeaning.KeysTellEdgesApart: is about sources and targets without NUL.
- Taint.Propagate: assignments arrive with their targets, scope, sanitisation, source and identifiers already extracted; the sink reports built from the tainted map and the function summaries are left out.
- Iteration over a map picks keys in any order, as in the program; results are stated after the sort that follows.
- The edit distance is over characters; the length test before it counts UTF-8 bytes, as the program does.
- Package-name normalization and the table of popular packages: a list of names is a parameter.
- Confidence and risk rating of attack paths, file-type sniffing and the other analyzers of the repository: branching over attributes without state, or pattern tables.
- Loading, archive and document parsing, network lookups, providers, rendering and commands: input and output.
- Of `internal/versioning` only the comparison of parsed semantic versions is modelled; identifiers arrive parsed, as an integer where the text is one, a negative one included, and as the text otherwise. The orders of other ecosystems are not used by the modelled rules. Of `pkg/skil`, records have the fields their uses show.
