# GSAS, modelled and proved in Dafny

GSAS is a fail-closed policy gate. A governance engine asks registered primitives about an immutable
context, and permits an action only when every one of them answers valid, twice, with the same bytes. Each
decision carries a proof that anyone holding the primitives can check later. This project models the
parts that guarantee rests on, and proves what they promise.

| file | what it models |
|---|---|
| `Values`, `Order`, `Frames`, `Text`, `Bags`, `Paths` | Go values with their type identifiers, Go's string order and stable sort, framed strings, trimming, permutations, paths of a machine |
| `TypeIdentifiers`, `CanonicalEncoding`, `CanonicalWriter` | the names of types and a parser for them, the canonical bytes of a value, a decoder for them, and the writer that appends them to a buffer |
| `ObjectGraph`, `ContextCloner`, `DeterministicContext`, `FiniteGraphs`, `ContextIsolation` | the cyclic, shared object graph a context is made from; the cloner with its `active` set; the context object; which graphs it accepts, in terms of their unfoldings; callers that try to reach into it |
| `PrimitiveContracts`, `FailureTexts`, `ResultNormalizer` | normalisation of primitive results, the texts it may fail with, and the three ways of counting depth |
| `ProofEncoding`, `ProofWalkers`, `ProofTheory`, `ProofMethods`, `ProofBinding` | the tagged encoding, the generator, the verifier, what the envelope binds, the JSON round trip |
| `EvaluationRecord`, `Decisions` | what an evaluation records, and the decision made from it |
| `EngineSections`, `EngineMachine`, `EngineRegistration`, `EngineRuns`, `EngineProgress` | the engine's locked regions, as an object and as a machine of interleaved goroutines; safety and progress over all its runs |
| `ComplianceChecker` | the check a registration runs before it publishes |
| `Descriptors`, `Composition`, `CompositionTexts`, `CompositionMethods` | composite primitives: identity and version, evaluation, and what differs from one evaluation to the next |
| `CompositionOrder`, `CompositionResults`, `CompositionFailures` | order independence; when a composite returns one result, and inputs at which it returns several |
| `CompositionMeaning`, `CompositionDepth`, `CompositionLimits` | what a tree of composites decides: its Boolean formula, exactly when depth defeats it, and inputs at which it does |
| `ScalarMeaning`, `DataMeaning`, `ProofMeaning`, `RecordMeaning`, `ConfigurationMeaning`, `ByteFormats` | the conditions the other modules decide by, stated once more on the data alone: the number grammar, the places of a value, the fields of a proof, the answers of a primitive, the primitives of a composition, the bytes of an encoding |

How the source's terms appear: a Go string is a Dafny `string` with one character per byte. SHA-256 and
`json.Marshal` are arbitrary functions; nothing is assumed about them, so a binding statement reads "equal,
or these two documents, which are named, differ and have one hash". Mutex-protected regions are atomic steps. Goroutine
numbers, the context's logical time and whatever a primitive answers are inputs. Evaluation states are
numbered in the machine and are objects in the engine class; the regions are the same under any numbering
(`RegistrationNamed`, `EvaluationNamed`). `MapRange` and `MapKeys` yield keys in any order. A composite tree in
the model stands for one evaluation of it: it carries the text each failure got, and `Evaluation` relates the
evaluations of one primitive.

## Where the code differs from what one would expect

- An accepted proof with an empty, non-nil context does not survive JSON: `omitempty` drops the snapshot and
  leaves its commitment (`ProofBinding.EmptyContextIsLost`; the exact condition is `RoundTripAccepted`).
  A hand-made proof that holds a nil map or slice survives only if what is written in its place has the same
  hash (`RoundTripExact`, `NilsDoNotSurvive`); the generator makes none.
- Composite evidence grows six steps per level while child results are normalised with a bound of 64, so a
  tree can be configured, have a true formula, and still be invalid because it is deep. `Survives` reads off
  the tree when that happens, and `CompositionDepth.Meaning` shows it is exactly then; for trees of conjunctions
  it comes down to 64 steps for each composite child (`ConjunctiveMeaning`). Around a leaf with empty data the limit is eleven
  composites for the raw verdict and ten for an accepted one (`TowerExact`). The error is always on the safe
  side (`NeverMoreThanFormula`).
- For the same reason the verdict is not monotone in its leaves: a leaf that turns from a denial to a valid
  result can turn a valid composite invalid, by deep evidence of its own (`DeepAnswerLosesVerdict`) or, with no
  data changed at all, by letting a sequential sibling with deep evidence run (`OneBitLosesVerdict`). The verdict
  is kept exactly when the improved tree survives its depth (`VerdictMonotone`).
- What a composite returns is not fixed by its children and their order. Normalising a failed result copies a
  map in the iterator's order and reports the first bad field, and that text goes into the composite's evidence.
  A threshold over one deterministic leaf with two channels in its metadata returns different results
  (`TwoChannelsTwoResults`), and so does one over a composite too deep in two places (`DeepTwiceTwoResults`).
  `OneResultExact` says when the result is unique: when every child that is evaluated normalises to one result
  or fails with one text. The verdict never depends on this (`VerdictFixed`).
- The stable sort of a parallel composite leaves one kind of tie in input order: `TwinsShowOrder` is a
  configured composite of two equally described leaves, one failing with a text and one denying with it, which
  returns something in one order that it cannot in the other; `ParallelOrderExact` and `NeverTiesExact` say
  exactly when order shows.
- The cycle check knows a slice by its type and first address. A slice that holds its own empty prefix has a
  finite unfolding and is reported as a cycle (`OwnPrefixReported`). Apart from such partial slices a graph is
  accepted exactly when it has a finite unfolding within the depth (`WholeCleanIffFinite`).
- The configuration epoch is a `uint64`: 2^64 publishes and clears during one evaluation go unnoticed
  (`EngineRuns.EpochWraps`). A permit's registrations stand through the evaluation exactly when there were
  fewer (`PermitSafe`).
- Results of typed containers may normalise and still be too deep for a proof: from 33 to 64 slices down
  (`TypedNestIsLost`; `NormalisedEncodes` is the exact limit). Contexts are accepted to 256 steps but can be
  permitted only to 65 (`DeepContextIsLost`, `RootFits`). Such evaluations are denied without a proof
  (`Decisions.Conclude`, `DeepContextNeverPermits`).
- Two guards never fire: the duplicate check at publication (`NeverDuplicate`) and the refusal of a callback
  inside a callback (`CallbacksTracked`). The depth test in `cloneStoredValue` never fires either, because the
  root helpers restart the count (`ProofWalkers.CloneStoredValue` has no precondition on depth of the value).

## Model

| member | source | states |
|---|---|---|
| `CanonicalEncoding.DecodesEncoding` | core/deterministic_context.go:322-397 | a decoder reads any encoded supported value back, type identifiers and nil-versus-empty included, whatever bytes follow: the encoding is prefix-free |
| `CanonicalEncoding.EncodingInjective` | core/deterministic_context.go:322-397 | two encodings followed by any suffixes are equal exactly when values (boxes apart) and suffixes are |
| `Frames.LengthLead` | core/deterministic_context.go:425-429 | the first byte of a length is `'n'` only from 0x6E·2^56 on, so a type frame is never read as nil |
| `ByteFormats.FrameBytes` | core/deterministic_context.go:420-429 | a frame is the length of the text as eight base-256 digits, the most significant first, and the text |
| `Frames.UnframesFrame` | core/deterministic_context.go:420-423 | a framed string is read back exactly, whatever follows |
| `Frames.ParsesDecimal` | core/deterministic_context.go:347-352 | decimal text determines the integer |
| `ByteFormats.DecimalSign` | core/deterministic_context.go:347-352 | it has no leading zero, and a minus sign exactly when the integer is negative |
| `ByteFormats.MapBytes` | core/deterministic_context.go:356-371 | a map is written as its type, a tag, the number of entries, and the framed keys with their values, in the one strictly ascending order of the keys |
| `ByteFormats.ListBytes` | core/deterministic_context.go:372-391 | a slice or array is written as its type, its own tag, the number of items, and the items in order |
| `CanonicalEncoding.ContextPreimageInjective` | core/deterministic_context.go:311-317 | the hashed bytes of a context determine logical time and data |
| `CanonicalEncoding.PreimagesDisjoint` | core/primitive_contracts.go:275-283 | a context and a primitive value are never hashed from the same bytes |
| `CanonicalEncoding.CommitmentBinds` | core/deterministic_context.go:123-133 | equal context commitments mean equal time and data, or the two preimages differ and have one digest |
| `TypeIdentifiers.ParsesTypeId` | core/deterministic_context.go:399-418 | a parser reads any type identifier over non-generic names back as its type, alone or before a closing bracket |
| `TypeIdentifiers.TypeIdInjective` | core/deterministic_context.go:399-418 | two types have one identifier exactly when they are the same, for predeclared, package-level and composite types whose names hold no brackets or dots, that is, no instantiated generics |
| `Order.SortedKeysUnique` | core/deterministic_context.go:363-364 | sorting the keys gives one result whatever order the map iterator chose |
| `Order.LessExact` | core/composition_operators.go:116-136 | Go's string order: a proper prefix comes first, and otherwise the smaller byte where two strings first differ |
| `Text.BlankExact` | core/proof_theory.go:81-92 | a string is blank exactly when it is written with the 25 white-space characters alone |
| `Text.TrimmedExact` | core/governance_engine.go:61-63 | a string is its own trimmed form exactly when it neither starts nor ends with one of them |
| `ScalarMeaning.NumberExact` | core/deterministic_context.go:224-227 | a json.Number is accepted exactly when it is empty or a number by the grammar of section 6 of RFC 8259 |
| `ScalarMeaning.GoodScalarExact` | core/deterministic_context.go:190-205 | a scalar is accepted by every walker exactly when it is neither NaN, nor infinite, nor a json.Number that is no number |
| `CanonicalWriter.WriteCanonicalValue` | core/deterministic_context.go:322-397 | the recursive writer appends exactly the encoding, or reports an unsupported type |
| `CanonicalWriter.CanonicalPrimitiveJson` | core/primitive_contracts.go:269-283 | returns the framed bytes exactly on supported values |
| `CanonicalWriter.ComputeContextCommitment` | core/deterministic_context.go:311-320 | hashes exactly the context preimage |
| `ObjectGraph.CleanIffAllPathsGood` | core/deterministic_context.go:168-291 | on any heap, cyclic or shared, no issue is reported exactly when every path stays within depth 256, re-enters no container it is in, and leads to supported values |
| `DataMeaning.CleanExactly` | core/deterministic_context.go:168-291 | the same without the cloner's own checks: nothing is reported exactly when no path is longer than 256 steps, ends in NaN, an infinity, a malformed json.Number, a map with other keys or an unsupported value, or leads back to a map, or to a slice of one type and first address, that it has passed |
| `ObjectGraph.FaultReported` | core/deterministic_context.go:164-166 | every faulty value the cloner reaches is reported, with its reason, under its path |
| `ObjectGraph.ReportIsFault` | core/deterministic_context.go:164-166 | every report is a faulty value the cloner reaches |
| `DataMeaning.ReportMeans` | core/deterministic_context.go:164-216 | every report gives the path of a place of the graph and which of those reasons it is refused for |
| `DataMeaning.FirstRefusedReported` | core/deterministic_context.go:164-216 | the first refused place on every path is reported, with that path and reason |
| `ObjectGraph.CleanUnfolds` | core/deterministic_context.go:146-162 | a value cloned without issue yields its exact unfolding |
| `ObjectGraph.UnfoldsUnique` | core/deterministic_context.go:146-162 | a value has one unfolding |
| `ObjectGraph.KeptInPlace` | core/deterministic_context.go:60-63 | valid siblings are retained: a kept value sits in the result under its own path |
| `ObjectGraph.DroppedParts` | core/deterministic_context.go:250-279 | a dropped map entry is absent, a dropped item leaves the element type's zero |
| `ContextCloner.ContextCloner.CloneValue` | core/deterministic_context.go:168-216 | terminates on cyclic graphs, restores `active`, appends exactly the faults, and returns a copy made of fresh cells alone |
| `ContextCloner.ContextCloner.CloneMap` | core/deterministic_context.go:229-257 | the same for maps, entries met in key order |
| `ContextCloner.ContextCloner.CloneList` | core/deterministic_context.go:259-291 | the same for slices and arrays |
| `DeterministicContext.CloneContextData` | core/deterministic_context.go:146-162 | a missing map becomes a fresh empty one; otherwise the issues are exactly the faults and the copy is exactly what the cloner keeps of the input, faulty or not |
| `DeterministicContext.DeterministicContext.constructor` | core/deterministic_context.go:78-96 | holds what the cloner keeps of the input, so valid siblings stay in place (`KeptInPlace`); without issues that is the exact unfolding, with its commitment, and with issues there is no commitment; nothing outside leads into the copy |
| `DeterministicContext.DeterministicContext.Get` | core/deterministic_context.go:432-439 | an absent key gives the default and touches nothing; a present one a fresh copy, which in a valid context is the stored entry, so a non-nil entry never reads back as nil |
| `DeterministicContext.DeterministicContext.Data` | core/deterministic_context.go:455-459 | returns a fresh copy of the whole map: what the cloner keeps of it, and in a valid context all of it |
| `DeterministicContext.FrozenClones` | core/deterministic_context.go:293-309 | cloning frozen data is the identity and reports nothing |
| `DeterministicContext.CleanIsClonable` | core/deterministic_context.go:293-309 | what was cloned cleanly can be cloned again |
| `ContextIsolation.NoInterference` | core/deterministic_context.go:51-58 | no sequence of caller reads, writes, re-slicings, allocations and copies handed out changes the stored tree or what any key reads |
| `ContextIsolation.ActionIsSafe` | core/deterministic_context.go:431-476 | no single caller action reaches a cell of the context or gains a reference to one |
| `ContextIsolation.CallerWrites` | core/deterministic_context.go:51-58 | the caller is a real one: it can overwrite any key of a map it holds, and read every key |
| `ContextIsolation.CallerMakes` | core/deterministic_context.go:51-58 | and put what it holds into new memory |
| `ContextIsolation.Build` | core/deterministic_context.go:78-96 | a caller holding anything it could reach before starts a session with a new context, whose tree is the clone of the input |
| `ContextIsolation.AskGet` | core/deterministic_context.go:432-453 | a call of Get is a caller action, or returns the caller's own default |
| `ContextIsolation.AskData` | core/deterministic_context.go:455-459 | a call of Data is a caller action |
| `ContextIsolation.SessionKeeps` | core/deterministic_context.go:51-58 | at the end of every session the context stands and its keys hold what they held when it was built |
| `ContextIsolation.ReadAfter` | core/deterministic_context.go:432-453 | end to end: after any session, Get on a valid context yields a fresh copy of the entry it was built with |
| `FiniteGraphs.CleanIffFinite` | core/deterministic_context.go:168-291 | no issue is reported exactly on values with a finite unfolding of supported data within the depth, no path of which re-enters a container |
| `FiniteGraphs.WholeCleanIffFinite` | core/deterministic_context.go:259-270 | where every slice spans its memory, a finite unfolding alone decides |
| `FiniteGraphs.OwnPrefixReported` | core/deterministic_context.go:259-270 | a slice holding its own empty prefix is finite and reported |
| `PrimitiveContracts.NormSucceeds` | core/primitive_contracts.go:199-267 | normalisation succeeds exactly on acceptable values within 64 steps |
| `DataMeaning.NormExact` | core/primitive_contracts.go:199-267 | the same on the places of the value: none more than 64 steps down, no unsound scalar, no uintptr, no unsupported value, no non-nil map with other keys |
| `DataMeaning.NormKeeps` | core/primitive_contracts.go:214-262 | a snapshot holds, at every path of keys and indices and nowhere else, what the value held there: the same typed scalar, or a plain container of the same keys or length |
| `PrimitiveContracts.NormIdempotent` | core/primitive_contracts.go:199-267 | normalising plain data within the bound changes nothing |
| `PrimitiveContracts.RepeatabilityExact` | core/governance_engine.go:344-371 | two snapshots have equal canonical bytes exactly when they are equal, scalar types included |
| `PrimitiveContracts.ClonableIffFits` | core/deterministic_context.go:168-188 | a context accepts exactly encodable data within 256 steps, interface hops counted |
| `DataMeaning.ClonableExact` | core/deterministic_context.go:168-216 | the same on the places of the data: none more than 256 steps down, no unsound scalar, no unsupported value, no map with other keys |
| `PrimitiveContracts.PlainDepth` | core/proof_theory.go:592-604 | for plain data, steps and container levels convert: 2n+1 steps are n levels |
| `DataMeaning.NestedExact` | core/proof_theory.go:592-604 | levels count the keys and indices on the way to a value, and no interface hops |
| `ResultNormalizer.NormalisesIffFinite` | core/primitive_contracts.go:199-267 | on a possibly cyclic graph, normalisation yields r exactly when the value has a finite unfolding that normalises to r |
| `FailureTexts.FailsWithText` | core/primitive_contracts.go:199-267 | a value has a text to fail with exactly when normalisation fails: one per bad field, and for a slice those of its first bad item |
| `FailureTexts.UnfoldedTexts` | core/primitive_contracts.go:199-267 | sharing makes no difference to the texts |
| `FailureTexts.PartTexts` | core/primitive_contracts.go:237-258 | the texts of a map are those of its bad fields, each after the quoted key; the texts of a slice those of its first bad item, after its index |
| `ResultNormalizer.GraphFailsWithText` | core/primitive_contracts.go:199-267 | the same on a graph, cyclic ones included |
| `ResultNormalizer.RejectedWithText` | core/primitive_contracts.go:150-197 | a result has a text to be rejected with exactly when it is rejected; metadata is reported before evidence |
| `ResultNormalizer.ClonePrimitiveValue` | core/primitive_contracts.go:199-267 | the walk over the graph computes exactly that, in any map order, and fails with one of the texts the graph allows |
| `ResultNormalizer.NormalizeEvaluationResult` | core/primitive_contracts.go:150-197 | accepts exactly results with a boolean, an object and an array that normalise, and otherwise gives one of the texts; its last check never fails |
| `DataMeaning.ResultExact` | core/primitive_contracts.go:150-197 | a result is n exactly when `valid` holds n's verdict as a plain bool, and `metadata` and `evidence` have finite unfoldings whose snapshots are n's object and n's array |
| `ProofEncoding.UntagTag` | core/proof_theory.go:592-677 | a decoder recovers every encoded value exactly, even when user maps contain the tag keys |
| `ProofEncoding.TagInjective` | core/proof_theory.go:592-677 | encodings are equal exactly when the typed values are |
| `ProofEncoding.RootObjectInjective` | core/proof_theory.go:553-571 | at the root only container type and nil-versus-empty are forgotten |
| `ProofEncoding.RootArrayInjective` | core/proof_theory.go:573-590 | the same for arrays |
| `ProofEncoding.RootFits` | core/proof_theory.go:553-604 | encodable roots encode exactly when within 65 steps |
| `DataMeaning.RootExact` | core/proof_theory.go:553-604 | a map or slice encodes exactly when no place is more than 65 steps down, and every scalar is sound and every value supported |
| `ProofMeaning.TagWritten` | core/proof_theory.go:592-677 | every encodable value is written bare when it is nil, a plain bool or a plain string, and otherwise with its kind, type and value under the three tag names |
| `ProofEncoding.NormalisedEncodes` | core/proof_theory.go:592-604 | a normalised result encodes exactly when nothing in the raw result lies more than 32 containers down |
| `ProofEncoding.TypedNestIsLost` | core/proof_theory.go:592-604 | typed results nested 33 to 64 slices deep normalise and cannot be encoded, although the raw result could |
| `ProofEncoding.DeepContextIsLost` | core/proof_theory.go:553-571 | contexts of 66 to 256 steps are accepted and have no encoding |
| `ProofEncoding.PlainResultsEncode` | core/primitive_contracts.go:199-213 | results built from interface-valued containers that normalise always encode |
| `ProofEncoding.CloneStoredIdentity` | core/proof_theory.go:728-793 | cloning stored values is the identity on everything the encoder produces |
| `DataMeaning.StoredExact` | core/proof_theory.go:728-793 | stored data is accepted exactly when every place is nil, a plain bool, a plain string or a plain container |
| `DataMeaning.StoredKeeps` | core/proof_theory.go:728-793 | the clone holds, at every path of keys and indices and nowhere else, what the stored value held |
| `ProofWalkers.EncodeProofValue` | core/proof_theory.go:592-669 | the recursive encoder computes the tagged document, or fails exactly on depth and unsupported values |
| `ProofWalkers.EncodeProofRootObject` | core/proof_theory.go:553-571 | the root encoder, in any map order |
| `ProofWalkers.CloneStoredValue` | core/proof_theory.go:767-793 | clones stored values of any nesting: the depth test never trips |
| `ProofTheory.VerifierSound` | core/proof_theory.go:63-168 | acceptance means distinct non-blank IDs, versions for exactly those IDs, each reported by the supplied primitive and named by the signal, decision equal to the non-empty conjunction of signals, and a context for every permit |
| `ProofMeaning.AcceptsExactly` | core/proof_theory.go:63-168 | the verifier accepts exactly the proofs whose schema, IDs, versions, signals, commitments, decision, reasons, context and envelope stand, each field by a condition on the data alone |
| `ProofMeaning.GeneratesExactly` | core/proof_theory.go:238-329 | the generator serves exactly the requests whose IDs, versions, signals, decision, reasons and context do |
| `ProofMeaning.GeneratedSignal` | core/proof_theory.go:262-300 | the i-th stored signal names the request's i-th ID and its version, says what the signal given said, holds its data in canonical form, and is what its commitment hashes |
| `ProofMeaning.GeneratedFields` | core/proof_theory.go:302-329 | the other fields are the request's: time, order, decision, reasons, versions of exactly those IDs, the context in canonical form with its hash, or neither |
| `ProofMeaning.EnvelopeLists` | core/proof_theory.go:446-490 | the envelope lists order, commitments and reasons as they are, null when empty, and the version of every ID |
| `ProofMeaning.HexExact` | core/proof_theory.go:803-806 | the hexadecimal digits of a digest give it back |
| `ProofTheory.GeneratedIsAccepted` | core/proof_theory.go:238-329 | every generated proof is accepted when the primitives report the recorded versions |
| `ProofTheory.StoredSignalIdentity` | core/proof_theory.go:679-713 | a stored signal reads back as the signal that was encoded |
| `ProofMethods.GenerateProofForContext` | core/proof_theory.go:238-329 | the loop succeeds exactly on consistent requests and returns exactly the proof described |
| `ProofMethods.Verify` | core/proof_theory.go:63-168 | the loop accepts exactly the proofs that meet the loop-free conditions |
| `ProofMethods.CanonicalizeSignalInput` | core/proof_theory.go:501-538 | reads a signal exactly when its five fields have the right types and its data encodes |
| `ProofMethods.CloneStoredSignal` | core/proof_theory.go:679-713 | reads a stored signal exactly when it is canonical |
| `ProofMethods.ValidateFailureReasons` | core/proof_theory.go:431-444 | no blank reason, and reasons exactly for denials |
| `ProofMethods.ComputeEnvelopeCommitment` | core/proof_theory.go:446-490 | hashes exactly the envelope of the cloned proof |
| `ProofMethods.ReconstructContext` | core/proof_theory.go:170-187 | returns the bound context exactly when context and envelope match their commitments |
| `ProofMethods.GeneratedReconstructs` | core/proof_theory.go:170-187 | a generated proof reconstructs the context it was given |
| `ProofMeaning.IntactExactly` | core/proof_theory.go:170-187 | the context is returned exactly when it is canonical, hashes to its commitment, and the envelope hashes to its own |
| `ProofBinding.EnvelopeBinds` | core/proof_theory.go:446-490 | two accepted proofs with one envelope commitment agree on every field up to nil-versus-empty, or their envelopes collide, or their contexts do |
| `ProofBinding.RoundTripExact` | core/proof_theory.go:30-46 | any accepted proof survives JSON exactly when its context is absent or non-empty and signals, context and envelope as written hash to what they hashed to |
| `ProofMeaning.WrittenKeeps` | core/proof_theory.go:30-46 | stored data written as JSON and read back holds, at every path of keys and indices, what it held, and null for a nil container |
| `ProofBinding.RoundTripAccepted` | core/proof_theory.go:30-46 | an accepted proof without nil containers survives JSON exactly when its context is absent or non-empty, and keeps its envelope commitment |
| `ProofBinding.GeneratedRoundTrip` | core/proof_theory.go:137-154 | the same for every generated proof |
| `ProofBinding.NilsDoNotSurvive` | core/proof_theory.go:679-765 | a proof that survives has, for every signal with a nil container, a collision of that signal and one of the envelope with what is written for them, and one of the context if it holds a nil |
| `ProofBinding.EmptyContextIsLost` | core/proof_theory.go:41-42 | a concrete accepted proof that is rejected after the round trip |
| `EvaluationRecord.Judge` | core/governance_engine.go:305-412 | the chain of checks computes the outcome, asks no question after the first failing check, and stops at the first failing one |
| `EvaluationRecord.FirstFailure` | core/governance_engine.go:320-393 | the checks in order find the first that fails |
| `EvaluationRecord.EightChecks` | core/governance_engine.go:320-393 | the eight checks in terms of the answers: version, source and configuration before and after, two results, one encoding |
| `RecordMeaning.OverExactly` | core/governance_engine.go:320-393 | an evaluation is over exactly when an answer differs from what was registered, a result fails or is not repeated, or all eight answers agree |
| `RecordMeaning.DisagreementMeans` | core/governance_engine.go:305-319 | in the first case the signal is a denial of this registration without evidence |
| `RecordMeaning.AgreementMeans` | core/governance_engine.go:395-411 | otherwise the signal carries the verdict, metadata and evidence of the first result, and a denial gives the non-blank text under `reason`, or the stock reason when there is none |
| `EvaluationRecord.ValidOutcome` | core/governance_engine.go:320-404 | a valid outcome needs version, source and configuration to match before and after two evaluations with one valid result, and its signal names the registration and holds that result's metadata and evidence |
| `EvaluationRecord.SameBytesSame` | core/governance_engine.go:369-371 | the byte comparison compares normalised results |
| `EvaluationRecord.Collect` | core/governance_engine.go:230-249 | the loop records a prefix of the registrations, all but possibly the last valid, permitted being their conjunction |
| `EvaluationRecord.OutcomeReads` | core/proof_theory.go:501-538 | the generator reads an engine signal exactly when its data is at most 32 containers deep, and reads it as what it is |
| `EvaluationRecord.RecordGenerates` | core/governance_engine.go:262-278 | generation from an engine record fails only on nesting: of a signal beyond 32 containers or of the context beyond 65 steps |
| `Decisions.Conclude` | core/governance_engine.go:262-293 | a permit needs all registrations valid and a proof; without a proof the decision is a denial with no signals |
| `RecordMeaning.StoredOutcome` | core/governance_engine.go:262-278 | the proof of every finished evaluation stores, for each registration evaluated, its ID, version and verdict, and the canonical form of its signal's metadata and evidence |
| `RecordMeaning.PermitRecords` | core/governance_engine.go:201-293 | end to end, over every interleaving: the proof of a permit stores for every registered primitive the metadata and evidence it returned, in canonical form |
| `RecordMeaning.ConcludedProof` | core/governance_engine.go:262-278 | the proof carries the logical time, the verdict, the IDs in order, the recorded versions and reasons, and the context |
| `RecordMeaning.DenialProof` | core/governance_engine.go:458-477 | the proof of a precondition denial carries the logical time, its one reason, the context when there is one, and no primitive |
| `Decisions.CloneSignal` | core/governance_engine.go:281-291 | the snapshot of a proof's signal is the signal; its error branch is dead |
| `Decisions.PreconditionDenial` | core/governance_engine.go:458-477 | always denies; the proof is there exactly when the reason is not blank and the context shallow enough |
| `Decisions.DecisionVerifies` | core/governance_engine.go:262-293 | the proof of every decision verifies against primitives that report their registered versions |
| `Decisions.DeepContextNeverPermits` | core/governance_engine.go:262-278 | in a concrete valid context no evaluation, whatever its outcomes, yields a proof |
| `EngineSections.GovernanceEngine.constructor` | core/governance_engine.go:50-56 | a new engine has nothing registered and no flags set |
| `EngineSections.GovernanceEngine.HasPrimitiveID` | core/governance_engine.go:131-138 | finds an ID exactly when it is registered |
| `EngineSections.GovernanceEngine.BeginRegistration` | core/governance_engine.go:68-80 | the first locked region of a registration, as the machine uses it |
| `EngineSections.GovernanceEngine.PublishRegistration` | core/governance_engine.go:118-128 | the publishing region |
| `EngineSections.GovernanceEngine.EndRegistration` | core/governance_engine.go:81-86 | the deferred reset |
| `EngineSections.GovernanceEngine.ClearRegistrations` | core/governance_engine.go:485-495 | clearing, or flagging the attempt while a registration is active |
| `EngineSections.GovernanceEngine.TakeSnapshot` | core/governance_engine.go:213-224 | a nested call flags the evaluation it is nested in and changes nothing else |
| `EngineSections.GovernanceEngine.EnterCallback` | core/governance_engine.go:423-433 | records the callback of the goroutine |
| `EngineSections.GovernanceEngine.ExitCallback` | core/governance_engine.go:434-440 | forgets it, if it is still that evaluation's |
| `EngineSections.GovernanceEngine.FinalCheck` | core/governance_engine.go:251-260 | recursion first, then a changed configuration |
| `EngineSections.RegistrationNamed` | core/governance_engine.go:68-128 | the registration regions are the machine's, whatever number each evaluation state has |
| `EngineSections.EvaluationNamed` | core/governance_engine.go:213-260 | so are the evaluation regions; forgetting a callback needs numbers that tell two states apart |
| `EngineMachine.StacksKept` | core/governance_engine.go:414-442 | every step keeps every goroutine's stack well formed and its callback entry exact |
| `EngineMachine.CallbackReturns` | core/governance_engine.go:434-442 | a running primitive can always return |
| `EngineRegistration.OwnerKept` | core/governance_engine.go:68-86 | every step keeps: one registration at most, it owns the flag, and while it checks its ID stays free |
| `EngineRegistration.NeverDuplicate` | core/governance_engine.go:123-125 | the duplicate check of the publishing region never fires |
| `EngineRegistration.CompetitorRejected` | core/governance_engine.go:69-73 | registering or clearing during a registration changes nothing but the mutation flag |
| `EngineRuns.PermitSafe` | core/governance_engine.go:201-293 | over every interleaving, a permitted evaluation's snapshot is not empty, and is what is registered at the final check and was at every moment since this evaluation took it exactly when fewer than 2^64 publishes and clears fell in between |
| `EngineRuns.EpochExact` | core/governance_engine.go:251-254 | the final check sees a change exactly when the number of publishes and clears since the snapshot is no multiple of 2^64 |
| `EngineRuns.EpochWraps` | core/governance_engine.go:485-495 | from any state about to permit, 2^64 clears by another goroutine leave nothing registered and the permit goes through |
| `EngineRuns.PermitMatched` | core/governance_engine.go:305-412 | in a permitted evaluation every snapshot registration matched before and after two equal valid results |
| `EngineRuns.FinishedIsEvaluated` | core/governance_engine.go:230-278 | whatever finishes is a consistent record for the proof generator |
| `EngineRuns.RecursiveExactly` | core/governance_engine.go:217-221 | an evaluation's flag is set exactly when Evaluate was called inside one of its callbacks |
| `EngineRuns.RecursionDenied` | core/governance_engine.go:253-257 | an evaluation is denied for recursion exactly then |
| `EngineRuns.NestedStep` | core/governance_engine.go:217-221 | the nested call itself is denied on the spot: it only sets the flag |
| `EngineRuns.CallbacksTracked` | core/governance_engine.go:427-431 | in every reachable state the callback entry names the Evaluate callback the goroutine is in, and the refusing guard cannot fire |
| `EngineRuns.PublishesExactly` | core/governance_engine.go:68-128 | registrations are frozen from begin to publish, the primitive was found compliant in between, and a registration publishes exactly when no register or clear hit the engine in between |
| `EngineRuns.RegisteredVetted` | core/governance_engine.go:88-94 | in every reachable state, whatever is registered was found compliant between the begin and the publish of its own registration |
| `EngineRuns.PublicationStays` | core/governance_engine.go:81-86 | between publish and reset nothing undoes the publication |
| `EngineRuns.OneRegistration` | core/governance_engine.go:68-80 | at most one registration is in progress, exactly while the flag is set, and registered IDs stay distinct |
| `EngineProgress.PermitReachable` | core/governance_engine.go:201-293 | any run can be continued through a permit when the registered primitives answer as registered |
| `ComplianceChecker.CheckPrimitive` | core/compliance_checker.go:44-157 | an error exactly for a nil primitive; otherwise the report lists exactly the requirements checked and violated, in order |
| `ComplianceChecker.CompliantMeans` | core/compliance_checker.go:44-157 | compliant means: a name that does not fail, a non-blank version, no configuration or one fingerprint returned twice, no unacceptable source, and one result returned twice |
| `ComplianceChecker.ViolationsMean` | core/compliance_checker.go:44-157 | when each of the six requirements is reported as violated, in terms of what the primitive answers |
| `ComplianceChecker.CheckedMeans` | core/compliance_checker.go:62-121 | which requirements are listed as checked, each at most once |
| `ComplianceChecker.CompliantExactly` | core/compliance_checker.go:44-157 | compliant, that is identity, version, configuration and source in order and one result from both probes, means no violation |
| `ComplianceChecker.CompliantRepeats` | core/compliance_checker.go:110-154 | a compliant primitive returned one result twice |
| `Descriptors.DescriptorOrder` | core/composition_operators.go:116-136 | descriptorLess is a strict total order whose ties are full equality |
| `ConfigurationMeaning.DescriptorLessExact` | core/composition_operators.go:116-136 | one descriptor precedes another exactly when it has the smaller string in the first of identity, name, type, version, source, configuration and note in which they differ |
| `ConfigurationMeaning.OutcomeLessExact` | core/composition_operators.go:290-300 | outcomes are compared by descriptor, and equal descriptors by the bytes of their results |
| `Descriptors.AnySortAgrees` | core/composition_operators.go:207-211 | the unstable sort has one possible outcome |
| `Descriptors.VersionPreimageExact` | core/composition_operators.go:196-225 | version preimages are equal exactly when operator, threshold and children agree, as a sequence or as a multiset |
| `Descriptors.VersionBinds` | core/composition_operators.go:223-225 | equal versions mean equal children, or a collision |
| `ConfigurationMeaning.VersionMeans` | core/composition_operators.go:196-225 | the version of a composite is its operator's name and the digest of a document that holds the operator, the threshold if there is one, and its children's descriptors, in their order or sorted |
| `Composition.ObserveIsNormalisation` | core/composition_operators.go:261-285 | normalising a composite's result changes nothing or fails on depth alone, with a text exactly then |
| `Composition.AnswerOf` | core/composition_operators.go:261-285 | a leaf's answer is a normal result, or fails with at least one text |
| `CompositionTexts.VerdictFixed` | core/composition_operators.go:261-285 | the verdict of a composite, and whether its result normalises, are the same in all evaluations |
| `CompositionTexts.Resolve` | core/composition_operators.go:261-285 | every primitive has an evaluation |
| `CompositionMethods.ValidateConfiguration` | core/composition_operators.go:150-194 | the three loops accept exactly configured composites |
| `ConfigurationMeaning.LeafExact` | core/composition_operators.go:60-114 | a leaf is configured exactly when it has a non-blank version, a source and a configuration fingerprint, and, if named, a non-blank name; its descriptor then holds exactly these |
| `ConfigurationMeaning.LeafNote` | core/composition_operators.go:60-114 | otherwise its note names the first of them that is missing |
| `ConfigurationMeaning.ConfiguredExactly` | core/composition_operators.go:150-194 | a tree is configured exactly when every primitive in it is by itself: leaves as above, composites not empty, thresholds between 1 and the number of children, which are different objects of different identities |
| `ConfigurationMeaning.ValidIsConfigured` | core/composition_operators.go:339-476 | a valid composite has no leaf anywhere below it without version, source, configuration or name |
| `CompositionMethods.CheckReferences` | core/composition_operators.go:162-178 | no nil child and no reference twice |
| `CompositionMethods.OutcomesAsEvidence` | core/composition_operators.go:287-314 | numbers the sorted or unsorted outcomes |
| `ConfigurationMeaning.ChildMeans` | core/composition_operators.go:247-285 | a child is recorded with its result, or as a rejection with its error or with the note that it changed |
| `ConfigurationMeaning.SequentialFails` | core/composition_operators.go:345-359 | a sequential composite denies at its first invalid child, with that child's label and index and the records up to it |
| `ConfigurationMeaning.SequentialPasses` | core/composition_operators.go:361-367 | and without one is valid with the records of all children |
| `ConfigurationMeaning.ParallelMeans` | core/composition_operators.go:396-421 | a parallel composite is valid exactly when no child is invalid, and otherwise lists labels; its evidence is the numbered records of all outcomes in sorted order |
| `ConfigurationMeaning.FailedLabelsExact` | core/composition_operators.go:239-245 | the labels listed are those of the invalid children: name, identity, or number |
| `ConfigurationMeaning.ThresholdMeans` | core/composition_operators.go:451-475 | a threshold is valid exactly when the number of valid children reaches it, and says the number |
| `CompositionMethods.Evaluate` | core/composition_operators.go:339-476 | the three operators return what some evaluation of the composite returns, one of those the theorems speak about |
| `CompositionMethods.RunUntilFailure` | core/composition_operators.go:345-359 | the sequential loop runs exactly up to the first failure, on outcomes its children may have |
| `CompositionMethods.RunTogether` | core/composition_operators.go:396-403 | the parallel loop runs all children, each to an outcome it may have, and lists the failed ones |
| `CompositionMethods.RunCounting` | core/composition_operators.go:451-458 | the threshold loop does the same and counts the valid ones |
| `CompositionOrder.ThresholdOrderFree` | core/composition_operators.go:424-476 | a configured threshold may return the same results for every order of its children, and one result given what each child did |
| `CompositionOrder.ParallelOrderExact` | core/composition_operators.go:370-422 | a parallel composite may return the same results for every order exactly when no evaluation has two children tie with one failed and the other not |
| `CompositionResults.NeverTiesExact` | core/composition_operators.go:287-314 | no evaluation does exactly when no leaf returns a denial that a child of the same description may be recorded with |
| `CompositionOrder.TwinsShowOrder` | core/composition_operators.go:287-314 | a configured parallel composite that has such a tie and shows the order of its children |
| `CompositionOrder.SortKeepsOrder` | core/composition_operators.go:290-300 | a stable sort leaves tied outcomes in their order |
| `CompositionOrder.VersionOrderFree` | core/composition_operators.go:196-211 | neither does the version depend on the order |
| `CompositionResults.OneResultExact` | core/composition_operators.go:239-314 | a configured composite returns one result in all evaluations exactly when each child it evaluates shows one outcome |
| `CompositionResults.LeafOneOutcome` | core/composition_operators.go:261-285 | a leaf does exactly when its result normalises or fails with at most one text |
| `CompositionResults.CompositeOneOutcome` | core/composition_operators.go:261-285 | a composite child does exactly when it returns one result, or, that being too deep, fails with one text |
| `CompositionResults.SettledOneResult` | core/composition_operators.go:239-314 | so a composite whose leaves normalise or fail at one place, and whose composite children normalise, returns one result |
| `CompositionFailures.TwoChannelsTwoResults` | core/primitive_contracts.go:237-245 | a configured threshold over one deterministic leaf that does not |
| `CompositionFailures.DeepTwiceTwoResults` | core/primitive_contracts.go:237-245 | and one over a composite whose leaf answers normally |
| `CompositionMeaning.VerdictExact` | core/composition_operators.go:339-476 | a composite is valid exactly when configured and enough children are accepted |
| `CompositionMeaning.NeverMoreThanFormula` | core/composition_operators.go:339-476 | at any depth a composite accepts only what its Boolean formula allows |
| `CompositionDepth.DepthExact` | core/composition_operators.go:247-314 | depth and verdict of any configured tree, read off the tree: children the sequential operator skips do not count, and a child too deep to normalise is recorded as a shallow rejection |
| `CompositionDepth.EvidenceFits` | core/composition_operators.go:247-314 | evidence is exactly six steps deeper than the children's results |
| `CompositionDepth.Meaning` | core/composition_operators.go:339-476 | any tree is valid exactly when configured, its formula holds and it survives its depth; so validity is configuration and formula exactly when those do not hold or it survives |
| `CompositionDepth.AcceptedExact` | core/composition_operators.go:261-285 | a caller accepts it exactly when, besides, the result itself normalises |
| `CompositionDepth.ConjunctiveMeaning` | core/composition_operators.go:339-422 | a tree of sequential and parallel composites over any leaves is valid exactly when configured, its formula holds and every composite child stays within 64 steps |
| `CompositionDepth.RoomyMeaning` | core/composition_operators.go:339-476 | any tree that stays within 70 steps is valid exactly when configured and its formula holds |
| `CompositionLimits.TowerExact` | core/composition_operators.go:261-281 | composites nested around a sound leaf are valid exactly up to eleven levels and accepted up to ten |
| `CompositionLimits.VerdictMonotone` | core/composition_operators.go:339-476 | improving leaves keeps a valid composite valid exactly when the improved tree survives its depth |
| `CompositionLimits.DeepAnswerLosesVerdict` | core/composition_operators.go:261-281 | a leaf turning valid with 64 steps of evidence makes a valid composite invalid, configured and with a true formula |
| `CompositionLimits.OneBitLosesVerdict` | core/composition_operators.go:261-281 | so does the `valid` bit of one leaf alone |
| `CompositionMeaning.AllOfThemIsAnd` | core/composition_operators.go:424-476 | an n-of-n threshold decides what both conjunctions decide |
| `CompositionMeaning.SameOperatorClashes` | core/composition_operators.go:108-112 | a threshold over two unnamed composites of one operator is never valid |
| `CompositionMeaning.MisconfiguredBelow` | core/composition_operators.go:102-107 | one misconfigured descendant makes every composite above it invalid |

Tags, field names and fixed texts are spelled out literally beside these: `ByteFormats.LeafBytes`, `PreimageBytes` and
`PlainTypeIds`; `ProofMeaning.EnvelopeFields`; `ConfigurationMeaning.EntryFields`, `EntryResult`, `DescriptorFields`
and `CompositeDescribed`; `FailureTexts.LeafTextsMean` and `ScalarTextsMean`.

## Left out

- CanonicalWriter.WriteCanonicalValue: stated for maps with string keys, the only maps a context or a normalised result can hold; the source would print other keys through reflection.
- CanonicalWriter.CanonicalPrimitiveJson: the same, for values that hold maps with other keys; normalisation lets none through.
- CanonicalWriter.ComputeContextCommitment: the same; the cloner rejects such maps before a context is committed to.
- DeterministicContext.DeterministicContext.Get: stated for keys of the stored map; `Has`, `Time` and the refusing setters add nothing.
- ProofBinding.RoundTripAccepted: strings are taken to be valid UTF-8, which JSON carries unchanged; replacement of invalid bytes is not modelled.
- EngineRuns.PermitMatched: equality of the two results is stated for results whose lengths and integers fit the encoding's eight-byte fields and whose type identifiers are shorter than 0x6E·2^56 bytes, as all Go data is.
- CompositionMethods.Evaluate: children are deterministic and stable while the composite runs; the check for a changed descriptor is part of `ChildOutcome`, but a tree whose descriptors change during evaluation is not modelled.
- CompositionOrder.ParallelOrderExact: for configured composites whose results have Go's sizes; the text of a configuration error names a child's index and depends on order.
- A slice is a start address and a length over one block of memory, so a slice and its prefix share cells; slices that overlap without starting at the same address are not modelled.
- TypeIdentifiers.TypeIdInjective: predeclared and package-level types that are not instantiated generics, and map, slice, array and empty-interface types over them. The name of an instantiated generic type holds brackets and dots, which the parser takes for structure; those are excluded, as are two types declared under one name inside different functions, other interfaces, and unnamed pointer, struct, channel and function types. Values carry the identifier as text.
- TypeIdentifiers.ParsesTypeId: the same exclusion, of instantiated generic types above all.
- Error and panic texts are constants in the engine and the proofs; only success, failure and non-blank reasons are kept. The texts of result normalisation are modelled, with the quoting of keys that need escapes and the printed names of types as parameters; a primitive that panics fails with one text.
- `core/determinism_enforcer.go` appears as a predicate on the source; its use of Go's parser is not modelled.
- SHA-256, constant-time comparison and JSON text layout.
- Parsing of goroutine numbers, and the precondition denials before the snapshot (nil or invalid context, mismatched time), which touch no shared state.
- Legacy proof generators, `CommitSignal`, `CheckAll`, the specifications in `core/formal_semantics.go`, and the command line.
