# Verified model of anasemble

A Dafny model of the parts of anasemble that decide whether a recovery can be believed, with
proofs of what those parts promise. `dafny verify dfyconfig.toml` checks all of it.

anasemble rebuilds a lost software component from signed evidence. A bounded search builds a
finite-state table, a separately written checker certifies it across a private binary format, and a
small compiler turns it into a WebAssembly `step` function. Around that core stand a canonical CBOR
codec, a durable job scheduler, the activation of containers and Kubernetes objects, transactions on
state files, the admission of evidence fragments, retrieval of sealed evidence from several stores,
and semantic snapshots with their diffs.

## What is proved

- **The pipeline** (`Evaluation`, `Trails`, `Search`, `SearchMeaning`, `DirectBuilder`, `DirectMeaning`,
  `WebAssembly`, `Sandbox`, `Compilation`, `Wire`, `WireIo`, `Checker`, `Certification`,
  `CertificationMeaning`, `Pipeline`, `PipelineMeaning`). The search is exact about all
  (|S|·|O|)^(|S|·|I|) tables, in terms of the transitions the evidence asks for and the trails of states it
  describes. The wire format is a bijection on its domain. Certification fixes each cell by exactly one
  contract fragment and replays every held-out trace. The compiled module validates, never traps, and
  answers as the table on every input sequence. `Pipeline` joins the claims into one: a recovery is the only
  table that agrees with its contract, whatever mode and builder found it, and its module reproduces it.
- **Canonical CBOR** (`Cbor`, `CborMirror`, `CborProofs`, `CborDecoded`, `CborStrict`, `CborIo`).
  Prefix-freeness of the encoding, what decoding an encoding returns and when that is the encoded tree, and
  when accepted bytes are canonical. Whatever the decoder accepts re-encodes to no more bytes. The proofs go
  through the encoder's true inverse (`CborMirror`), which the decoder is but for negative integers
  (`DecodeSlips`).
- **The scheduler** (`Scheduler`, `SchedulerSafety`, `SchedulerAccounting`, `SchedulerEffects`,
  `SchedulerStore`). What each operation does to one record and leaves of the others; safety of every
  interleaving of any number of runners; the accounting law of one runner at a time, with stops inside and
  after any claim and between any two removals of a prune; the class that updates the store in place, proved
  against those functions, and a batch whose receipt is what the metrics gained.
- **Activation** (`Docker`, `DockerHost`, `Kubernetes`, `KubernetesHost`). Docker activation is
  restartable and exclusive; the Kubernetes Service always selects a Deployment that became ready.
- **State** (`StateStore`, `StateFiles`, `Snapshots`). No stop point loses prior state before a commit.
- **Evidence** (`CycleCheck`, `Fragments`, `EvidencePlane`, `EvidenceQuorum`). Cycle rejection is exact,
  admission is exact, and fewer faulty stores than required copies cannot sway what is retrieved.
- **Semantic diffs** (`SemanticDiff`, `SemanticDiffProofs`, `SemanticDiffMeaning`, `SemanticDiffContent`,
  `SemanticSnapshot`). Each operation says what is so, in a fixed order.
  Move classification is a maximum matching; the operations rebuild the later snapshot exactly when no
  move was possible.

Where the program changes something step by step, the model is a method or a class, proved equal to a
function of its input or of the old state, and the results are lemmas about that function. `Basics`,
`Bytes` and `Sorting` hold what several components share.

## Conventions

- A text is its UTF-8 bytes, compared byte by byte as `str` is.
- SHA-256 digests are injective, and where a digest is only compared it is kept as what it digests.
- Signatures, decryption, time stamps and hexadecimal keys are verdicts carried by the data
  (`authentic`, `signed`, `timely`, `keyUsable`, …), and so is the frame bound on a snapshot or diff (`fits`).
- Single file writes, renames and removals are atomic, and so is each call of `docker` or `kubectl`.
  A transaction is the list of worlds its calls produce, so a stop after any call is a prefix.
- An ordered map is a list ordered by key, or a map where its order never shows.
- Errors keep the variant the source returns but not the message.
- Integers are unbounded, and the source's widths are written out where they decide something (32-bit
  lengths, the 64-bit search counter, saturating lease times, the two halves of a packed `i64`).

## What the proofs found

Each of these is a property one might expect and the code does not have on all inputs: an input on which
it fails, and the condition under which it holds, if and only if.

- **A recovery reproduces its training traces** exactly under the exhaustive grammar in full mode, and in
  trace-only mode (`TrainingBindsExactly`, `TrainingReplayed`). The checker passes training traces over, the
  direct builder never looks at them, and the centralized mode withholds them: `TrainingContradicted` gives
  a certified recovery that contradicts one. Held-out traces, negative cases and repetitions always bind
  (`HeldOutReplayed`, `NegativesAvoided`, `RepetitionsReplayed`).
- **The direct builder repeats a successful search** exactly when its own linear count fits the limit, and
  is out of budget otherwise. Two (next state, output) choices are enough for the former
  (`DirectRefinesSearch`); with a single choice the search succeeds within a limit of one and the direct
  builder stops at the second cell (`SingleChoiceExhausts`).
- **Restore then rollback is the identity** exactly when there is a destination that is not a file above
  `MAX_STATE_BYTES` (`RestoreRollbackIdentity`). Above the bound the restore succeeds and nothing can
  undo or confirm it (`OversizedPriorIsStuck`).
- **A stopped state transaction can be taken up again** exactly at the stops listed by
  `InterruptedRestore`, `InterruptedFirstRestore`, `InterruptedRollback` and `InterruptedCommit`. The
  others leave the staging file, or the activation marker alone, and then every operation refuses:
  `BlockedExactly` says when that is so in any world, and `OrphanMarkersBlock` gives the two runs that end
  with the marker alone. The prior state is never lost by it.
- **A step leaves finished jobs as they are**, whatever the runners do, exactly when it is not a failure
  report for a finished job whose chain has room (`TerminalRecordsChangeOnlyLate`, and over histories
  `VerdictsStand`). One runner at a time never sends one (`SoloVerdictsAreFinal`). Two can, and then a
  verdict is overturned: `LateFailureHappens` gives the run from an empty store.
- **A finished job can be pruned** exactly when it is neither a failed job whose earlier attempt had
  already written its result, nor a certified or refused one whose result is gone
  (`PruneRefusesLeftovers`). Both kinds arise under every configuration, the first when a runner stops
  before it records its verdict (`LeftoversHappen`), the second when a prune stops between its two removals
  (`TornPrunesHappen`) and only then (`VerdictsKeepResults`). They stay in every later history of one runner
  at a time (`LeftoverStays`), and hold up all younger jobs of a prune that reaches them
  (`LeftoverHoldsUpPrune`).
- **Decoding inverts encoding** exactly on the trees in which no integer below -1 occurs
  (`CborDecoded.RoundTrip`, `FrameRoundTrip`). For an argument `n` of major type 1 RFC 8949, section 3.1,
  means -1 - n, and the module calls itself canonical CBOR by that standard; the expression at
  crates/anasemble-core/src/cbor.rs:141 negates the checked difference 1 - n instead, since a method call
  binds tighter than a sign. So -2 is written as `0x21` and read as 0 (`NegativesSlip`).
- **Accepted CBOR is canonical** exactly when it holds no padded head and no head of a negative integer with
  an argument other than 0: when a decoder accepts it that differs only in refusing those
  (`CanonicalExactly`, `StrictAcceptsEncodings`). The decoder itself takes every argument in every width
  that holds it (`DecoderTakesLongForms`).
- **A diff rebuilds the later snapshot** exactly when moves are off or no removed and added entities share
  a digest: a move says where an entity went and not where it came from (`DiffRebuilds`). Two different
  later snapshots can have the same diff (`MovesLoseTheirOrigin`).
- **Faulty stores cannot stop a retrieval**: they can, although fewer than the required copies cannot
  change what it returns (`FaultyCannotSway`). `RetrievalSucceeds` says exactly when it succeeds. From two
  required copies on any single store can refuse it by carrying an envelope nobody else carries
  (`LoneEnvelopeRefuses`, `OneStoreRefuses`). With one required copy the copy quorum refuses nothing:
  admission alone decides, and what a single store carries is returned (`SingleCopyTrustsEachStore`).

## Model

| member | source | states |
|---|---|---|
| Model.GrammarTableShape | src/model.rs:93-150 | a validated grammar has repetition-free cells and choices, at most 256 cells, as many as states times inputs |
| Evaluation.Execute | src/synthesizer.rs:191-206 | the loop over the inputs computes the run of the table, or refuses at the first unknown symbol |
| Evaluation.Idempotent | src/synthesizer.rs:208-228 | the repetition loop passes exactly when every repetition repeats the first output and state |
| Evaluation.Satisfies | src/synthesizer.rs:118-189 | the evidence loop equals the verdict of the whole list, errors of earlier fragments first |
| Evaluation.MeetsAllEach | src/synthesizer.rs:118-189 | a table satisfies the evidence exactly when it meets each fragment by itself |
| Evaluation.TableOfDistinct | src/synthesizer.rs:118-135 | with one transition for each cell the map built from the list holds exactly the listed transitions |
| Trails.RunMeans | src/synthesizer.rs:191-206 | a run returns exactly the outputs along the one trail of listed transitions from its state, and fails exactly when there is no such trail |
| Trails.MeetsMeans | src/synthesizer.rs:136-187 | for every kind of fragment: a table passes exactly when its transitions explain the fragment (the demanded transition is listed, a trail has the trace's outputs, a trail has other outputs than the forbidden ones, one input settles), and evaluation fails exactly where a transition is missing |
| Trails.VerdictMeans | src/synthesizer.rs:118-189 | the verdict on a list is positive exactly when every fragment is explained, and an error exactly when the first one that is not lacks a transition |
| Search.Searcher.Enumerate | src/synthesizer.rs:67-116 | the backtracking recursion on one assignment stack is a left-to-right scan of the subtree's complete tables, and gives the stack back as it found it |
| Search.ReconstructV1 | src/synthesizer.rs:18-64 | the search returns the answer of a scan over all tables, counter and limit included |
| Search.LeavesExact | src/synthesizer.rs:67-116 | the tables visited below a prefix are exactly the total assignments that extend it |
| Search.LeavesDistinct | src/synthesizer.rs:67-116 | no table is visited twice, and below a prefix there are choices to the power of the cells left |
| Search.ScanReports | src/synthesizer.rs:80-116 | what the scan's counter, solutions and failure mean for the tables scanned so far |
| Search.SpaceFacts | src/synthesizer.rs:18-64 | the search space is exactly the set of tables of the grammar, without repetition, and holds (states·outputs) to the power (states·inputs) of them |
| Search.SynthesisExact | src/synthesizer.rs:18-116 | a returned table satisfies the evidence, no other table does, and `examined` is the size of the space and within the limit; a contradiction means none satisfies; an ambiguity means two distinct tables do |
| Search.SynthesisComplete | src/synthesizer.rs:18-116 | when the space fits the limit and no table meets an unknown symbol, the search succeeds if and only if a unique solution exists |
| SearchMeaning.SynthesisMeans | src/synthesizer.rs:18-189 | a returned table explains every fragment and no other table of the grammar does; a contradiction means none does, an ambiguity that two do, invalid evidence that a fragment names an unknown symbol |
| SearchMeaning.SynthesisDecides | src/synthesizer.rs:18-189 | within the budget and over known symbols each of the three answers is given exactly when one, none or several tables explain the evidence |
| SearchMeaning.StuckIsUnknown | src/synthesizer.rs:191-228 | on every table of the grammar an evaluation fails exactly for a fragment with an unknown symbol |
| SearchMeaning.FoundFollowsEvidence | src/synthesizer.rs:136-187 | the returned table lists every demanded transition, leads along every training trace to its outputs and along no negative case to the forbidden ones, and settles where a property says so |
| DirectBuilder.ReconstructV0 | src/synthesizer.rs:230-281 | the obligation loop and the nested probing loops compute the collected demands in cell order, with the source's errors |
| DirectBuilder.Probe | src/synthesizer.rs:256-281 | the shared counter refuses exactly when cells times choices exceeds the limit, and each cell yields its demanded transition once |
| DirectBuilder.CollectCoversCells | src/synthesizer.rs:230-255 | as many obligations as cells means that every cell has one |
| DirectBuilder.DirectRefinesSearch | src/synthesizer.rs:18-281 | where the search succeeds and the contract names every cell, the direct builder returns the same transitions in the same order if and only if its count fits the limit, which two choices guarantee, and is out of budget otherwise |
| DirectBuilder.SingleChoiceExhausts | src/synthesizer.rs:18-281 | one state, one output, two inputs and a limit of one: the search returns its table with `examined` one, and the direct builder is exhausted |
| DirectMeaning.DirectMeans | src/synthesizer.rs:230-281 | the direct builder builds exactly from a valid, consistent and complete contract within its limit, lists one transition for each cell with every demanded one among them, and each refusal names what is missing |
| WebAssembly.OrIntoRoom | src/sandbox.rs:46-48 | or-ing a k-bit number into a number shifted left by k is addition |
| WebAssembly.ValidationIsSound | src/sandbox.rs:166-178 | code of the modelled subset that validates never traps and leaves the promised stack |
| Sandbox.IndexOf | src/sandbox.rs:180-185 | the first position of a symbol that fits an `i32`, an error if there is none |
| Sandbox.PackRoundTrip | src/sandbox.rs:46-48 | packing next state and output into an `i64` loses nothing and never gives -1 |
| Sandbox.LowerAllRefuses | src/sandbox.rs:24-60 | the compiler refuses exactly when some transition has an unknown symbol |
| Sandbox.Compile | src/sandbox.rs:21-60 | the two emitting loops produce one conditional prologue for each transition, the default and the closing `end`s |
| Sandbox.ReadNest | src/sandbox.rs:28-58 | the flat instruction sequence parses back as the nested conditional, with nothing left over |
| Sandbox.NestChecks | src/sandbox.rs:28-58 | the nested conditional validates with one `i64` result |
| Sandbox.ModuleMeaning | src/sandbox.rs:21-60 | for any two integers the emitted module parses, validates, dispatches to the first matching row or gives -1, and runs at most 8·transitions+1 instructions that are not `end` |
| Compilation.CompiledAgrees | src/sandbox.rs:21-60 | `step` answers every known cell as the table prescribes |
| Compilation.CompiledElsewhere | src/sandbox.rs:21-60 | for integers that index no listed cell `step` answers -1 |
| Compilation.FoldFollowsTable | src/sandbox.rs:62-117 | any module that agrees with the table cell by cell, folded over an input sequence, gives the table's trace or stops where it stops |
| Compilation.CompilationPreservesTraces | src/sandbox.rs:21-60 | folding the compiled `step` over any input sequence gives the table's trace, unknown symbols included |
| Compilation.Verify | src/sandbox.rs:62-117 | the pairwise loop passes exactly when the module answers every transition of the table as packed |
| Compilation.PassingModuleAgrees | src/sandbox.rs:62-117 | for a total table any module that passes the pairwise check behaves as the table |
| Compilation.CompiledPasses | src/sandbox.rs:21-117 | the compiler's output always passes the pairwise check |
| Wire.CandidateReads | src/checker.rs:201-293 | what the encoder wrote, followed by anything, is read back exactly if the candidate is within the reader's bounds and refused otherwise |
| Wire.CandidateWrites | src/checker.rs:201-293 | whatever the reader accepts is the encoding of its result followed by what was left unread |
| Wire.RoundTrip | src/checker_wire.rs:5-44 | decoding an encoding gives the candidate back if it is within the bounds and nothing otherwise |
| Wire.AcceptedIsCanonical | src/checker.rs:201-248 | every accepted wire is the encoding of what it decodes to |
| Wire.PrefixFree | src/checker.rs:201-248 | no accepted wire is a proper prefix of another |
| Wire.SampleWire | src/checker_wire.rs:3-44 | the magic bytes spell `ANCKM1`, and the wire of a one-cell candidate, byte by byte |
| WireIo.Writer.PushTexts | src/checker_wire.rs:25-31 | appends the length and every text of a vector, or fails when a length does not fit |
| WireIo.Writer.PushTransitions | src/checker_wire.rs:14-22 | appends the count and the four fields of every transition |
| WireIo.EncodeCandidate | src/checker_wire.rs:5-44 | the appending encoder computes the wire bytes exactly when every length fits 32 bits |
| WireIo.Reader.ReadText | src/checker.rs:272-282 | a bounded, valid UTF-8 text is taken and the offset moves past it, or nothing is returned |
| WireIo.DecodeCandidate | src/checker.rs:201-293 | the advancing reader computes the decoding function, trailing bytes refused |
| WireIo.ValidCandidateBounds | src/checker.rs:201-293 | a valid candidate is within the wire bounds if and only if its three identifying texts are |
| Checker.RunTrace | src/checker.rs:295-311 | the loop over the nested map computes the run, or refuses |
| Checker.CheckIdempotent | src/checker.rs:313-335 | the loop passes exactly when every repetition repeats the first output and state |
| Checker.TracesAgree | src/checker.rs:295-311 | on every table and input sequence the checker's nested-map run is the synthesizer's flat-map run |
| Checker.RepetitionsAgree | src/checker.rs:313-335 | the two repetition checks agree on every table |
| Checker.RepetitionIsConstant | src/checker.rs:313-335 | one passing check with any count of at least two means constant output and state for every number of repetitions |
| Certification.BuildTable | src/checker.rs:52-76 | filling the nested table succeeds exactly on valid transitions without a repeated cell |
| Certification.CheckAll | src/checker.rs:78-189 | the counting loop passes exactly when every fragment passes, and its five counters are the fragments of each kind |
| Certification.Certify | src/checker.rs:23-199 | certification succeeds exactly on a well-formed wire of the right identity whose table is complete and passes all evidence with the required counts |
| Certification.CertifiedContractIsComplete | src/checker.rs:78-189 | over distinct contents, certification means that each cell is demanded by exactly one contract fragment |
| Certification.CertificationPins | src/checker.rs:41-189 | a certified candidate's table is the only one that obeys the contract |
| Certification.OnlyHeldOutOrCountsRefuse | src/checker.rs:23-199 | a table the search found, sent within the wire bounds, is refused only for its identity, a held-out trace or the fragment counts |
| CertificationMeaning.CertificateMeans | src/checker.rs:23-199 | a certificate is issued exactly for a candidate of the right identity with one valid transition for each cell that does what every fragment demands of its transitions, over as many contract fragments as cells, a held-out trace and one state policy |
| CertificationMeaning.CertifiedTraces | src/checker.rs:103-168 | a certified table replays every held-out trace from a declared state, gets through every negative case with other outputs, and is constant where a property says so |
| CertificationMeaning.CountMeans | src/checker.rs:78-199 | the counts of a coverage report are the numbers of fragments of each kind |
| Pipeline.Reconstruct | src/synthesizer.rs:5-16 | the grammar version selects the builder, an unknown version is refused |
| Pipeline.Recover | src/protocol.rs:148-286 | the pipeline returns a recovery exactly when one exists: after certification neither compiler nor module check refuses |
| Pipeline.RecoveryIsPinned | src/protocol.rs:186-239 | a recovered table is the only one agreeing with its contract, and its module gives its trace on every input sequence |
| Pipeline.FullRecoveryIsUnique | src/protocol.rs:186-239 | in full mode under the exhaustive grammar the recovered table is the only one of all tables that satisfies the evidence |
| Pipeline.RecoveryIsModeIndependent | src/protocol.rs:186-239 | two recoveries of the same symbols over the same evidence, in any modes and by either builder, have the same transitions and module |
| Pipeline.AdmittedRecoveryIsPinned | src/fragments.rs:361-365 | for fragments that were admitted, whatever is recovered from them is pinned without further assumption |
| PipelineMeaning.SelectedExactly | src/protocol.rs:190-198 | a mode withholds exactly its one kind of fragment and hands on every other one as often as there is one |
| PipelineMeaning.SelectedInOrder | src/protocol.rs:190-198 | what is handed on keeps its order |
| PipelineMeaning.RecoveredIdentity | src/protocol.rs:148-239 | a recovery is of the registry's component, interface and grammar, is not forbidden, was found within the budget and rests on the one state policy that is the grammar's |
| PipelineMeaning.HeldOutReplayed | src/protocol.rs:199-239 | the emitted module, started in its state, puts out every held-out trace |
| PipelineMeaning.NegativesAvoided | src/protocol.rs:199-239 | it gets through every negative case without the forbidden outputs |
| PipelineMeaning.RepetitionsReplayed | src/protocol.rs:199-239 | it repeats its output for any number of repetitions where a property asks for it |
| PipelineMeaning.RulesReplayed | src/protocol.rs:199-239 | it makes every demanded move and goes on from the demanded state |
| PipelineMeaning.TrainingReplayed | src/protocol.rs:190-239 | under the exhaustive grammar, unless traces are withheld, it puts out every training trace |
| PipelineMeaning.TrainingBindsExactly | src/protocol.rs:190-239 | every recovery of a version and mode follows its training traces if and only if the mode is trace-only, or the version is the exhaustive one and the mode is full |
| PipelineMeaning.TrainingContradicted | src/protocol.rs:190-239 | in each other case a certified recovery whose table contradicts a training trace |
| CborProofs.HeadShortest | crates/anasemble-core/src/cbor.rs:81-98 | reading a head never takes fewer bytes than writing its argument, and as many only for the written form |
| CborProofs.EncodesWithinDepth | crates/anasemble-core/src/cbor.rs:25-50 | the encoder refuses exactly the trees nested too deep |
| CborProofs.EncodingsPrefixFree | crates/anasemble-core/src/cbor.rs:25-98 | no encoding is a proper prefix of another, and different values encode differently |
| CborProofs.InvertsEncoding | crates/anasemble-core/src/cbor.rs:25-98 | an encoding followed by any suffix determines the tree and the suffix: reading it, an argument n of major type 1 taken as -1 - n, gives both back |
| CborDecoded.DecodeSlips | crates/anasemble-core/src/cbor.rs:109-194 | on all bytes the decoder is the encoder's inverse followed by replacing every negative n by -n - 2 |
| CborDecoded.RoundTrip | crates/anasemble-core/src/cbor.rs:25-194 | decoding an encoding followed by any suffix returns that suffix, and the encoded tree if and only if no integer below -1 occurs in it |
| CborDecoded.FrameRoundTrip | crates/anasemble-core/src/cbor.rs:15-107 | the same for whole frames, which exist for exactly the trees within the depth bound whose encoding is within the frame bound |
| CborDecoded.NegativesSlip | crates/anasemble-core/src/cbor.rs:139-148 | -2 is encoded as 0x21, which decodes to 0 as 0x00 does, and the least `i64` comes back as the one below the greatest |
| CborDecoded.DecodedReencodes | crates/anasemble-core/src/cbor.rs:25-194 | whatever is decoded keeps the types' promises, holds no integer below -1, and re-encodes, to no more bytes than were read and to bytes that decode to it again |
| CborDecoded.CanonicalIsShortest | crates/anasemble-core/src/cbor.rs:15-232 | for every accepted frame the canonical encoding of its value is accepted as that value, and none that is accepted as it is shorter |
| CborDecoded.DecoderTakesLongForms | crates/anasemble-core/src/cbor.rs:196-232 | behind anything and before anything, an argument written in any width that holds it decodes as the one the encoder writes, which is shorter unless it is the same |
| CborDecoded.DecodedKeysOrdered | crates/anasemble-core/src/cbor.rs:169-190 | in every object of an accepted tree each key comes before all later ones at the first byte in which they differ, or as a proper prefix |
| CborDecoded.KeyOrderDecides | crates/anasemble-core/src/cbor.rs:169-190 | a map of two keys is accepted in that order and refused in the other |
| CborDecoded.StandardNumbers | crates/anasemble-core/src/cbor.rs:52-98 | integers are encoded as appendix A of RFC 8949 prints them |
| CborDecoded.StandardScalars | crates/anasemble-core/src/cbor.rs:25-98 | so are null, booleans, a float and texts |
| CborDecoded.StandardArrays | crates/anasemble-core/src/cbor.rs:35-40 | so are arrays |
| CborDecoded.StandardMaps | crates/anasemble-core/src/cbor.rs:41-47 | so are maps, a key before its value |
| Basics.TextLessMeans | crates/anasemble-core/src/cbor.rs:178-184 | the text order all components share decides at the first byte in which two texts differ, a proper prefix coming first |
| Bytes.Utf8Means | crates/anasemble-core/src/cbor.rs:155-156 | a text is accepted exactly when it is the UTF-8 encoding of some code points, none a surrogate |
| CborStrict.CanonicalExactly | crates/anasemble-core/src/cbor.rs:101-232 | accepted bytes are the canonical encoding of their value if and only if the decoder accepts them that refuses padded heads and negative integers below -1 |
| CborStrict.StrictAcceptsEncodings | crates/anasemble-core/src/cbor.rs:15-232 | within a frame that decoder accepts exactly the encodings of trees without an integer below -1, each as its tree |
| CborIo.Encoder.PutValue | crates/anasemble-core/src/cbor.rs:25-50 | appends the encoding of a value to the output, or fails where the encoding does |
| CborIo.EncodeCanonicalCbor | crates/anasemble-core/src/cbor.rs:15-23 | the appending encoder computes the encoding within the frame bound |
| CborIo.DecodeValue | crates/anasemble-core/src/cbor.rs:109-194 | the recursive decoder with its array and map loops computes the decoding function, negative integers as the program reads them |
| CborIo.DecodeMap | crates/anasemble-core/src/cbor.rs:150-180 | the map loop accepts exactly strictly increasing text keys |
| CycleCheck.Checker.Visit | src/fragments.rs:575-597 | a visit finishes a node and all it reaches, or reports a real cycle; the unvisited nodes decrease |
| CycleCheck.RejectCycles | src/fragments.rs:574-602 | on a graph whose targets all exist the check succeeds if and only if the graph has no cycle |
| CycleCheck.ListedGraphIsAcyclic | src/fragments.rs:574-602 | a graph whose nodes can be listed behind their dependencies has no cycle |
| Fragments.CheckEach | src/fragments.rs:308-374 | the first loop accepts exactly acceptable envelopes with distinct identities and distinct content digests |
| Fragments.CollectAt | src/fragments.rs:296-419 | admission accepts exactly the well-formed and sufficient sets and returns them sorted, nothing added or lost |
| Fragments.CollectedContentsDistinct | src/fragments.rs:361-365 | admitted fragments have pairwise distinct contents, in a strict order |
| Fragments.CollectionIgnoresOrder | src/fragments.rs:401-413 | the order in which fragments arrive does not change what is collected |
| Fragments.AdmittedFragment | src/fragments.rs:308-374 | every admitted fragment is authentic, timely, from a trusted issuer in its domain, about this component and interface, what its digest and kind say, and depends only on admitted ones |
| Fragments.OneFragmentRefuses | src/fragments.rs:308-386 | one fragment that is not, or repeats an identity or a content, refuses the whole set |
| Fragments.AdmissionSuffices | src/fragments.rs:388-413 | sound fragments are admitted exactly with enough failure domains, a contract and a state schema, and come back by issuer and sequence number |
| Scheduler.ChainIsSealed | src/operations.rs:652-698 | two valid audit chains that end in the same seal are the same chain |
| Scheduler.AppendKeepsChain | src/operations.rs:652-667 | appending an event keeps an audit chain valid |
| Scheduler.OldestIsFirstSorted | src/operations.rs:543-546 | the first pending job of the sorted list is the least by (submission time, id) |
| SchedulerSafety.StepIsSafe | src/operations.rs:257-600 | every operation of every runner, claims stopped in their recovery pass and prunes stopped at any removal included, keeps the store safe and changes surviving records only by extending their chains, without leaving the terminal set |
| SchedulerSafety.ReachableIsSafe | src/operations.rs:257-600 | under any interleaving no job exceeds its attempts or gets two verdict events, and pending plus running never exceed the queue bound, from any safe store |
| SchedulerSafety.HistoriesAreSafe | src/operations.rs:257-600 | the same spelled out from an empty store, with valid audit chains and no verdict for a queued job |
| SchedulerSafety.ClaimTakesOldest | src/operations.rs:520-553 | a claim takes the least pending job, those its recovery pass requeued included, and starts only that one |
| SchedulerSafety.TerminalIsAbsorbing | src/operations.rs:555-588 | while its record exists a terminal job stays terminal and its audit chain only grows |
| SchedulerAccounting.SoloStepKeepsBooks | src/operations.rs:257-600 | with one runner at a time every step, stopped claims and prunes included, keeps the accounting law |
| SchedulerAccounting.AccountingLaw | src/operations.rs:520-588 | every job has 2·attempts + (0 if running else 1) events and attempts − (0 if pending else 1) recoveries, at most 21 events, a pending job has attempts left, and a verdict records the digest of whatever result is on disk for it |
| SchedulerAccounting.AttemptsAreConserved | src/operations.rs:700-719 | over the whole store attempts equal recoveries plus the jobs that are not pending |
| SchedulerAccounting.VerdictsKeepResults | src/operations.rs:468-600 | in histories of one runner at a time in which no prune stops between its two removals every verdict has its result on disk |
| SchedulerAccounting.PruneRefusesLeftovers | src/operations.rs:468-518 | a terminal record resists pruning if and only if it failed after an earlier attempt wrote its result, or it holds a verdict whose result is gone |
| SchedulerAccounting.LeftoversHappen | src/operations.rs:324-366 | under every configuration a run from an empty store leaves a record of the first kind: stopped between result and verdict, then failed on the next attempt or without one left |
| SchedulerAccounting.TornPrunesHappen | src/operations.rs:487-505 | and a run leaves one of the second kind: a prune stopped between removing a certified job's result and its record |
| SchedulerAccounting.LeftoverStays | src/operations.rs:468-588 | a record of either kind is unchanged and still unprunable after every history of one runner at a time |
| SchedulerAccounting.LeftoverHoldsUpPrune | src/operations.rs:468-518 | a prune whose list reaches a record of either kind refuses, and keeps it and every younger eligible record, with their results as they were |
| SchedulerAccounting.SoloVerdictsAreFinal | src/operations.rs:555-588 | with one runner at a time a finished record never changes until it is pruned |
| SchedulerAccounting.TerminalRecordsChangeOnlyLate | src/operations.rs:257-600 | whatever the runners do, a step leaves every surviving finished record as it is if and only if it is not a failure report for a finished job whose chain has room |
| SchedulerAccounting.VerdictsStand | src/operations.rs:257-600 | over histories without such a report a finished record that is not pruned stays exactly as it is |
| SchedulerAccounting.LateFailureOverturns | src/operations.rs:555-588 | a failure report for a finished job makes it failed, a verdict for one is refused |
| SchedulerAccounting.LateFailureHappens | src/operations.rs:520-588 | a run from an empty store in which a certified job, or with a single attempt a failed one, is changed by such a report |
| SchedulerAccounting.ClaimCounts | src/operations.rs:520-553 | a claim reports exactly the restart recoveries its pass added to the metrics, and a pass that hands out nothing added none |
| SchedulerEffects.EnqueueExactly | src/operations.rs:257-298 | a job is taken exactly when the queue has room and its id is new, as a pending record without attempts, and the others stay |
| SchedulerEffects.RequeueExactly | src/operations.rs:523-541 | recovery touches only running jobs whose lease has run out: pending again with attempts left, failed without, with the matching event |
| SchedulerEffects.ClaimExactly | src/operations.rs:520-553 | a claim treats every record so, and starts the claimed one: running, one more attempt, a lease from now for the configured time capped at 64 bits |
| SchedulerEffects.ClaimStoppedExactly | src/operations.rs:523-541 | a stopped claim has treated the records before the stop and none behind it |
| SchedulerEffects.FinishExactly | src/operations.rs:555-579 | a verdict is recorded exactly for a running job whose chain has room: the state and event asked for, the given digest, no lease, and no other record changed |
| SchedulerEffects.FinishFailedExactly | src/operations.rs:581-588 | a failure is recorded exactly when the chain has room, whatever the state, and no other record changes |
| SchedulerEffects.WriteResultExactly | src/operations.rs:590-600 | a result is written once, and a second write succeeds only for the same and changes nothing |
| SchedulerEffects.VerdictsAreGiven | src/operations.rs:257-600 | over every history of any runners a job is certified only because a step said so and refused only because one said not, with the digest of that step |
| SchedulerEffects.EligibleExactly | src/operations.rs:477-487 | the list of a prune is the oldest eligible jobs, each once, as many as the limit allows |
| SchedulerEffects.PruneExactly | src/operations.rs:488-512 | a prune goes through exactly when every listed record agrees with the results directory, and then those records and their results are gone and nothing else |
| SchedulerEffects.PruneStoppedExactly | src/operations.rs:488-512 | stopped after some of them, it has removed those, and half way through the next one its result too |
| SchedulerStore.Store.CountMetrics | src/operations.rs:700-719 | the counting loop computes the sums the conservation law is about |
| SchedulerStore.Store.Enqueue | src/operations.rs:257-298 | the new store is the specified one, refused when the queue is full or the id is known |
| SchedulerStore.Store.ClaimNext | src/operations.rs:520-553 | the in-place recovery loop and claim compute the specified store, claim and number of recoveries, and stopped after any record the specified store |
| SchedulerStore.Store.Finish | src/operations.rs:555-579 | a verdict is recorded exactly for a running job whose chain has room |
| SchedulerStore.Store.FinishFailed | src/operations.rs:581-588 | a failure is recorded whatever the job's state is |
| SchedulerStore.Store.WriteResult | src/operations.rs:590-600 | a result is written once, and a second write succeeds only for the same bytes |
| SchedulerStore.Store.PruneTerminal | src/operations.rs:468-518 | the loop with its two removals for each record computes the specified store and refusal, and lists the removed jobs oldest first; stopped between any two removals it leaves the specified store |
| SchedulerStore.Store.RunBatch | src/operations.rs:308-372 | a batch is a run of single-runner steps, whatever the executor does, so it keeps the books, and its receipt is what the metrics gained: recoveries, certified and refused jobs, and the failed ones but for those its recovery passes gave up on |
| SchedulerStore.Store.Settle | src/operations.rs:324-366 | a claimed job ends by a verdict, a changed workspace or an oversized result, each as the specified step |
| Docker.ActivationIsRestartable | src/activation.rs:1156-1244 | any number of interrupted attempts followed by a retry ends with exactly the containers of an uninterrupted run |
| Docker.ActivationSwitches | src/activation.rs:1156-1244 | an uninterrupted activation runs the new plan and keeps the old container stopped for rollback |
| Docker.RollbackUndoesActivation | src/activation.rs:1246-1278 | rolling back an activation puts the old container back in service and keeps the failed one aside |
| Docker.HistoriesStayConsistent | src/activation.rs:1156-1295 | after any history a stage exists exactly while its plan holds the lease, and a served service stays served |
| Docker.StageExcludesOthers | src/activation.rs:1431-1450 | while a plan is staged every operation but its own activation fails and changes nothing |
| Docker.OthersDoNotInterfere | src/activation.rs:1431-1450 | any sequence of such operations leaves the world as it was |
| Docker.RollbackCopyIsKept | src/activation.rs:1246-1295 | the rollback container is left, returned to service, or discarded by a commit of the active plan |
| Docker.InterruptedActivation | src/activation.rs:1156-1244 | where each failure point leaves a first attempt |
| Docker.NothingToActivate | src/activation.rs:1173-1207 | an active plan is not activated twice and an unhealthy stage is removed again |
| Docker.ActivationRefused | src/activation.rs:1170-1196 | another's lease refuses, and so does a kept container while nothing is staged |
| Docker.CommitExactly | src/activation.rs:1280-1295 | a commit goes through exactly for the active plan with the lease free or its own, and then the kept and failed containers are gone |
| Docker.RollbackExactly | src/activation.rs:1246-1278 | a rollback goes through exactly with a kept and an active container and the lease free or its own, and then the kept one runs and the other is set aside |
| Docker.ActivationCommits | src/activation.rs:1156-1295 | activate and commit from rest leaves the new plan serving and nothing else |
| DockerHost.Host.AcquireLease | src/activation.rs:1431-1450 | the lease is taken when free or already held for the same purpose, otherwise nothing changes |
| DockerHost.Host.ActivateWithFailure | src/activation.rs:1156-1244 | the calls with their early returns compute the specified world and outcome |
| DockerHost.Host.RollBack | src/activation.rs:1246-1278 | the rollback calls compute the specified world and outcome |
| DockerHost.Host.CommitPlan | src/activation.rs:1280-1295 | the commit calls compute the specified world and outcome |
| Kubernetes.ServiceAlwaysSelectsReal | src/activation.rs:709-904 | after any operations run one at a time and stopped after any call, the selector is the prefix of the active plan, whose Deployment exists and became ready, and the rollback plan differs |
| Kubernetes.CommitKeepsReal | src/activation.rs:849-875 | every world a commit passes through keeps that invariant |
| Kubernetes.RollbackKeepsReal | src/activation.rs:829-848 | every world a rollback passes through keeps that invariant |
| Kubernetes.HalfDoneCommitIsShielded | src/activation.rs:849-904 | once a commit has removed the old Deployment only the commit moves, and a retry finishes it |
| Kubernetes.SelectorMovesOnce | src/activation.rs:709-808 | an activation moves the Service in one call, to a plan that is ready |
| Kubernetes.StoppedActivationResumes | src/activation.rs:709-808 | an activation stopped after any call and retried ends where it would have ended |
| Kubernetes.RepeatedStopsResume | src/activation.rs:709-808 | so does one stopped any number of times |
| Kubernetes.RollbackReselects | src/activation.rs:829-848 | rolling back after an activation selects the previous plan again |
| Kubernetes.ActivationEffect | src/activation.rs:709-808 | an activation ends with its Deployment ready, the Service on it and the replaced plan kept, other Deployments untouched |
| Kubernetes.CommitEffect | src/activation.rs:849-875 | a commit ends without the old Deployment and its annotation, everything else untouched |
| Kubernetes.RollbackEffect | src/activation.rs:829-848 | a rollback ends with the Service on the kept plan and all Deployments in place |
| Kubernetes.RefusedEffect | src/activation.rs:876-904 | whoever cannot get the lease changes nothing |
| Kubernetes.ChangesUnderLease | src/activation.rs:709-904 | no call changes the Service or a Deployment but under the operation's own lease |
| KubernetesHost.Cluster.Activate | src/activation.rs:709-808 | the calls, stopped after a given number, leave the specified world |
| KubernetesHost.Cluster.AcquireOperationLease | src/activation.rs:876-904 | the lease is taken, kept, or taken over from the same plan's activation, otherwise refused |
| KubernetesHost.Cluster.Rollback | src/activation.rs:829-848 | the calls, stopped after a given number, leave the specified world |
| KubernetesHost.Cluster.Commit | src/activation.rs:849-875 | the calls, stopped after a given number, leave the specified world |
| StateStore.StopsKeepPrior | src/state_store.rs:115-240 | between any two file operations of restore or rollback the prior state is at the destination or the rollback path |
| StateStore.CommitRetiresOnlyMatches | src/state_store.rs:242-279 | a commit gives prior state up only when the active bytes match the marker, and otherwise changes nothing |
| StateStore.HistoriesKeepPrior | src/state_store.rs:115-240 | over whole histories of stopped and retried transactions prior state survives until a commit |
| StateStore.RestoreRollbackIdentity | src/state_store.rs:115-240 | from clean paths restore then rollback is the identity if and only if there is a destination that is not a file above the size bound |
| StateStore.OversizedPriorIsStuck | src/state_store.rs:212-279 | above the bound the restore succeeds and no operation can then change anything |
| StateStore.FailedRestoreUndoes | src/state_store.rs:160-208 | a failed restore leaves the paths as it found them |
| StateStore.RestoreCommit | src/state_store.rs:115-279 | restore then commit leaves just the restored payload |
| StateStore.RestoreInstalls | src/state_store.rs:115-210 | a restore installs the payload where nothing or a file was, keeps the file for a rollback and records the payload exactly when it kept one |
| StateStore.RestoreRefuses | src/state_store.rs:150-170 | over anything else it leaves everything as it was |
| StateStore.FailedFirstRestore | src/state_store.rs:157-204 | a first restore that fails installs nothing at any moment |
| StateStore.RollbackReinstates | src/state_store.rs:212-240 | a rollback puts the kept file back and clears the other paths |
| StateStore.CommitSettles | src/state_store.rs:242-279 | a commit leaves the destination alone and clears the kept file and the marker |
| StateStore.BlockedExactly | src/state_store.rs:115-279 | every operation refuses if and only if the guards of all three fail |
| StateStore.InterruptedRestore | src/state_store.rs:157-204 | a restore over a file, failing wherever it may and stopped after any number of file operations, is undone by a rollback if and only if it stopped where listed; elsewhere everything is blocked, with prior state in place |
| StateStore.InterruptedFirstRestore | src/state_store.rs:157-204 | the same where there was no destination |
| StateStore.InterruptedRollback | src/state_store.rs:212-240 | a rollback stopped anywhere and retried ends as the uninterrupted one, and is blocked, exactly at the stops listed |
| StateStore.InterruptedCommit | src/state_store.rs:242-279 | a commit stopped anywhere and retried ends as the uninterrupted one unless it stopped between its two removals |
| StateStore.OrphanMarkersBlock | src/state_store.rs:233-276 | from clean paths, a rollback and a commit stopped just before removing the marker leave only the marker and block everything |
| StateFiles.Paths.Restore | src/state_store.rs:115-210 | the file operations, stopped after a given number, leave the specified paths |
| StateFiles.Paths.Rollback | src/state_store.rs:212-240 | the file operations, stopped after a given number, leave the specified paths |
| StateFiles.Paths.Commit | src/state_store.rs:242-279 | the file operations, stopped after a given number, leave the specified paths |
| Snapshots.SnapshotRestores | src/state_store.rs:54-109 | an accepted snapshot is what the next restore installs, a refused one changes nothing, and the refusals have the listed causes only |
| Snapshots.SnapshotHistory | src/state_store.rs:54-109 | over any sequence of snapshots objects are kept, the component stays and the revision never falls |
| Snapshots.SnapshotRestoreRollback | src/state_store.rs:54-240 | snapshot, restore and roll back returns the destination to where it was |
| Snapshots.SnapshotInstalls | src/state_store.rs:54-210 | restoring an accepted snapshot installs its source, onto a file or where nothing was |
| EvidencePlane.ValidateConfig | src/evidence_plane.rs:584-628 | the loop with its two sets accepts exactly bounded configurations whose store ids and failure domains are pairwise distinct |
| EvidencePlane.FetchWithRetries | src/evidence_plane.rs:497-510 | returns the first answer of at most retries+1 attempts |
| EvidencePlane.ReadStores | src/evidence_plane.rs:389-414 | the batched reads give the accepted bundles and the failed stores in store order, whatever the batch size |
| EvidencePlane.OpenBundles | src/evidence_plane.rs:415-448 | a bundle contributes its envelopes, each once, only if all of its items open |
| EvidencePlane.CountCopies | src/evidence_plane.rs:454-461 | the counter of each digest is the number of stores whose bundle holds that envelope |
| EvidencePlane.Retrieve | src/evidence_plane.rs:383-475 | the whole retrieval equals its specification, quorums and admission included |
| EvidenceQuorum.RetrievalSucceeds | src/evidence_plane.rs:449-475 | retrieval succeeds if and only if enough stores respond, each carried envelope is carried by enough of them, and admission accepts the union |
| EvidenceQuorum.RespondsExactly | src/evidence_plane.rs:497-583 | a store responds exactly when its first answer within the retries is signed, of its id and domain, fresh enough, bounded, and opens throughout |
| EvidenceQuorum.ReceiptExactly | src/evidence_plane.rs:399-448 | the receipt names as failed exactly the stores that did not respond and has a line for each of the others |
| EvidenceQuorum.CopyQuorum | src/evidence_plane.rs:454-467 | the returned envelopes are exactly the carried ones, each carried by at least the required number of stores with pairwise distinct ids and failure domains |
| EvidenceQuorum.FaultyCannotIntroduce | src/evidence_plane.rs:454-467 | with fewer faulty stores than required copies an honest store carries whatever is returned |
| EvidenceQuorum.FaultyCannotSway | src/evidence_plane.rs:383-475 | whatever fewer faulty stores than required copies answer, two successful retrievals return the same envelopes and domains |
| EvidenceQuorum.LoneEnvelopeRefuses | src/evidence_plane.rs:454-467 | with two or more required copies a store that carries an envelope nobody else carries makes the retrieval fail |
| EvidenceQuorum.OneStoreRefuses | src/evidence_plane.rs:383-475 | any store can turn a successful retrieval into a refused one, whatever the others answer |
| EvidenceQuorum.SingleCopyTrustsEachStore | src/evidence_plane.rs:454-475 | with one required copy the quorum refuses nothing and whatever one store carries is returned |
| EvidenceQuorum.BatchingIsInvisible | src/evidence_plane.rs:391-414 | the result does not depend on `max_parallel` |
| SemanticDiff.ClassifyMoves | crates/anasemble-semantic/src/lib.rs:464-503 | the greedy loop with its two index sets computes the specified matching and keeps the rest in order |
| SemanticDiff.Diff | crates/anasemble-semantic/src/lib.rs:352-447 | the listing loops, classification, contract change and sort compute the specified operations, refused for an unsealed snapshot or when they do not fit a frame |
| SemanticDiffProofs.MovesMatchMaximally | crates/anasemble-semantic/src/lib.rs:464-503 | on any operations and for every digest the new moves number the minimum of removals and additions, and only the rest of the longer side stays |
| SemanticDiffMeaning.ChangesExact | crates/anasemble-semantic/src/lib.rs:391-427 | before classification the operations are exactly the changes between the two id-to-digest maps, one for each entity |
| SemanticDiffMeaning.DiffIsOrdered | crates/anasemble-semantic/src/lib.rs:437-462 | the result is strictly ordered by (rank, entity) |
| SemanticDiffMeaning.DiffMovesMaximally | crates/anasemble-semantic/src/lib.rs:369-503 | for every digest the moves number the minimum of the removed and added ids with it, and the unmatched ones remain |
| SemanticDiffMeaning.DiffRebuilds | crates/anasemble-semantic/src/lib.rs:369-503 | applying the operations to the earlier map gives the later map if and only if moves are off or no removed and added entities share a digest |
| SemanticDiffMeaning.MovesLoseTheirOrigin | crates/anasemble-semantic/src/lib.rs:464-503 | two different later snapshots with the same diff from one earlier snapshot |
| SemanticDiffContent.DiffSays | crates/anasemble-semantic/src/lib.rs:369-503 | every operation says what is so: the digests before and after, its compatibility and evidence, and for the contracts the first digest of each side |
| SemanticDiffContent.ContractChangeListed | crates/anasemble-semantic/src/lib.rs:427-436 | a contract change is listed exactly when the contracts differ |
| SemanticDiffContent.DiffOrder | crates/anasemble-semantic/src/lib.rs:437-462 | removals come before additions, modifications, moves and the contract change, and within one kind the first differing byte of the ids decides |
| SemanticDiffContent.EntitiesMean | crates/anasemble-semantic/src/lib.rs:378-388 | a snapshot speaks of the ids of its nodes, the last node of an id deciding |
| SemanticSnapshot.SnapshotIgnoresOrder | crates/anasemble-semantic/src/lib.rs:204-286 | a snapshot, or its refusal, does not depend on the order in which the graph's lists were filled |
| SemanticSnapshot.SnapshotMeans | crates/anasemble-semantic/src/lib.rs:204-286 | a snapshot holds the graph's members in order and nothing else, and each refusal has its cause |
| SemanticSnapshot.SnapshotDiffApplies | crates/anasemble-semantic/src/lib.rs:204-447 | the diff of two graphs' snapshots, moves off, fails only when it does not fit a frame, and else turns the first graph's entities into the second's |

## Left out

- Pipeline.Recover: the workspace files, the registry's freshness checks, the registered bounds and the report texts are inputs or left out; the model starts from a registry and a list of fragments, and states when a recovery is refused but not which error the refusal carries.
- Compilation.Verify: the engine's fuel, memory limit and import check are not part of this model; a module is called by the semantics of the instructions `compile` emits.
- Sandbox.Compile: the binary encoding of the module around the function body is not part of this model.
- CborDecoded.RoundTrip: a float is an opaque 8-byte pattern, so conversions between number formats are left out.
- Docker.ActivationIsRestartable: a stop between creating a stage and its health check is left out, and twelve-character plan prefixes are taken to be distinct.
- DockerHost.Host.ActivateWithFailure: operator approval, specification checks, networks and the receipt are left out.
- Kubernetes.ServiceAlwaysSelectsReal: operations run one at a time, since rollback and commit read the Service before they take the lease; interleaved operations are left out.
- KubernetesHost.Cluster.Activate: manifests, network policies and operator approval are left out; applying one object is one step that takes effect or does not, so the branch that looks again after an uncertain Service update is left out.
- SchedulerSafety.StepIsSafe: replacing a record by way of its temporary file is one step; a process killed inside an operation can also leave that file or the lock file, and then every operation refuses until an operator removes it.
- SchedulerStore.Store.RunBatch: stops inside a batch are those at the end of a claimed job, and stops inside a claim are separate steps; the runner lease with its heartbeat thread and the wall clock are left out, and exclusivity is an assumption where it is used.
- SchedulerStore.Store.ClaimNext: the seal over a whole record and the revalidation of every record on reading are left out but for the bound on their number.
- SchedulerStore.Store.Finish: the refusal code a refused job's record keeps is left out.
- SchedulerStore.Store.PruneTerminal: the receipt lists the removed jobs without the digests of their records and results.
- SchedulerStore.Store.Enqueue: the digest of the workspace from which a job id is made is an input.
- Fragments.CollectAt: the audit entries are left out, and an issuer policy is its failure domain and a verdict on the signature, so a malformed issuer key refuses like a wrong signature.
- EvidencePlane.Retrieve: file reads, HTTPS, key files and decryption are the answers of the network and verdicts of the data; a failed key file and an invalid configuration give the same error, and the receipt has no bundle digests and no audit.
- SemanticSnapshot.SnapshotIgnoresOrder: snapshot identities and the canonical digest are left out; ontology, subject and cut take part only in whether a snapshot fits a frame, a verdict on its graph.
- SemanticDiff.Diff: whether the canonical bytes of a diff fit a frame is a verdict on its operations, not computed from them.
- StateStore.BlockedExactly: a killed process also leaves its lock file, which blocks until it is removed; the conditions are about the paths with the lock free.
- StateFiles.Paths.Restore: a link at a path is taken to lead somewhere; the lock file, the manifest that names the payload (modelled in `Snapshots`) and the directory checks are left out.
- Liveness of rollback after a stop in Docker and Kubernetes, beyond the retries stated above.
- Ed25519, HMAC, SHA-256, XChaCha20-Poly1305, hexadecimal and time stamps: foreign libraries.
- PostgreSQL, S3 and Redis adapters, the reference saga, and the service and deployment validators: client calls and field checks.
- Command line, corpus, campaign, ledger, oracle, lifecycle and report code: files and text.
