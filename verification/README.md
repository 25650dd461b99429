# Proofs about the DER library and its gates

This project models four parts of the repository and proves what they promise:

* **The recursion gate.** The call graph is a sequence of successor lists. `FindCycles` is the iterative
  low-link search with its work stack of half-consumed successor lists, its index and low maps, its vertex stack and
  its on-stack set. It is proved to return every strongly connected component that contains a cycle, once, and
  nothing else. An empty report means that every call chain visits at most as many functions as there are.
* **The DER codecs.** Identifier, length, INTEGER (64-bit and of any size), BIT STRING and GeneralizedTime contents,
  the SEQUENCE, OCTET STRING and EXPLICIT envelopes, and the ECDSA-Sig-Value and ECPrivateKey parsers built from them,
  all without a bound on the input. Each decoder is proved to accept exactly what a printer prints.
* **The evidence of full runs.** The store of runs as a class, and again as a protocol of single file operations with
  crashes and lock-free readers; the recogniser of run logs; and the rule by which a run at one commit still speaks
  for another.
* **Two structural checkers.** The group tree of the requirements inventory with its memoised search, and the
  generated regions of the proof manifest with the projection of a captured floor.

Loops, buffers and objects of the program are loops, arrays and classes here, each proved against a function; the
theorems are about those functions. Git is a finite graph of commits with whole trees; a digest is represented by what
it is the digest of; log lines arrive classified; rendering a region is an arbitrary function of its name.

## Files

| file | what it holds |
|---|---|
| `CallGraph.dfy`, `SearchInvariant.dfy`, `CycleFinder.dfy` | graphs and walks; the steps and the invariant of the search; the search and its meaning |
| `Bytes.dfy`, `Length.dfy`, `TagCodec.dfy`, `TlvCodec.dfy` | big-endian numbers; length fields; identifiers; elements |
| `BigInteger.dfy`, `Integer.dfy`, `BitStringCodec.dfy`, `GeneralizedTime.dfy` | contents of the primitive types |
| `Sequence.dfy`, `IntegerField.dfy`, `OctetString.dfy`, `ContextTag.dfy` | the envelopes the parsers use |
| `EcdsaSig.dfy`, `EcPrivateKey.dfy` | the two parsers and their printers |
| `RunStore.dfy`, `EvidenceProtocol.dfy`, `ProtocolRefinement.dfy` | the store run alone; the store under interleaving and crashes; the second as runs of the first |
| `RunLog.dfy`, `ProsePaths.dfy`, `CarryOver.dfy` | the log recogniser; which paths are prose; carry-over of a run to another commit |
| `ReqTree.dfy`, `ParentCycles.dfy` | the inventory's groups and items; the cycles of parents |
| `DescendantSearch.dfy`, `CycleDescent.dfy`, `SharedMemo.dfy` | the memoised search; one question to it; questions that share a memo |
| `ReqValidator.dfy` | what the inventory's validator reports |
| `Markers.dfy`, `ManifestRegions.dfy`, `FloorProjection.dfy` | searching for markers; regions; the floor projection |

## What turned out to be false, and when it holds

* **Retiring a corrupt run always unblocks reading.** It does not when that run is the only one: the index file is
  removed, and reading then refuses for lack of runs (`RunStore.RetiringTheLastRun`). `RunStore.TrustedAfterRetire`
  gives the exact condition: there are other entries, and each of them is unretired and verifies.
* **A duplicated floor marker is rejected.** The table's body is replaced before the coverage markers are counted, so
  a coverage marker duplicated inside that body passes (`FloorProjection.DuplicateInTableAccepted`).
  A new table body is accepted if and only if it is free of the table's own markers
  (`FloorProjection.TableBodyAccepted`), a new coverage body if and only if it is free of the markers of both regions
  (`FloorProjection.CoverageBodyAccepted`), and `FloorProjection.AcceptedExactly` covers every manifest.
* **The memoised descendant search answers the question asked.** A question to an empty memo is answered right on
  every inventory, cyclic ones included (`DescendantSearch.FreshQueryRight`), and a yes always is
  (`DescendantSearch.QuerySound`). Sharing a memo can deny an item that is there
  (`SharedMemo.CyclicAnswersDependOnOrder`). Every list of questions is answered right, in any order, if and only if
  no group is overlookable (`SharedMemo.AnswersRightExactly`): on a cycle, with an item below it but none of its own,
  where no group of the cycle has an item directly or by a child listed before its child on the cycle. For the groups
  asked about in their own order, `SharedMemo.AnswersInOrder` says of each what is answered, and a wrong report occurs
  if and only if the parent of the first listed group of some cycle is overlookable (`ReqValidator.WrongReports`). The
  validator's silence is unaffected, because a cycle is an error of its own (`ReqValidator.SilentMeansTree`).

## Model

| member | source | states |
|---|---|---|
| `CycleFinder.FindCycles` | gates/check_no_recursion.py:275-324 | the returned lists are exactly the strongly connected components that contain a cycle, pairwise disjoint, each whole, ascending and listed once |
| `CycleFinder.DepthBound` | gates/check_no_recursion.py:6-9 | the report is empty if and only if every call chain visits at most as many functions as the graph has |
| `CycleFinder.ReportsAgree` | gates/check_no_recursion.py:275-324 | the report is determined by the graph: a component of one report is in every other |
| `CycleFinder.PopComponent` | gates/check_no_recursion.py:315-321 | popping down to the root of a component yields the top of the stack, and takes exactly those vertices off the stack and the on-stack set |
| `CycleFinder.AddComponent` | gates/check_no_recursion.py:322-323 | appending a finished component exactly when it has two members or a self edge keeps the list of cycles exact |
| `CycleFinder.CompleteComponent` | gates/check_no_recursion.py:314-323 | completing a root keeps the search invariant and makes the popped vertices one whole component |
| `SearchInvariant.DiscoverKeeps` | gates/check_no_recursion.py:286-303 | visiting a new vertex keeps the search invariant |
| `SearchInvariant.ConsumeKeeps` | gates/check_no_recursion.py:297-307 | consuming an edge, with the low link lowered to a reachable stack vertex, keeps the search invariant |
| `SearchInvariant.FinishInnerKeeps` | gates/check_no_recursion.py:310-313 | leaving a vertex that is not a root and handing its low link to its parent keeps the search invariant |
| `SearchInvariant.ComponentIsScc` | gates/check_no_recursion.py:314-321 | when low equals index, the vertices numbered from there on the stack are mutually reachable and maximal |
| `SearchInvariant.RetireKeeps` | gates/check_no_recursion.py:314-321 | dropping a component keeps the search invariant: nothing left on the stack reaches less than before |
| `CallGraph.AcyclicWalkBound` | gates/check_no_recursion.py:6-9 | without a cycle a call chain repeats no function, so its length is at most the number of functions |
| `CallGraph.CycleWalk` | gates/check_no_recursion.py:6-9 | a vertex on a cycle starts call chains of every length |
| `Length.DecodeLength` | der-verified/src/length.rs:74-109 | the 32-bit shifting loop yields the big-endian number of the octets; each rejection in its order |
| `Length.EncodeLength` | der-verified/src/length.rs:47-67 | the used part of the five-octet buffer is the canonical field of every 32-bit length, the rest zero |
| `Length.LengthAccepted` | der-verified/src/length.rs:74-109 | a prefix is accepted as a length if and only if it is the canonical field of that length, whatever follows |
| `Length.LengthPrefixFree` | der-verified/src/length.rs:47-67 | no canonical length field is a prefix of another |
| `Length.LengthFramingErrors` | der-verified/src/length.rs:74-92 | exactly which inputs are indefinite, reserved or truncated |
| `Length.LengthLongForm` | der-verified/src/length.rs:93-108 | a complete long form is non-minimal exactly when it differs from the canonical field of its number, and too large exactly when it is canonical but beyond 32 bits |
| `TagCodec.DecodeTag` | der-verified/src/tag.rs:106-160 | the decoder, its loop included, computes the tag or the first error in order |
| `TagCodec.EncodeTag` | der-verified/src/tag.rs:74-100 | the used part of the six-octet buffer is the canonical identifier of every tag with a 32-bit number |
| `TagCodec.TagAccepted` | der-verified/src/tag.rs:106-160 | a prefix is accepted as a tag if and only if it is the canonical identifier of that tag, low or high form |
| `TagCodec.TagPrefixFree` | der-verified/src/tag.rs:74-100 | no identifier is a prefix of another |
| `TagCodec.InitialOctet` | der-verified/src/tag.rs:74-100 | the class, the form and the number stand at their bits of the initial octet |
| `TagCodec.TagErrors` | der-verified/src/tag.rs:106-160 | each error by the octets that cause it, for every input: padding or a number that fits the low form, a number beyond 32 bits, an identifier cut short |
| `TlvCodec.TlvAccepted` | der-verified/src/tlv.rs:59-91 | one element is accepted if and only if the input begins with the canonical encoding of its tag and value |
| `TlvCodec.TlvComposable` | der-verified/src/tlv.rs:56-58 | octets after an accepted element change nothing |
| `TlvCodec.TlvErrors` | der-verified/src/tlv.rs:59-91 | an element is refused for its identifier, for a bad length after a good identifier, or as truncated exactly when fewer octets follow than the length says |
| `BigInteger.EncodeMinimalIntegerInto` | der-verified/src/big_integer.rs:101-124 | refuses exactly empty contents and a buffer shorter than the stripped octets; otherwise writes those octets and nothing else; a refusal writes nothing |
| `BigInteger.MinimalKeepsValue` | der-verified/src/big_integer.rs:81-100 | stripping preserves the two's-complement value, at any length |
| `BigInteger.MinimalIsAccepted` | der-verified/src/big_integer.rs:60-72 | the stripped octets are accepted, and contents are accepted if and only if stripping leaves them as they are |
| `BigInteger.MinimalIsShortest` | der-verified/src/big_integer.rs:81-100 | no contents of the same integer are shorter than the stripped ones |
| `BigInteger.MinimalIsCanonical` | der-verified/src/big_integer.rs:60-72 | two contents denote the same integer if and only if they strip to the same octets |
| `BigInteger.AcceptedIsUnique` | der-verified/src/big_integer.rs:60-72 | accepted contents of the same integer are identical |
| `BigInteger.EveryIntegerHasContent` | der-verified/src/big_integer.rs:50-59 | every integer, of any magnitude, has accepted contents |
| `BigInteger.ValueRange` | der-verified/src/big_integer.rs:74-79 | n octets denote the integers of 8n bits, and the sign test is the sign of the integer |
| `BigInteger.MinimalityIsLocal` | der-verified/src/big_integer.rs:24-26 | contents that agree on the first two octets get the same verdict |
| `Integer.DecodeInteger` | der-verified/src/integer.rs:68-93 | the wrapping 64-bit accumulator, reread as signed, is the mathematical two's-complement value |
| `Integer.EncodeInteger` | der-verified/src/integer.rs:43-65 | the two stripping loops and the copy leave the minimal contents in the buffer, the rest zero |
| `Integer.IntegerAccepted` | der-verified/src/integer.rs:43-93 | contents decode to v if and only if they are the encoding of v, for every 64-bit v |
| `Integer.FitsI64` | der-verified/src/integer.rs:79-81 | accepted contents have at most eight octets if and only if their integer fits in 64 bits |
| `Integer.IntegerVerdict` | der-verified/src/integer.rs:68-81 | each error against the unbounded validator: too large only when minimal and beyond 64 bits |
| `BitStringCodec.EncodeBitStringInto` | der-verified/src/bit_string.rs:151-174 | refuses exactly non-canonical arguments and short buffers, writing nothing; otherwise writes the contents and nothing else |
| `BitStringCodec.BitStringAccepted` | der-verified/src/bit_string.rs:105-126 | contents are accepted if and only if they are the contents of the bit sequence they denote |
| `BitStringCodec.BitsAccepted` | der-verified/src/bit_string.rs:105-126 | every bit sequence has accepted contents that denote it, trailing zero bits included |
| `BitStringCodec.BitStringErrors` | der-verified/src/bit_string.rs:85-104 | exactly which contents meet which rejection; padding is faulty exactly when an unused bit is set |
| `BitStringCodec.OctetAlignedBits` | der-verified/src/bit_string.rs:135-141 | the aligned value is granted if and only if the bits are whole octets, and holds exactly those bits |
| `GeneralizedTime.DecodeGeneralizedTime` | der-verified/src/generalized_time.rs:184-249 | the two digit loops and the checks compute the fields, or the first error in the documented order |
| `GeneralizedTime.FractionIsCanonical` | der-verified/src/generalized_time.rs:130-139 | true exactly for digits without a trailing zero, of any length |
| `GeneralizedTime.EncodeGeneralizedTimeInto` | der-verified/src/generalized_time.rs:259-295 | writes the one spelling and nothing after it; refuses exactly unencodable fields and short buffers, writing nothing |
| `GeneralizedTime.TimeAccepted` | der-verified/src/generalized_time.rs:184-295 | contents decode to t if and only if t is encodable and the contents are its spelling |
| `GeneralizedTime.FieldErrors` | der-verified/src/generalized_time.rs:184-223 | each error of the mandatory part by the octets that cause it: every range error by its two digits, the leftmost field first |
| `GeneralizedTime.FractionErrors` | der-verified/src/generalized_time.rs:224-249 | each error of the fraction by the octets that cause it, once the mandatory part is in order |
| `GeneralizedTime.FractionUnique` | der-verified/src/generalized_time.rs:127-139 | canonical fractions of the same value as a decimal number are the same digits |
| `GeneralizedTime.SameInstantSameOctets` | der-verified/src/generalized_time.rs:184-249 | accepted contents of the same fields and fraction value are identical |
| `Sequence.SequenceAccepted` | der-verified/src/sequence.rs:158-170 | an envelope is accepted if and only if the input begins with the canonical constructed UNIVERSAL 16 element |
| `Sequence.StrictSequenceAccepted` | der-verified/src/sequence.rs:178-184 | the strict form accepts exactly one envelope and nothing after it |
| `Sequence.EnvelopeErrors` | der-verified/src/sequence.rs:158-184 | each refusal by the element that the input begins with: its tag, its form, what follows it |
| `IntegerField.IntegerFieldAccepted` | der-verified/src/ecdsa_sig_value.rs:154-164 | an INTEGER field is accepted if and only if it is the primitive element of minimal contents |
| `IntegerField.IntegerFieldErrors` | der-verified/src/ecdsa_sig_value.rs:154-164 | each refusal by the element that the input begins with: its tag, its form, its contents |
| `OctetString.OctetStringAccepted` | der-verified/src/octet_string.rs:52-65 | an OCTET STRING is accepted if and only if it is the primitive element of its contents, whatever follows |
| `OctetString.OctetStringErrors` | der-verified/src/octet_string.rs:52-65 | each refusal by the element that the input begins with: its tag, then its form |
| `ContextTag.ExplicitAccepted` | der-verified/src/context_tag.rs:86-101 | a wrapper is accepted if and only if it is the constructed element of the expected number |
| `ContextTag.ExplicitErrors` | der-verified/src/context_tag.rs:86-101 | each refusal by the element that the input begins with: its class, then its number, then its form |
| `EcdsaSig.StrictAccepted` | der-verified/src/ecdsa_sig_value.rs:217-220 | strict parsing and printing are inverse, for signatures of any size |
| `EcdsaSig.SignatureIsUnique` | der-verified/src/ecdsa_sig_value.rs:154-220 | strictly accepted signatures that denote the same two integers are the same octets |
| `EcdsaSig.TrailingExactly` | der-verified/src/ecdsa_sig_value.rs:170-195 | the trailing-elements error is given exactly when two well-formed integers are followed by more |
| `EcdsaSig.FieldErrors` | der-verified/src/ecdsa_sig_value.rs:170-195 | r is missing exactly in empty contents, s exactly after one whole INTEGER and nothing else; a faulty field is reported as the one whose place it takes |
| `EcdsaSig.StrictIsWholeComposable` | der-verified/src/ecdsa_sig_value.rs:203-220 | strict accepts exactly what composable accepts and consumes whole |
| `EcdsaSig.Composable` | der-verified/src/ecdsa_sig_value.rs:203-208 | appending octets to an accepted input changes nothing |
| `EcPrivateKey.StrictAccepted` | der-verified/src/ec_private_key.rs:262-408 | strict parsing and printing are inverse, for every combination of the two optional fields and any length |
| `EcPrivateKey.FieldsAccepted` | der-verified/src/ec_private_key.rs:311-375 | contents parse to a key if and only if they are its fields in order and nothing else |
| `EcPrivateKey.TrailingExactly` | der-verified/src/ec_private_key.rs:311-375 | the trailing-elements error is given exactly when well-formed fields are followed by octets that begin no optional field still missing: repeated, swapped and unknown elements |
| `EcPrivateKey.MandatoryErrors` | der-verified/src/ec_private_key.rs:311-340 | the errors of version and private key, each by what stands in its place: nothing, another integer than 1, or a faulty element |
| `EcPrivateKey.ParametersErrors` | der-verified/src/ec_private_key.rs:311-375 | the parameters' error is reported exactly when they are faulty after the two mandatory fields |
| `EcPrivateKey.PublicKeyErrors` | der-verified/src/ec_private_key.rs:311-375 | the public key's error is reported exactly when it is faulty after the mandatory fields and good or absent parameters |
| `EcPrivateKey.OptionalFieldErrors` | der-verified/src/ec_private_key.rs:311-375 | an optional field's error is its wrapper's, or that of what a good wrapper holds |
| `EcPrivateKey.InnerErrors` | der-verified/src/ec_private_key.rs:280-304 | each error inside the two wrappers by the element that their contents begin with |
| `EcPrivateKey.ContextStartExactly` | der-verified/src/ec_private_key.rs:311-375 | an optional field is looked for exactly where an identifier of its number stands, in either form |
| `EcPrivateKey.ParametersFieldAccepted` | der-verified/src/ec_private_key.rs:280-286 | the [0] field is read exactly when the wrapper holds one canonical element, returned verbatim |
| `EcPrivateKey.PublicKeyFieldAccepted` | der-verified/src/ec_private_key.rs:292-304 | the [1] field is read exactly when the wrapper holds one canonical BIT STRING |
| `EcPrivateKey.StrictIsWholeComposable` | der-verified/src/ec_private_key.rs:391-408 | strict accepts exactly what composable accepts and consumes whole |
| `EcPrivateKey.Composable` | der-verified/src/ec_private_key.rs:391-396 | appending octets to an accepted input changes nothing |
| `RunStore.RunStore.VerifyEntry` | gates/proof_runs.py:402-490 | an entry verifies exactly when its receipt is the pinned one, names it, is sound, and matches its ref and its log |
| `RunStore.RunStore.TrustedRuns` | gates/proof_runs.py:493-502 | succeeds exactly when there is an entry, none is retired and all verify; then it returns the receipts of exactly the entries, newest first, each sound, unretired, and with the receipt, log and ref files it describes; which refusal when |
| `RunStore.TrustedExactly` | gates/proof_runs.py:402-502 | reading succeeds if and only if there are entries, and each is pinned under its id, sound, unretired, and has the receipt, log and ref that its pin describes |
| `RunStore.TamperingIsRefused` | gates/proof_runs.py:402-502 | from a store on which reading succeeds, changing or removing the log, the receipt or the ref of any indexed run, or registering it as retired, makes reading refuse, whatever else changes beside the index |
| `RunStore.UntouchedIsTrusted` | gates/proof_runs.py:402-502 | while every indexed run keeps those files and stays unretired, reading goes on succeeding |
| `RunStore.RunStore.Record` | gates/proof_runs.py:293-369 | refuses, changing nothing, when the store is not trusted; otherwise writes log, receipt, ref and entry |
| `RunStore.RunStore.Retire` | gates/proof_runs.py:559-601 | refuses exactly an id not in the index; otherwise leaves the completed retirement, whatever the state of the run's files |
| `RunStore.RetireStepsAreTheWrites` | gates/proof_runs.py:583-600 | the stages of a retirement are its file operations in their order |
| `RunStore.RetireResumes` | gates/proof_runs.py:583-600 | from every crash point before the index write, retiring again reaches the completed state, the note in the log aside |
| `RunStore.RetireCompletes` | gates/proof_runs.py:583-600 | a completed retirement leaves the id out of the index, registered and noted, its files moved to quarantine as they were, its ref in place |
| `RunStore.RetireLosesNothing` | gates/proof_runs.py:583-600 | at no crash point is a file of the run lost: it is in its place or in quarantine, unchanged |
| `RunStore.RetireFrames` | gates/proof_runs.py:583-600 | at every crash point the entry, the files, the quarantined files and the verification of every other run are as before |
| `RunStore.TrustedAfterRetire` | gates/proof_runs.py:493-502 | after retiring any run, corrupt or not, reading succeeds if and only if others remain, unretired and verifying |
| `RunStore.RetiringTheLastRun` | gates/proof_runs.py:596-600 | retiring the only run of a sound store makes reading refuse |
| `RunStore.TrustedAfterRecord` | gates/proof_runs.py:353-369 | recording a fresh run keeps the store trusted and adds exactly that entry |
| `RunStore.RecordFrames` | gates/proof_runs.py:293-369 | recording leaves the entry and files of every other run, and the registry, as they were |
| `EvidenceProtocol.StepKeeps` | gates/proof_runs.py:293-369 | every file operation of every process, and a crash at any point, keeps the protocol invariant, and forgets no receipt and no retirement |
| `EvidenceProtocol.RetiredNotReturned` | gates/proof_runs.py:498-499 | a run registered as retired before the reader looks is never returned by it |
| `EvidenceProtocol.IndexUpdatesKept` | gates/proof_runs.py:365-368 | in every run the index holds exactly what was added and not removed; what was removed never comes back |
| `EvidenceProtocol.EntryHasFiles` | gates/proof_runs.py:362-368 | in every reachable state an entry has its ref, and it verifies unless its retirement has begun |
| `EvidenceProtocol.TrustedUnlessRetiring` | gates/proof_runs.py:493-502 | in every reachable state, reading would succeed at that instant if and only if the index has entries and none of them is in the registry, where a run stands while its retirement is under way or after it was cut short |
| `EvidenceProtocol.OneHolder` | gates/proof_runs.py:511-519 | at most one process is between taking and freeing the lock |
| `ProtocolRefinement.HolderSince` | gates/proof_runs.py:293-369 | in every interleaving, whoever holds the lock has carried the store found on taking it forward by a prefix of the writes of one sequential operation |
| `ProtocolRefinement.OperationCompletes` | gates/proof_runs.py:293-369 | when a process is about to free the lock, the store is the one it found after one whole retirement, or after one whole recording on a store fit for it |
| `ProtocolRefinement.RetirementIsSteps` | gates/proof_runs.py:574-600 | in the middle of a retirement the store is the one found on taking the lock, as many writes later as the process has made |
| `ProtocolRefinement.RetirementResumesInRun` | gates/proof_runs.py:574-600 | wherever a retirement is stopped in a run, retiring again reaches what it would have reached, the note in the log aside |
| `ProtocolRefinement.RetirementFramesInRun` | gates/proof_runs.py:574-600 | wherever it is stopped, every other run has its entry and verifies as when it began |
| `ProtocolRefinement.ReaderReturnsPinned` | gates/proof_runs.py:493-502 | in every interleaving a reader returns exactly the entries of an index the store had, none of them in the registry the store had at that time or later, each the once-written receipt its pin hashes; and at some state from there on its receipt file, its ref and its log were those the receipt describes |
| `RunLog.ValidateLog` | gates/proof_run_metadata.py:144-188 | the loop over the stage, with its three variables, computes the counts or the first error |
| `RunLog.LogAccepted` | gates/proof_run_metadata.py:144-188 | a log is accepted with given counts if and only if it is framed and its stage, ignored lines aside, is what a run prints that fits roster, covers and registry; the counts are roster size and summed shortfall |
| `RunLog.LogAcceptedExactly` | gates/proof_run_metadata.py:144-188 | the same without the recogniser's own notions: the log is, in this order, unmarked lines, the begin, a stage, the end, and unmarked lines that hold the Lean pass and end in the final pass; and the stage is the print of a fitting run |
| `RunLog.AcceptedLines` | gates/proof_run_metadata.py:154-188 | in the stage of an accepted log every harness is started as often as the roster names it, there are as many successful verdicts as harnesses and no other, and no unknown cover summary |
| `RunLog.PrintedLogAccepted` | gates/proof_run_metadata.py:144-188 | every log printed from a fitting run, with anything unmarked around and between, is accepted |
| `RunLog.ScanSound` | gates/proof_run_metadata.py:154-172 | a scanned stage is the print of blocks run once each and at most one started harness |
| `RunLog.ScanComplete` | gates/proof_run_metadata.py:154-172 | every such print is scanned to exactly that state |
| `CarryOver.CompareInputs` | gates/proof_runs.py:116-185 | accepts exactly an ancestor whose every changed path is allowed, and sorts the changed paths into prose and artifacts; which of the earlier refusals when; on acceptance only Markdown documents of the list or the archive, captured files and permitted data changed |
| `CarryOver.ComparePaths` | gates/proof_runs.py:142-185 | every path is allowed, or the first that is not decides the refusal; the allowed ones are told apart into prose and artifacts |
| `CarryOver.ComparedPaths` | gates/proof_runs.py:116-185 | what an accepted comparison says of the changed paths: documents, captured outputs with a valid floor, and permitted paths that are neither protected nor code |
| `CarryOver.HarmlessCompares` | gates/ci_changes.py:13-30 | conversely, a descendant that changes only listed documents without proof claims, or `docs/archive/NAME.md`, is accepted |
| `CarryOver.BundleAllowed` | gates/proof_runs.py:166-185 | no file of a committed bundle stands in the way of a release that names it |
| `ProsePaths.ProseExactly` | gates/proof_runs.py:110-113 | a path is prose if and only if it is a listed document other than the two protected ones, or a Markdown path below the archive without an empty, `.` or `..` part |
| `ProsePaths.NoteIsProse` | gates/ci_changes.py:25-30 | every Markdown file directly in the archive is prose |
| `ProsePaths.SplitParts` | gates/ci_changes.py:25-30 | the parts of a path are what stands in it from slash to slash |
| `CarryOver.VerifyRelease` | gates/release_evidence.py:294-332 | accepts exactly a release whose receipt, bound run, outputs, bundle, subject and comparison all hold |
| `CarryOver.ReleaseExactly` | gates/release_evidence.py:243-332 | which releases hold, fact by fact: identity, the first run with the bound source and receipt, published outputs, a bundle that is exactly what the tree commits, the subject, and the comparison |
| `CarryOver.ReleasedPaths` | gates/release_evidence.py:294-332 | from the run to its release only documents, bundle files and the generated files changed |
| `CarryOver.VerifyReleaseCommit` | gates/release_evidence.py:335-351 | accepts exactly when the first released ancestor is a valid release followed by prose only; then every path changed since is a Markdown document of the list or the archive, and no generated file changed |
| `CarryOver.VerifyBranch` | gates/proof_runs.py:617-648 | a direct carry-over is the newest comparing run with no release since it; otherwise the release decides; both refusals exact. Directly, every changed path outside the generated files is a Markdown document of the list or the archive; and a target that changes only listed documents without proof claims, or notes directly in the archive, with no release since any run, is carried over directly |
| `CarryOver.DirectMeansUnchanged` | gates/proof_runs.py:116-185 | after a direct carry-over every path equals the run's commit unless it is prose or a generated file equal to the captured output |
| `CarryOver.ReleaseMeansUnchanged` | gates/release_evidence.py:243-351 | the same through a release, its bundle files excepted, and every captured output is still published |
| `CarryOver.ProtectedInputsUnchanged` | gates/proof_runs.py:44-47 | proof, build, tool and policy inputs other than the generated files never differ from the run's commit |
| `CarryOver.AncestorTransitive` | gates/proof_runs.py:119 | ancestry of commits is transitive, so a release's ancestor is the target's |
| `CarryOver.AncestorExactly` | gates/proof_runs.py:119 | an ancestor is the end of a line of parents, of any length |
| `ReqTree.ParentCycleFrom` | gates/check_req_tree.py:134-145 | the walk reports a start if and only if its parent chain never ends |
| `ReqTree.DescendantStep` | gates/check_req_tree.py:147-167 | a group has a descendant item exactly when it has one directly or one of its listed children has |
| `ParentCycles.CycleChild` | gates/check_req_tree.py:147-152 | a group on a cycle has one child on it, the group before it; every other child is off all cycles |
| `ParentCycles.RingDescendant` | gates/check_req_tree.py:147-167 | the groups of a cycle have descendant items together, exactly when one of them has one of its own |
| `DescendantSearch.ItemSearch.HasItem` | gates/check_req_tree.py:161-170 | the recursive search over the mutable memo and active set computes the answer and the memo of `Query` and restores the active set |
| `DescendantSearch.QuerySound` | gates/check_req_tree.py:161-170 | a yes is right on every inventory, whatever sound memo it starts from |
| `DescendantSearch.FreshQueryRight` | gates/check_req_tree.py:161-170 | a question to an empty memo is answered right on every inventory: yes exactly when some item's parent chain passes through the group |
| `CycleDescent.QueryCorrect` | gates/check_req_tree.py:161-170 | with a memo in hand an answer is right, and leaves the memo right, when every cycle through the group meets the memo, whatever the memo says on a set of other cycles |
| `CycleDescent.Descend` | gates/check_req_tree.py:161-170 | the first question on an untouched cycle: its answer, and for each group of the cycle what is recorded |
| `SharedMemo.AnswersRightExactly` | gates/check_req_tree.py:158-174 | every list of questions sharing a memo is answered right, in any order, if and only if no group is overlookable |
| `SharedMemo.OverlookableNotAlone` | gates/check_req_tree.py:158-174 | the cycle of an overlookable group has at least two groups |
| `SharedMemo.AnswersInAnyOrder` | gates/check_req_tree.py:158-174 | when every parent chain ends, every list of questions is answered right |
| `SharedMemo.AnswersInOrder` | gates/check_req_tree.py:172-174 | asked about in the table's order, each group gets a yes if and only if it has a descendant item and is not overlooked |
| `SharedMemo.OverlookedExactly` | gates/check_req_tree.py:172-174 | some group is overlooked if and only if the parent of the first listed group of some cycle is overlookable |
| `SharedMemo.CyclicAnswersDependOnOrder` | gates/check_req_tree.py:161-170 | on a concrete cyclic inventory the order of two questions changes an answer, and one order denies an item that is there |
| `ReqValidator.RootsAreDer` | gates/check_req_tree.py:104-113 | the root check passes if and only if DER is the one group without a parent |
| `ReqValidator.EndsAtRoot` | gates/check_req_tree.py:104-145 | with valid parents and DER the one root, a chain ends if and only if it arrives at DER |
| `ReqValidator.Validate` | gates/check_req_tree.py:104-176 | which errors are reported, one by one, for every inventory, cyclic ones included; there are none if and only if the shape checks passed and the inventory is a tree |
| `ReqValidator.WrongReports` | gates/check_req_tree.py:172-174 | a group with a descendant item is reported as having none if and only if the parent of the first listed group of some cycle is overlookable |
| `ReqValidator.SilentMeansTree` | gates/check_req_tree.py:104-176 | nothing is reported if and only if the groups form one finite tree rooted at DER, each with an item below it, and every item hangs in it with valid attributes |
| `Markers.CountIsOcc` | gates/proof_run_metadata.py:80 | a scanning count of a marker is the number of positions at which it occurs: markers do not overlap |
| `Markers.OccAppend` | gates/gen_proof_manifest.py:76-77 | occurrences of a marker add up over a text cut before a '<' or after a '>' |
| `ManifestRegions.MarkersDiffer` | gates/gen_proof_manifest.py:76-77 | markers of different regions differ, and no begin is an end |
| `ManifestRegions.RegionsAreNames` | gates/gen_proof_manifest.py:1326-1341 | the table's region names are distinct and free of angle brackets |
| `ManifestRegions.SplitIsPut` | gates/gen_proof_manifest.py:1512-1519 | splitting cuts at the first begin and the first end after it, losing nothing |
| `ManifestRegions.PutSplits` | gates/gen_proof_manifest.py:1512-1519 | a region spelt out between texts without its markers is split back into its parts |
| `ManifestRegions.SetFrames` | gates/gen_proof_manifest.py:1522-1531 | replacing the body of one of two disjoint regions leaves the other's body and both markings as they were |
| `ManifestRegions.SetsCommute` | gates/gen_proof_manifest.py:1522-1531 | replacements of disjoint bodies commute |
| `ManifestRegions.Rewrite` | gates/gen_proof_manifest.py:1522-1531 | the loop rewrites the regions in turn, lists those without both markers, and fails on misordered ones |
| `ManifestRegions.RewriteSets` | gates/gen_proof_manifest.py:1522-1531 | on a well marked text every present region gets its generated body, and exactly the absent ones are missing |
| `ManifestRegions.RewrittenText` | gates/gen_proof_manifest.py:1522-1531 | after rewriting, every present region holds its rendering on lines of its own: a line break, the rendering, a line break, between the markers |
| `ManifestRegions.CurrentTextKept` | gates/gen_proof_manifest.py:1522-1531 | a text whose regions already show their renderings so is left as it is |
| `ManifestRegions.MissingExactly` | gates/gen_proof_manifest.py:1522-1527 | exactly the regions that lack a marker are missing |
| `ManifestRegions.RewriteIdempotent` | gates/gen_proof_manifest.py:1522-1531 | rewriting a rewritten text gives the same text and the same missing list |
| `ManifestRegions.RewriteKeepsOutside` | gates/gen_proof_manifest.py:1522-1531 | rewriting changes nothing outside the bodies of the table's regions |
| `ManifestRegions.RegionDiffs` | gates/gen_proof_manifest.py:1534-1555 | the loop reports the differing enforced regions in order and fails on misordered ones |
| `ManifestRegions.DiffsExact` | gates/gen_proof_manifest.py:1534-1555 | on a well marked text exactly the enforced regions whose body differs are reported, with the lines of both bodies |
| `ManifestRegions.DiffsExactly` | gates/gen_proof_manifest.py:1534-1555 | an enforced marked region is reported exactly when its lines are not its rendering's between two empty ones, and with those lines |
| `ManifestRegions.DiffsInOrder` | gates/gen_proof_manifest.py:1534-1555 | the reports stand in the table's order, one to a region |
| `ManifestRegions.LinesHaveNoBreaks` | gates/gen_proof_manifest.py:1549-1554 | no line holds a line break; with the joining law that makes them the lines |
| `ManifestRegions.DiffsShow` | gates/gen_proof_manifest.py:1549-1554 | a region is never reported without a difference in its lines: splitting, unlike stripping, loses nothing |
| `ManifestRegions.RewriteLeavesNoDiffs` | gates/gen_proof_manifest.py:1522-1555 | after rewriting there is nothing to report |
| `ManifestRegions.CheckPassesWhenCurrent` | gates/gen_proof_manifest.py:1590-1600 | no region is missing and none differs if and only if every region is marked and rewriting the enforced ones alone would change nothing |
| `ManifestRegions.ManifestSettles` | gates/gen_proof_manifest.py:1326-1351 | for the program's own table: writing settles the manifest, touches bodies only and leaves nothing to report; when its check passes |
| `FloorProjection.ProjectedManifest` | gates/proof_run_metadata.py:74-85 | the two counted replacements in turn, or the first failure |
| `FloorProjection.ValidateProjectionInvariants` | gates/proof_run_metadata.py:88-107 | the verdict on the two blanked texts, the original examined first |
| `FloorProjection.VerdictExactly` | gates/proof_run_metadata.py:88-107 | why a manifest is rejected: miscounted or crossed markers of the original first, then of the projected text, then a difference outside the bodies |
| `FloorProjection.CountedFails` | gates/proof_run_metadata.py:78-85 | replacing one region fails for a missing or duplicated marker, or for an end that stands before the begin, and for nothing else |
| `FloorProjection.AcceptedExactly` | gates/proof_run_metadata.py:88-107 | against an original with disjoint floor regions, the accepted manifests are exactly the original with other bodies free of the markers that would be miscounted |
| `FloorProjection.AcceptedMeansAgree` | gates/proof_run_metadata.py:88-107 | two manifests with disjoint floor regions are accepted if and only if they agree outside the two bodies |
| `FloorProjection.TableBodyAccepted` | gates/proof_run_metadata.py:94-105 | with another table body the original is accepted if and only if that body is free of the table's markers |
| `FloorProjection.CoverageBodyAccepted` | gates/proof_run_metadata.py:94-105 | with another coverage body it is accepted if and only if that body is free of the markers of both regions |
| `FloorProjection.DuplicateInTableAccepted` | gates/proof_run_metadata.py:96-101 | a coverage marker duplicated inside the table's body passes the duplicate count |
| `FloorProjection.ProjectionAccepted` | gates/proof_run_metadata.py:74-85 | the projection sets the two bodies, changes nothing else, and is accepted against its original |
| `FloorProjection.ProjectedText` | gates/proof_run_metadata.py:74-85 | the projection leaves each floor region's rendering between line breaks between its markers |
| `FloorProjection.ProjectionFrames` | gates/proof_run_metadata.py:74-85 | every further region keeps its body under the projection |

## Left out

- RunStore.RunStore.Record: the capture before the writes, the refusal over stale captures and the reading back after the writes are not modelled, and the run id is taken to be fresh, as a random one is.
- RunStore.RunStore.VerifyEntry: the receipt checks that depend only on the receipt and its source commit (format, rosters, tools, outputs, floor) are one boolean, `sound`.
- CarryOver.CompareInputs: only comparison against a registered run; the mode that recomputes the projection and the floor without one is not modelled.
- CarryOver.VerifyRelease: says which releases are accepted, not which of several faults of a rejected one is reported.
- Building the call graph from source text by patterns, import resolution and attribute stripping.
- The classification of log lines by patterns, and the decoding of logs and manifests from UTF-8.
- Git, JSON, TOML and base64 decoding, file permissions, symbolic links, temporary files and worktrees; a write of a file is one atomic step, as the replace by rename makes it.
- The checks of the inventory's shape before its trees are examined; they arrive as a list of errors.
- The address-space guard for lengths in element decoding: it cannot be reached where sizes have 64 bits or more.
- Encoders of whole elements and envelopes, and decoding the elements of a SEQUENCE one by one.
- BOOLEAN, NULL, ENUMERATED, encrypted private keys and the other containers: no shape beyond those here.
- The curve, point and order of a key or signature, and calendar rules of a time.
- Release preparation and validation, which write the receipts that `CarryOver.VerifyRelease` reads, and tag refs.
- Removal of stale captures, rendering of reports and unified differences, command lines, and the guards of counts in prose.
