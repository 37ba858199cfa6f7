# Workload network contracts: a verified model

The repository is a coordinator for workload network contracts. Publishers sign contracts with
Ed25519, the coordinator keeps them in a hash-chained journal, replays that journal when it starts,
compares generations for compatibility, composes overlays, evaluates requirements against evidence,
and talks to its peers in checksummed frames that carry JSON.

This project models that behaviour in Dafny and proves what the pieces are for. Running
`dafny verify dfyconfig.toml` in this directory checks everything.

## The parts

**Signatures.** `Words`, `Congruence`, `Field` and `Scalars` are the 32-bit limb loops over arrays,
each proved to compute the number it stands for modulo p = 2^255 - 19 or modulo L, with every 64-bit
accumulator in range. `Curve` proves the polynomial identities behind the point formulas over residues.
`Protocol` states the equations of sections 5.1.5 to 5.1.7 of RFC 8032 over an abstract commutative group
whose base point has order exactly L, and proves when a signature is accepted. `Ed25519` is the code in
between: window multiplication, signing and both verifications, proved against `Protocol`. `PointCodec` is the
compressed form of points.
Two hypotheses are stated, not proved: the addition law makes the curve points such a group, and point
decoding inverts point encoding (`Ed25519.Represents`, `Ed25519.Implements`). The other direction is proved:
decoding accepts only canonical points on the curve, and encoding them gives back the bytes. `Protocol.HypothesesAreConsistent`
exhibits a group that satisfies everything assumed of the abstract group.

**Checksums and hashing.** `ShiftRegister` is the theory of linear shift registers, `Xors` the exclusive or on
numbers, `Crc` the table-driven CRC-32 and the headers it seals. `Sha256` is the streaming class with the
compression function as a parameter.

**The journal.** `Frames` builds and parses journal frames byte by byte, `Journal` is the scan of a directory and
its repair, `JournalReads` says that whatever is read was written and what a chain value pins, `Ledgers` is the class that appends, rotates, reads and reopens. The digest is an arbitrary function
parameter throughout. A state directory is the sequence of its journal files; a crash is a cut at any byte.

**The coordinator's state.** `States` holds the state, the replay of events and the live steps; `Divergence` says, field by
field, when the replayed state is the live one; `Documents` what the reader makes of evidence that was written; `Runtime` the
class with its checks in the source's order, over a real `Ledgers.Ledger`. What other components decide (contract and policy
validation, signatures, trust) and the byte form of an event are function parameters; clock readings are arguments. The
operations assume nothing of the byte form. The results about restarts assume that it is faithful on the events it
represents (`Runtime.Faithful`), and `Runtime.FaithfulCodecExists` gives such a byte form for any list of events.

**The meaning of contracts.** `Ordering` and `Contracts` give the canonical form, `ScopeTree` the parent walk,
`Evaluation` the verdicts, `Policy` the compatibility check, `Composition` the overlays. Numbers are reals; the
source's doubles are finite there.

**Text and streams.** `Utf8`, `Json`, `JsonRoundTrip` and `JsonCodec` are the JSON writer and parser. `JsonGrammar` and
`JsonSyntax` give the grammar of RFC 8259 as trees, independently of the parser, and prove that it accepts exactly those
texts. `Wire` is the frame codec, `Coordinator` one session under arbitrary chunking and arbitrary send progress.

Code that works step by step is a class or a method with loops (limb arrays, `Sha256.Sha256`, `Ledgers.Ledger`,
`Runtime.Runtime`, `JsonCodec.Parser`, `Coordinator.Session`), proved against a function that says what it computes;
the theorems are about those functions. Where a function of the model serves a method and its specification alike, a
separate statement says what it means in other terms (`Protocol.SignatureIs`, `Composition.ComposedScopes`,
`States.PublishShows`, `Evaluation.ReasonIs` and their like).

## Where the code does not do what its documentation says

* Reopening takes the chain value from the last record's link (src/ledger.cpp:340), not from that record's own chain
  value (include/wnc/ledger.hpp:81). `Ledgers.ReopenAndAppend` proves when a history survives one append after reopening:
  exactly when it was empty or its last two chain values coincide. After one record that means a digest of all zeros
  (`Ledgers.OneRecordIsEnough`), after more a collision of the digest (`Ledgers.SeedNeedsCollision`).
* The repository's README (README.md:132-134) says that a record's chain value covers the previous chain. The code leaves the
  link out of it (src/ledger.cpp:150-158), so a chain value covers its own record and nothing before it:
  `JournalReads.ChainForgets` says exactly when two histories end in the same one, `JournalReads.LinkPinsRecord` what a link
  does pin.
* A journal is documented to be bounded by 256 segments. The boot that creates the directory counts one file less than
  it has and goes on to file 257 (`Ledgers.SegmentBound`); `Ledgers.FillDirectory` is a run that does.
* Attaching evidence checks little of what the evidence reader demands when the record is read back: bounds on every
  field, a generation of at least 1, a candidate with some dimension, sorted attribute names, no identity on an entry, and an
  identity derived from a blank one (src/evaluation.cpp:397-602), while the identity is derived with the submitted one still in
  place (src/runtime.cpp:684). A record that cannot be read back stops every later boot. `Runtime.AttachmentReadable` proves
  exactly which submitted sets can be read back, `Runtime.RestartShowsLiveView` exactly when the coordinator can be started
  again, and `Runtime.AttachThenReopen` is a run that cannot.
* Replay and live state differ in the display name after a renaming publication, in the retired flag of the generations,
  in the evidence of retired workloads, in the evidence floor, and in the recorded times (the clock is read twice).
  `Divergence.FieldsAgree` and `Divergence.FloorsAgree` say exactly when each of the first four agrees,
  `Divergence.LiveIsReplay` when everything but the times does, and a boot that differs is given for each.
* Compatibility and composition do not compare the members of a collective requirement (`Policy.MembersAreNotCompared`,
  `Composition.MembersMayChange`; `Policy.ChainOfCollectives` and `Composition.ComposedCollectives` say exactly when the
  meaning is kept all the same), and composition accepts any bounds when a layer turns a preference into a requirement
  (`Composition.PreferenceMayWeaken`; `Composition.ComposedCompatibleExactly` says exactly when the result is compatible).
* A comment of the composition says that an incomparable band is reported as a weakening (src/composition.cpp:164-167); the
  code reports a conflict. `Composition.CompareIsReach` gives the exact boundary.

## Model

| member | source | states |
|---|---|---|
| `Words.AddLimbs` | src/ed25519.cpp:102-115 | the carry loop is exact addition of the two numbers, with the carry out of the top limb |
| `Words.SubtractLimbs` | src/ed25519.cpp:117-125 | the borrow loop is exact subtraction modulo 2^256, and it borrows exactly when the first number is smaller |
| `Words.MultiplyLimbs` | src/ed25519.cpp:162-172 | the schoolbook product of any two 256-bit numbers is exact and no 64-bit accumulator overflows |
| `Field.ConditionalSubtractP` | src/ed25519.cpp:70-88 | subtracts p in place exactly when the value is at least p |
| `Field.BelowP` | src/ed25519.cpp:92-100 | decides whether a 256-bit value is a canonical field element |
| `Field.Add` | src/ed25519.cpp:102-115 | (a + b) mod p for canonical a, b |
| `Field.Sub` | src/ed25519.cpp:117-138 | (a - b) mod p for canonical a, b, through the borrow and the wrapped addition of p |
| `Field.Neg` | src/ed25519.cpp:140 | -a mod p |
| `Field.PropagateCarries` | src/ed25519.cpp:178-183 | one carry pass preserves the value and leaves every limb below 2^32 |
| `Field.FoldRound` | src/ed25519.cpp:178-193 | folding the top carry removes 2p per unit; the first carry is at most 38, a second one at most 1 |
| `Field.ReduceWide` | src/ed25519.cpp:174-201 | two folds and two conditional subtractions bring any 512-bit product to its residue below p |
| `Field.Mul` | src/ed25519.cpp:161-202 | a * b mod p, below p, for any 256-bit a, b |
| `Field.SquareTimes` | src/ed25519.cpp:207-213 | raises to the power 2^count |
| `Field.PowP58` | src/ed25519.cpp:226-238 | the addition chain computes a^(2^252 - 3) mod p |
| `Field.Invert` | src/ed25519.cpp:242-247 | a^(p-2) mod p |
| `Field.InverseUnderFermat` | src/ed25519.cpp:240-247 | where a^(p-1) = 1, that power is the multiplicative inverse |
| `Field.CanonicalUnique` | src/ed25519.cpp:257-263 | two canonical elements are equal as numbers exactly when they are limb for limb |
| `Scalars.Compare` | src/ed25519.cpp:297-304 | the limb comparison is the numeric order |
| `Scalars.ShiftIn` | src/ed25519.cpp:337-354 | shifting the remainder left by one bit loses nothing |
| `Scalars.Reduce` | src/ed25519.cpp:337-354 | the long division returns its 512-bit input mod L |
| `Scalars.Mul` | src/ed25519.cpp:370-384 | a * b mod L for all 256-bit a, b |
| `Scalars.Add` | src/ed25519.cpp:386-402 | (a + b) mod L for a, b below L |
| `Scalars.FromBytes` | src/ed25519.cpp:316-323 | the scalar is the little-endian number of the bytes |
| `Scalars.ToBytes` | src/ed25519.cpp:325-332 | the bytes spell the scalar, low byte first |
| `Scalars.BytesRoundTrip` | src/ed25519.cpp:316-332 | reading what was written returns the scalar |
| `Scalars.LimbsRoundTrip` | src/ed25519.cpp:316-332 | writing what was read returns the bytes, so a scalar has one spelling |
| `Scalars.AllWindows` | src/ed25519.cpp:538-555 | the 64 four-bit digits of a scalar spell the scalar |
| `Curve.AddLawOnCurve` | src/ed25519.cpp:425-440 | the addition formulas keep X Y = Z T and -X^2 + Y^2 = Z^2 + d T^2 modulo p |
| `Curve.AddLawIsAffineLaw` | src/ed25519.cpp:425-440 | in affine terms the formulas are the Edwards addition law |
| `Curve.DoubleIsAdd` | src/ed25519.cpp:443-458 | the doubling formulas give the same point as adding a point to itself |
| `Curve.PointAdd` | src/ed25519.cpp:425-440 | the limb code computes the addition formulas and stays on the curve |
| `Curve.PointDouble` | src/ed25519.cpp:443-458 | the limb code computes the doubling formulas and stays on the curve |
| `Curve.IdentityIsNeutral` | src/ed25519.cpp:415-422 | adding the identity gives the same point back |
| `Curve.PointEqual` | src/ed25519.cpp:466-469 | the cross products decide equality of projective points without an inversion |
| `Curve.PointIsIdentity` | src/ed25519.cpp:460-463 | decides X = 0 and Y = Z modulo p |
| `PointCodec.PointFromBytes` | src/ed25519.cpp:488-523 | what is accepted is a canonical point on the curve that the bytes spell; y at or above p is refused |
| `PointCodec.PointToBytes` | src/ed25519.cpp:471-478 | a point with Z = 1 is written as its y with the parity of its x in the top bit |
| `PointCodec.EncodeDecoded` | src/ed25519.cpp:471-523 | accepted bytes are the encoding of the point they decode to |
| `Protocol.ClampedScalar` | src/ed25519.cpp:636-641 | a clamped scalar is a multiple of 8 between 2^254 and 2^255 |
| `Protocol.ClampIsSecret` | src/ed25519.cpp:636-641 | clamping the bytes of the hash gives the secret scalar of section 5.1.5 of RFC 8032 as a number |
| `Protocol.EightTimesIsNotMultiple` | src/ed25519.cpp:710-723 | eight times a clamped scalar is never a multiple of L |
| `Protocol.Equation` | src/ed25519.cpp:658-708 | reducing the response modulo L does not change the group equation |
| `Protocol.AcceptedExactly` | src/ed25519.cpp:683-708 | for an honest key and nonce point, verification accepts exactly S = r + k a mod L |
| `Protocol.ScalarIsUnique` | src/ed25519.cpp:683-708 | for one key, message and R at most one S is accepted |
| `Protocol.SignatureIs` | src/ed25519.cpp:658-681 | with the hash inputs written out: R is [r]B for the hash r of prefix and message, S is k a + r for the hash k of R, key and message |
| `Protocol.VerifiesIs` | src/ed25519.cpp:683-708 | what is accepted, with the hash of R, key and message written out |
| `Protocol.OneSignatureTwoMessages` | src/ed25519.cpp:699-708 | a signature accepted for two messages needs the hashes of R, key and message to agree after multiplication by the secret scalar modulo L |
| `Protocol.HonestKeyIsNotSmall` | src/ed25519.cpp:710-723 | the strict check never refuses the public key of a seed |
| `Protocol.HonestSignatureVerifies` | src/ed25519.cpp:658-723 | a signature made by the seed passes both verifications |
| `Protocol.HypothesesAreConsistent` | src/ed25519.cpp:658-723 | the integers modulo 8 L satisfy everything assumed of the abstract group |
| `Ed25519.SmallMultiples` | src/ed25519.cpp:526-534 | the table holds [0]P to [15]P |
| `Ed25519.WindowMul` | src/ed25519.cpp:538-555 | the window loop equals [scalar]P for every 256-bit scalar |
| `Ed25519.ScalarMul` | src/ed25519.cpp:583-586 | table and window together give [scalar]P |
| `Ed25519.ScalarFromWideHash` | src/ed25519.cpp:356-365 | a 64-byte hash is reduced mod L |
| `Ed25519.ExpandKey` | src/ed25519.cpp:632-647 | secret scalar, prefix and public key of a seed |
| `Ed25519.Sign` | src/ed25519.cpp:658-681 | produces the signature whose R and S are fixed by the hash of prefix and message and the hash of R, key and message |
| `Ed25519.Verify` | src/ed25519.cpp:683-708 | accepts exactly the signatures with canonical S that satisfy the group equation for the hash of R, key and message |
| `Ed25519.VerifyStrict` | src/ed25519.cpp:710-723 | accepts exactly those, except under the keys of small order |
| `Ed25519.SignThenVerify` | src/ed25519.cpp:658-723 | for every seed and message, signing and then verifying succeeds, strictly too |
| `Crc.ShiftBits` | src/hash.cpp:244-247 | the bit loop is the given number of steps of the reflected shift register |
| `Crc.BuildTable` | src/hash.cpp:241-251 | every table entry is the register of its index after the steps |
| `Crc.TableStep` | src/hash.cpp:254-256 | one table lookup is eight steps of the register |
| `Crc.Crc32Continued` | src/hash.cpp:240-258 | the table-driven loop equals the bitwise register from every state, on every byte sequence |
| `Crc.Crc32Concat` | src/hash.cpp:240-258 | continuing composes over concatenation |
| `Crc.Crc32DetectsBurst` | src/hash.cpp:260-262 | inputs that differ only inside four consecutive bytes never share a checksum |
| `Crc.SealDetectsBurst` | src/ledger.cpp:198-202 | a header with its checksum appended and changed inside four consecutive bytes, wherever they lie, no longer matches |
| `Sha256.Sha256.Update` | src/hash.cpp:109-137 | only the concatenation of all updates matters; after finishing, updates are ignored |
| `Sha256.Sha256.Finish` | src/hash.cpp:144-161 | the digest is the fold of the compression over the padded message, and asking again repeats it |
| `Sha256.PaddingIsStandard` | src/hash.cpp:145-157 | the padding is that of section 5.1.1 of FIPS 180-4; below 2^61 bytes its length field is the bit count |
| `Sha256.ZeroBytesLeast` | src/hash.cpp:151 | no fewer padding bytes would fill the block |
| `Sha256.DigestOfParts` | src/hash.cpp:109-167 | every split of a message into updates gives the same digest |
| `Sha256.DigestIs` | src/hash.cpp:109-167 | the digest comes from the initial value by one compression for every 64-byte block of the padded message, in order |
| `Sha256.OutputAt` | src/hash.cpp:158-160 | every byte of the digest: eight words in order, each high byte first |
| `Frames.BuildFrame` | src/ledger.cpp:139-164 | the patched header buffer is the frame, and the chain value covers the prefix with the link zeroed and the payload |
| `Frames.FieldOffsets` | src/ledger.cpp:139-164 | where every field of a frame lies, little-endian, and that the checksum covers the 88 bytes before it |
| `Frames.ParseBuilt` | src/ledger.cpp:165-226 | a complete frame parses to its own record, whatever follows it |
| `Frames.BuildParsed` | src/ledger.cpp:165-226 | accepted bytes are the frame of the record they parse to |
| `Frames.ParseCut` | src/ledger.cpp:165-226 | a frame cut at any byte is a torn tail, never corruption |
| `Frames.DerivedIsChain` | src/ledger.cpp:605-614 | the chain value a reader recomputes is the one the writer kept |
| `Frames.HeaderDamageRefused` | src/ledger.cpp:165-208 | a complete header changed inside four consecutive bytes is refused, and never as a torn tail |
| `Frames.PayloadDamage` | src/ledger.cpp:209-216 | another payload under an intact header is accepted exactly when it has the same digest |
| `Journal.RecordsChain` | src/ledger.cpp:570-630 | records carry consecutive numbers, their own content and the chain value of the record before |
| `Journal.ScanWritten` | src/ledger.cpp:569-630 | the scan walks over everything written and continues with what follows |
| `Journal.ScanCut` | src/ledger.cpp:569-630 | cut at any byte, a file yields exactly its complete records and the length of the torn rest |
| `Journal.CrashReads` | src/ledger.cpp:517-634 | a directory whose last file is cut at any byte reads without corruption as records 1..m across files |
| `Journal.RepairReads` | src/ledger.cpp:344-376 | whenever a directory can be read at all, its repair reads as the same records with nothing torn |
| `JournalReads.ReadIsWritten` | src/ledger.cpp:517-634 | whatever directory is read, its repair is what appending some entries leaves, and the records are exactly theirs |
| `JournalReads.LinkPinsRecord` | src/ledger.cpp:615-623 | two histories that agree on the link of a record agree on the record before it, or two particular inputs have one digest |
| `JournalReads.InputPins` | src/ledger.cpp:105-109 | the input of a chain value determines the number, the type and the payload of its record |
| `JournalReads.ChainForgets` | src/ledger.cpp:150-158 | histories of one length end in the same chain value exactly when their last records are equal or collide |
| `Ledgers.Ledger.RotateSegment` | src/ledger.cpp:460-471 | starts the next segment unless the count has reached the bound |
| `Ledgers.Ledger.Append` | src/ledger.cpp:473-515 | accepted exactly within the bounds; writes one whole frame or nothing; a faithful history stays faithful |
| `Ledgers.Ledger.WriteFrame` | src/ledger.cpp:502-514 | the frame continues number and chain, and the counters follow the bytes |
| `Ledgers.ReadSegment` | src/ledger.cpp:569-630 | the inner loop is the scan of one file |
| `Ledgers.ReadFrames` | src/ledger.cpp:517-634 | the nested loops are the scan of the directory, with torn and excess files reported |
| `Ledgers.Open` | src/ledger.cpp:334-414 | refuses exactly the unreadable directories; otherwise repairs, and takes its counters and its chain value from what is left |
| `Ledgers.SequenceBounded` | src/ledger.cpp:496-502 | the byte bound keeps every sequence number below 2^64 |
| `Ledgers.ReadsBack` | src/ledger.cpp:517-634 | a faithful directory reads back as its entries with nothing torn |
| `Ledgers.CrashOfLedger` | src/ledger.cpp:334-376 | in every reachable state, a cut of the last file at any byte is recovered to a prefix of the appended entries |
| `Ledgers.CrashDuringAppend` | src/ledger.cpp:502-508 | a torn append loses no acknowledged record; the torn one is read exactly when its frame is complete |
| `Ledgers.SeedIsOneBehind` | src/ledger.cpp:340 | the chain value seeded by opening is the chain value one record too early |
| `Ledgers.ReopenAndAppend` | src/ledger.cpp:340 | after reopening and one append the history reads back exactly when it was empty or its last two chain values coincide |
| `Ledgers.OneRecordIsEnough` | src/ledger.cpp:340 | after one record that needs a digest of all zeros |
| `Ledgers.SeedNeedsCollision` | src/ledger.cpp:340 | after two or more it needs two different inputs with one digest |
| `Ledgers.SegmentBound` | src/ledger.cpp:460-471 | a new file is refused at 257 files in the creating boot and at 256 after reopening |
| `Ledgers.FillDirectory` | src/ledger.cpp:460-515 | the run that fills a new directory is granted file 257; a ledger reopened on its 256 files is not |
| `Contracts.PrecedesIsOrder` | src/contract.cpp:1053-1064 | the canonical orders are strict orders |
| `Contracts.CanonicalizeEach` | src/contract.cpp:1421-1426 | every requirement gets sorted parts and an identity derived from its content |
| `Contracts.Canonicalize` | src/contract.cpp:1407-1436 | computes the canonical contract, with the digest taken around the identity |
| `Contracts.CanonicalContent` | src/contract.cpp:1407-1436 | the canonical body has the same scopes and requirements, each with the same parts, and changes nothing else but identities |
| `Contracts.CanonicalOrder` | src/contract.cpp:1053-1064 | its requirements are ordered by scope, kind and key and its scopes by name, names byte by byte |
| `Ordering.TextLessIs` | src/contract.cpp:1053-1064 | names compare at the first place where they differ; a proper prefix comes first |
| `Contracts.CanonicalOrderFree` | src/contract.cpp:1407-1436 | every order of scopes, requirements, members and attributes gives one canonical body, identity and digest |
| `Contracts.CanonicalIdempotent` | src/contract.cpp:1429-1434 | canonicalising twice changes nothing, and validation derives the same digest and identity |
| `Ordering.SortCanonical` | src/contract.cpp:1412-1427 | sorting by a total key is independent of the input order |
| `Ordering.SortedUnique` | src/contract.cpp:1412-1427 | there is one sorted arrangement, whatever algorithm finds it |
| `ScopeTree.Follow` | src/contract.cpp:1159-1168 | the bounded walk outlasts its bound exactly when the chain is endless |
| `ScopeTree.ReportsCycle` | src/contract.cpp:1157-1174 | a cycle is reported exactly when some chain never reaches a root or an undeclared name |
| `ScopeTree.LongIsEndless` | src/contract.cpp:1157-1174 | a chain longer than the number of names never ends |
| `ScopeTree.ChainsEnd` | src/contract.cpp:1157-1174 | in a body that passes, chains end within as many steps as there are scopes |
| `Evaluation.CountMembers` | src/evaluation.cpp:772-783 | counts the members reported present and whether one is not reported |
| `Evaluation.AllMatched` | src/evaluation.cpp:772-789 | all match exactly when every member is reported present |
| `Evaluation.SatisfiedNeedsCurrent` | src/evaluation.cpp:653-697 | SATISFIED needs a current entry captured by the running incarnation |
| `Evaluation.NoWeakerIsSound` | src/evaluation.cpp:221-313 | whatever satisfies a syntactically stronger REQUIRED requirement satisfies the weaker one |
| `Evaluation.BoundIsExact` | src/evaluation.cpp:221-284 | for numeric requirements, inclusion of satisfaction over all evidence is exactly the order of the deciding bounds: the target, or for a preference the weaker of target and minimum |
| `Evaluation.TextIsExact` | src/evaluation.cpp:286-313 | for textual requirements, inclusion of satisfaction is exactly inclusion of the wanted texts |
| `Evaluation.UnknownIsSilence` | src/evaluation.cpp:653-822 | a verdict is UNKNOWN exactly without current evidence of this incarnation that speaks to the requirement |
| `Evaluation.FlagsAndAttributes` | src/evaluation.cpp:728-822 | checkpoint isolation and attributes are satisfied exactly by current evidence of this incarnation that reports what is wanted |
| `Evaluation.ReasonIs` | src/evaluation.cpp:653-822 | every reason of a verdict: none with a decision, and with UNKNOWN the first thing that is missing |
| `Evaluation.AggregateSatisfaction` | src/evaluation.cpp:837-859 | the aggregate verdict in terms of the REQUIRED items |
| `Evaluation.EvaluateContract` | src/evaluation.cpp:861-943 | verdicts in canonical order; SATISFIED exactly when something is required and all required is satisfied |
| `Evaluation.FreshnessIs` | src/evaluation.cpp:637-646 | own evidence is current up to the age bound and expired beyond it; other evidence awaits revalidation |
| `Evaluation.ValidateEvidence` | src/evaluation.cpp:615-651 | restamps freshness in place and accepts exactly well-scoped, non-repeating, non-empty evidence |
| `Policy.IndexRequirements` | src/policy.cpp:452-455 | the key index finds the first requirement of every key |
| `Policy.CheckRequirement` | src/policy.cpp:461-526 | reports something exactly when a requirement is not carried over, and every diagnostic it adds is true of the two bodies |
| `Policy.CheckCompatibility` | src/policy.cpp:435-551 | the verdict is exactly the rules although the diagnostic log is bounded, and every diagnostic is true of the two bodies |
| `Policy.RemovalIs` | src/policy.cpp:461-475 | a requirement may disappear exactly when it is not REQUIRED and its scope is still declared |
| `Policy.CarriedIsSound` | src/policy.cpp:476-517 | a numeric requirement that takes the place of another, preferences included, is met only by evidence that meets the old one |
| `Policy.AdditionsAreCompatible` | src/policy.cpp:531-551 | keeping every requirement and adding others is compatible |
| `Policy.ChainKeeps` | src/policy.cpp:435-526 | along any publication chain a REQUIRED requirement stays present and REQUIRED, no weaker in bounds or text |
| `Policy.ChainPreservesMeaning` | src/policy.cpp:435-526 | evidence that satisfies it in generation j satisfies it as generation i stated it |
| `Evaluation.CollectiveIsExact` | src/evaluation.cpp:744-799 | for collective requirements that pass as unchanged, inclusion of satisfaction is exactly that no member was dropped |
| `Policy.ChainOfCollectives` | src/policy.cpp:518-525 | along a publication chain a collective requirement keeps its meaning exactly when no member was dropped or it asks for the absence of collectives |
| `Policy.MembersAreNotCompared` | src/policy.cpp:518-525 | a compatible pair of bodies in which a member was replaced, and evidence that satisfies only the later one |
| `Composition.CompareIsReach` | src/composition.cpp:50-87 | the comparison accepts a replacement exactly when it does not fall below what it replaces, and denies it as weaker exactly when it falls strictly below |
| `Composition.MergeLayer` | src/composition.cpp:149-203 | the indexed loop is the fold of one layer's requirements |
| `Composition.MergeScopes` | src/composition.cpp:137-147 | appends the first declaration of every name that is new, and nothing else |
| `Composition.IndexBase` | src/composition.cpp:115-124 | a repeated key in the base is found |
| `Composition.Compose` | src/composition.cpp:103-244 | computes the reference composition, refusals included; when it succeeds and what scopes it leaves is stated without the reference |
| `Composition.ComposedExactly` | src/composition.cpp:103-244 | composing succeeds exactly when layers are within the bound and named, something is required, and no mention of a key falls below an earlier one; the result is the last mention of every key |
| `Composition.RefusalMeans` | src/composition.cpp:103-203 | every refusal names its reason: a weakening is a mention strictly below an earlier one of its key, a conflict an incomparable one |
| `Composition.ComposedScopes` | src/composition.cpp:137-147 | every base scope is kept, every other scope is the first declaration of a name the base lacks; sorted by name, distinct when the base is |
| `Composition.ComposedNames` | src/composition.cpp:137-147 | the names are exactly those of the base and the layers |
| `Composition.ComposedIsCanonical` | src/composition.cpp:205-244 | the composed body is in canonical form |
| `Composition.ComposedKeys` | src/composition.cpp:149-244 | the result's keys are exactly those of base and layers, each once, sorted |
| `Composition.ComposedReaches` | src/composition.cpp:149-203 | no base or layer requirement falls in strength, bounds or text |
| `Composition.ComposedPreservesMeaning` | src/composition.cpp:149-203 | evidence that satisfies the composed requirement satisfies the base's REQUIRED one |
| `Composition.ComposedCollectives` | src/composition.cpp:29-38 | for a REQUIRED collective requirement that holds exactly when the last mention dropped no member, or absence is wanted |
| `Composition.MembersMayChange` | src/composition.cpp:29-38 | a base and a layer that compose although the member was replaced, and satisfaction is lost |
| `Composition.ComposedIsCompatible` | src/composition.cpp:103-244 | an all-REQUIRED base is compatible with the result as its next generation |
| `Composition.ComposedCompatibleExactly` | src/composition.cpp:103-244 | for any base the result is compatible with it exactly when the last mention of every base key keeps its bounds |
| `Composition.PreferenceMayWeaken` | src/composition.cpp:52-54 | without that, a composed body can be refused as incompatible: a concrete base and layer |
| `States.RegisterKeeps` | src/runtime.cpp:462-477 | a registration starts a generation chain |
| `States.PublishKeeps` | src/runtime.cpp:613-633 | a publication extends the chain: number, predecessor digest, publisher, major version, superseded flags |
| `States.RetireKeeps` | src/runtime.cpp:824-828 | retirement leaves the chain intact |
| `States.RegisterShows` | src/runtime.cpp:462-477 | after a registration the workload holds this contract as its only generation, and nothing else changed |
| `States.PublishShows` | src/runtime.cpp:613-633 | after a publication the contract is one more generation, the others are superseded and otherwise as they were |
| `States.RetireShows` | src/runtime.cpp:824-828 | a retirement marks the workload and its generations and changes nothing else |
| `States.AttachShows` | src/runtime.cpp:695-733 | evidence reaches exactly the workloads that are not retired and whose latest generation declares a scope of one of its entries |
| `States.ChainShares` | src/runtime.cpp:488-595 | all generations of a workload share publisher and major version |
| `States.HistoryPreservesMeaning` | src/runtime.cpp:578-587 | satisfying the latest generation satisfies what any earlier generation REQUIRED |
| `States.RegisterReplays` | src/runtime.cpp:163-208 | replaying a registration shows what registering showed |
| `States.PublishReplays` | src/runtime.cpp:163-208 | replaying a publication shows what publishing showed |
| `States.RetireReplays` | src/runtime.cpp:209-230 | replaying a retirement shows what retiring showed |
| `States.AttachReplays` | src/runtime.cpp:231-286 | replaying an attachment shows what attaching showed, with the evidence aged |
| `States.FloorLags` | src/runtime.cpp:270-284 | from equal floors, an attachment keeps them equal exactly when its generation is the floor, or above it with something covered |
| `Divergence.FieldsAgree` | src/runtime.cpp:179-228 | for every workload in every state of a boot: exactly when name, generation flags and evidence agree with the replay |
| `Divergence.FloorsAgree` | src/runtime.cpp:270-284 | the floors agree exactly when the last attachment has the highest generation of those that covered something |
| `Divergence.LiveIsReplay` | src/runtime.cpp:151-344 | up to recorded times and aging everything agrees exactly when nothing is retired or renamed and the floors agree |
| `Divergence.NameDiffers` | src/runtime.cpp:179 | a boot with a renaming publication |
| `Divergence.FlagDiffers` | src/runtime.cpp:824-828 | a boot with a retirement |
| `Divergence.EvidenceDiffers` | src/runtime.cpp:250-269 | a boot with evidence before and after a retirement |
| `Divergence.FloorDiffers` | src/runtime.cpp:270-272 | a boot with evidence that covers nothing |
| `States.RunKeeps` | src/runtime.cpp:379-839 | in every run the chains hold in every state, generations are only added, and a retired workload is frozen |
| `Documents.DerivedReadable` | src/evaluation.cpp:397-602 | when a set whose identity was derived in place can be read back |
| `Documents.DerivedReadableExactly` | src/evaluation.cpp:397-602 | without a collision: exactly the sets in canonical form within the reader's bounds, and they come back unchanged |
| `Documents.BlankUnchanged` | src/evaluation.cpp:149-217 | reading leaves exactly the sets in canonical form as they were |
| `Runtime.FaithfulCodecExists` | src/runtime.cpp:151-344 | for any list of events there is a faithful codec that represents them all |
| `Runtime.RestoredIsRecovery` | src/runtime.cpp:151-344 | opening decodes and applies record by record: the recovery of the committed events |
| `Runtime.RecoveryExact` | src/runtime.cpp:151-344 | recovery succeeds exactly when every event can be read back; only the content of evidence can then differ from the replay |
| `Runtime.JournalRestores` | src/runtime.cpp:151-344 | the records of an encoded journal restore its recovery |
| `Runtime.AttachmentReadable` | src/runtime.cpp:667-684 | exactly when an attached set can be read back after a restart, as a condition on the submitted set unless the digest collides |
| `Runtime.Runtime.Commit` | src/runtime.cpp:362-377 | one record is appended, exactly when the bounds allow it, or nothing is |
| `Runtime.Runtime.RegisterWorkload` | src/runtime.cpp:379-486 | accepted exactly when contract, numbers, signature and policy are right, the workload is new and the record fits; what every refusal code says; the new state; state and journal advance together or not at all |
| `Runtime.Runtime.CheckPublish` | src/runtime.cpp:488-593 | the checks of a publication, in their order |
| `Runtime.Runtime.Publish` | src/runtime.cpp:488-640 | the same for a publication, signature and policy included; an accepted one is the next link of the chain |
| `Runtime.PublishRefusalMeans` | src/runtime.cpp:488-593 | a publication is refused only with a code that is true of it; what passes is validated, signed and allowed |
| `Runtime.Runtime.Retire` | src/runtime.cpp:797-839 | the same for a retirement: a known, unretired workload and nothing else |
| `Runtime.Runtime.InstallPolicy` | src/runtime.cpp:742-795 | the same for a policy: valid, and not behind the installed one |
| `Runtime.Runtime.AttachEvidence` | src/runtime.cpp:642-740 | the same for evidence, from a trusted publisher and not behind the floor, which is stamped and attached to the covered workloads that are not retired |
| `Runtime.StampedStaysCurrent` | src/runtime.cpp:667-684 | what is attached keeps its scopes, candidates and publisher and stays current while the boot lasts and its age allows |
| `Runtime.Runtime.Evaluate` | src/runtime.cpp:841-966 | verdicts over the latest generation: SATISFIED and UNSATISFIED exactly by its REQUIRED requirements; UNKNOWN without evidence; SATISFIED only on evidence attached in this boot |
| `Runtime.FreshEvidenceSatisfies` | src/runtime.cpp:642-740 | evidence attached just now that meets every REQUIRED requirement of the latest generation satisfies them |
| `Runtime.AttachThenEvaluate` | src/runtime.cpp:642-966 | attaching such evidence and evaluating gives SATISFIED |
| `Runtime.WithoutEvidence` | src/runtime.cpp:919-937 | without evidence every verdict is unknown or not applicable |
| `Runtime.ReplayRecords` | src/runtime.cpp:151-344 | the replay loop is the replay, and restored evidence awaits revalidation |
| `Runtime.Open` | src/runtime.cpp:76-360 | serves exactly when the directory reads and replays, and starts with nothing attached |
| `Runtime.RestartShowsLiveView` | src/runtime.cpp:76-360 | reopening succeeds exactly when every committed record can be read back; it shows the live history, and the live view when records read back as they were |
| `Runtime.AttachThenReopen` | src/runtime.cpp:642-740 | a new directory, one accepted attachment and the next boot: it serves exactly when that record can be read back, never for generation 0 |
| `Runtime.CrashRestoresPrefix` | src/runtime.cpp:76-360 | a cut of the last file at any byte recovers a prefix of the committed events |
| `Runtime.AcknowledgedStepsSurvive` | src/runtime.cpp:362-377 | a crash at any byte of a commit loses no acknowledged event |
| `Utf8.DecodeEncoded` | src/json.cpp:40-103 | decoding inverts encoding on every Unicode scalar |
| `Utf8.EncodeDecoded` | src/json.cpp:40-103 | encoding inverts decoding on every accepted sequence |
| `Utf8.EncodedIs` | src/json.cpp:87-103 | the markers, the lengths and the six-bit groups of the table in section 3 of RFC 3629 |
| `JsonGrammar.PairEscape` | src/json.cpp:546-571 | every code point above the basic plane is read from its surrogate pair, in either case of the hex digits |
| `JsonGrammar.PlainEscape` | src/json.cpp:546-571 | every other code point is read from its four hex digits |
| `JsonGrammar.LoneSurrogate` | src/json.cpp:553-567 | half a pair is refused |
| `JsonGrammar.ShortEscapesAre` | src/json.cpp:512-574 | the short escapes are exactly those of section 7 of RFC 8259 |
| `JsonGrammar.SpaceIs` | src/json.cpp:306-310 | white space is exactly blanks, tabs and line ends |
| `JsonGrammar.LiteralAccepted` | src/json.cpp:376-423 | every number literal of section 6 of RFC 8259 is read to its end |
| `JsonGrammar.LiteralRead` | src/json.cpp:376-423 | whatever is read as a number is such a literal |
| `JsonSyntax.TreeAccepted` | src/json.cpp:330-667 | every text of the grammar within the bounds is read to its value, however it is spelled |
| `JsonSyntax.TreeRead` | src/json.cpp:330-667 | whatever is read is such a text and its value is the one returned |
| `JsonSyntax.ObjectIs` | src/json.cpp:590-634 | the value of an object holds exactly the members that were written, in the order of their keys |
| `JsonSyntax.DecodesExactly` | src/json.cpp:285-301 | the decoder accepts exactly the documents of the grammar within the bounds, so a text has one value |
| `JsonRoundTrip.StringRoundTrip` | src/json.cpp:124-147 | an escaped string reads back as itself |
| `JsonRoundTrip.NumberRoundTrip` | src/json.cpp:149-153 | every 64-bit integer reads back as itself |
| `JsonRoundTrip.ValueRoundTrip` | src/json.cpp:207-266 | the canonical text of a value reads back as the value at every depth within the bound |
| `JsonRoundTrip.ValueSound` | src/json.cpp:330-667 | what is read is within every bound, with valid text and sorted unique keys, and prints no longer than it was |
| `JsonRoundTrip.DecodePrinted` | src/json.cpp:840-844 | decoding a printed value returns it |
| `JsonRoundTrip.PrintDecoded` | src/json.cpp:973-999 | for every accepted text without reals, printing and decoding again is a fixed point |
| `JsonCodec.Writer.WriteEscapedString` | src/json.cpp:124-147 | the byte loop appends the quoted text |
| `JsonCodec.Writer.Dump` | src/json.cpp:207-266 | appends the canonical text, or stops inside it beyond the budget |
| `JsonCodec.Parser.SkipWs` | src/json.cpp:306-310 | skips exactly the white space |
| `JsonCodec.Parser.ParseValue` | src/json.cpp:330-374 | reads a value as the grammar says, depth bound included |
| `JsonCodec.Parser.ParseNumber` | src/json.cpp:376-470 | reads a number literal as the grammar says |
| `JsonCodec.Parser.Integer` | src/json.cpp:425-458 | the overflow-checked accumulation accepts exactly the 64-bit integers |
| `JsonCodec.Parser.ParseHex4` | src/json.cpp:472-487 | four hex digits |
| `JsonCodec.Parser.ParseUnicode` | src/json.cpp:546-571 | surrogate pairs combine, lone surrogates are refused |
| `JsonCodec.Parser.ParseString` | src/json.cpp:489-588 | reads a string as the grammar says, byte bound included |
| `JsonCodec.Parser.ParseArray` | src/json.cpp:636-667 | reads an array as the grammar says |
| `JsonCodec.Parser.ParseObject` | src/json.cpp:590-634 | reads an object as the grammar says; a repeated key is refused |
| `JsonCodec.Parser.ParseDocument` | src/json.cpp:285-301 | one value and nothing behind it |
| `JsonCodec.Decode` | src/json.cpp:973-999 | decodes exactly the documents of the grammar within the byte bound |
| `JsonCodec.Recode` | src/json.cpp:840-999 | the written code: writing and decoding return the value, decoding and writing reach a fixed point |
| `Wire.EncodeFrame` | src/wire.cpp:113-132 | appends one frame, or leaves the buffer alone when the body is too large |
| `Wire.FieldOffsets` | src/wire.cpp:113-132 | where every field of a frame lies, little-endian, and that the checksum covers the 24 bytes before it |
| `Wire.DecodeEncoded` | src/wire.cpp:113-179 | an encoded frame decodes to itself and consumes exactly its bytes |
| `Wire.EncodeDecoded` | src/wire.cpp:113-179 | accepted bytes are the encoding of their frame exactly when its flags are clear |
| `Wire.HeaderDamageRefused` | src/wire.cpp:134-158 | a header changed inside four consecutive bytes is refused for good |
| `Wire.DecodeLocal` | src/wire.cpp:134-179 | only an incomplete frame can change its verdict when more bytes arrive |
| `Wire.ParseBehind` | src/coordinator.cpp:473-505 | what was consumed does not influence how the stream goes on |
| `Coordinator.Session.Drop` | src/coordinator.cpp:390-402 | ends the session and clears its buffers |
| `Coordinator.Session.SendSome` | src/coordinator.cpp:132-153 | one send takes between one byte and a slice, blocks or fails |
| `Coordinator.Session.Flush` | src/coordinator.cpp:404-421 | bytes sent plus bytes pending stay the queued replies, whatever the peer takes |
| `Coordinator.Session.QueueFrame` | src/coordinator.cpp:427-439 | appends a whole reply or nothing |
| `Coordinator.Session.HandleFrame` | src/coordinator.cpp:495-500 | takes one frame off the buffer and answers it |
| `Coordinator.Session.ServeBuffered` | src/coordinator.cpp:475-506 | handles buffered frames up to the pass limit |
| `Coordinator.Session.Pump` | src/coordinator.cpp:462-540 | a pass handles requests until everything received is handled and sent, a full pass of them is done, or a send blocks; it ends the session only for a reason found in the script; the over-bound drop is unreachable |
| `Coordinator.SessionServes` | src/coordinator.cpp:462-540 | in every state: requests handled are the parse of the stream so far, sent and pending bytes are the replies in order |
| `Coordinator.HandledWithin` | src/coordinator.cpp:462-540 | the requests handled are an initial part of the frames of everything delivered, and all of them when a malformed header ends the session |
| `Coordinator.Serve` | src/coordinator.cpp:325-332 | any number of passes, with the inbound buffer bounded; with a peer that keeps taking and answers that fit, enough passes handle exactly the frames of the stream and send every reply |

## Left out

- The curve group itself: that the addition law is a commutative group with a base point of order L, and that point decoding inverts point encoding (it finds a root whenever there is one), are hypotheses; primality of p and L is not used.
- SHA-512, the inside of the SHA-256 compression, HMAC and collision resistance: hashes are function parameters.
- The head record of a state directory (epoch, coordinator identity, trust digest), locks, fsync, partial or failed writes inside a running boot, snapshots and truncation to a sequence number.
- Ledgers.Open: models a directory whose journal files are numbered without gaps, which is what appending leaves; foreign file names are not modelled.
- Journal.ScanSegment: sequence numbers are unbounded in the scan of an arbitrary directory; in every directory the ledger writes they stay far below 2^64.
- Runtime.Runtime.Evaluate: the branch that serves a cached decision is omitted, because no valid decision is ever stored; timestamps and reason texts of verdicts are omitted, and so is the variant that evaluates evidence handed in (src/runtime.cpp:852-861), which runs the same code on it.
- Field-by-field decoding of contracts and policies: a representable registration, publication or policy is one whose document reads back as itself. Evidence is read field by field; what a printed number reads as, which strings are text, and the digest are parameters. The printed form of a negative number can lose its sign (src/json.cpp:923-930); the parameter admits that.
- The exact decision of the policy rules, contract and policy validation and signature verification inside the runtime: function parameters, called in the source's order.
- Policy.ChainPreservesMeaning: excludes collective requirements, where the property holds only under the condition of `Policy.ChainOfCollectives`, and asks that numeric bounds belong to numeric kinds, which body validation enforces.
- Composition.Compose: the list of decisions that accompanies the result (one entry per scope or requirement added or replaced) is omitted.
- Composition.ComposedPreservesMeaning: excludes collective requirements, which `Composition.ComposedCollectives` covers, and asks the same of the base requirement.
- JsonRoundTrip.DecodePrinted: values with real numbers are excluded; which literals a double represents and how reals are formatted are function parameters, and error offsets and messages are omitted.
- Coordinator.Session.Pump: sockets are replaced by an arbitrary list of received chunks and an arbitrary function from sends to their outcomes, and the reply to the k-th request is an arbitrary function of k; idle timeouts and the accept loop are omitted.
- Command line tools, message texts, token tables, hex and base64url helpers.
