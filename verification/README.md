# A verified model of VectorX

VectorX is a light client of the Avail chain: circuits prove that a range of headers is one
linked chain, justified by a GRANDPA authority set, and a contract stores the header hash and the
Merkle roots of every range. This project models its four parts and proves what they add up to.

| part | modules |
|---|---|
| encodings and trees | `Basics`, `Compact`, `Headers`, `Trees` |
| subchain verifier and its off-chain counterpart | `Subchain`, `SubchainTheorem`, `SubchainWrap`, `Fetcher` |
| authority sets, justifications, rotation | `Authorities`, `Justifications`, `Indexer`, `AuthorityLists`, `Rotation`, `HeaderRotate`, `HeaderRange` |
| epoch search and operator | `Epochs`, `Operator` |
| contract, back-fill, whole runs | `Contract`, `Safety`, `Backfill`, `Runs`, `OnChain`, `Service` |
| honest data goes through, alone and together | `Completeness`, `EndToEnd` |

`dafny verify dfyconfig.toml` checks everything.

## Main results

- `SubchainTheorem.SubchainExact`: the verifier accepts a witness if and only if its headers
  decode and the first target - trusted of them are one chain from the trusted hash to the target;
  it returns the target's hash and the roots of exactly these blocks. Soundness, uniqueness and
  completeness follow (`SubchainSound`, `SubchainUnique`, `Fetcher.SubchainComplete`).
- `Fetcher.FastTreeIsSimpleTree` and `Fetcher.AcceptedIsOffChain`: batches of eight, reduced in
  pairs, give the roots that the off-chain code computes from a flat list of 256 leaves; and no
  accepted witness, however its headers are padded, gives other roots for the chain's target without
  a header collision.
- `Rotation.EpochEndExact`, `Rotation.PaddedContentAnnounces`, `HeaderRotate.RotatePositionExact`,
  `Authorities.CommitmentBinds`: for a number of authorities that fits the array, the byte parser
  accepts exactly a scheduled change of the committed keys, and if the header is zero-padded, its
  hashed content announces them; for an honest header the off-chain cursor lands where the
  parser looks if and only if there are fewer than 64 logs and at least two authorities; a
  commitment determines the keys and their order.
- `Justifications.JustifiedMeans`, `Justifications.AccountableSafety`: for a justification shaped as the
  padding shapes it, more than two thirds of the committed keys validly signed the message for the
  block, its hash and the set; two of this shape that are accepted under one set hash share more than
  a third of the keys as signers of both messages, or inputs hashed for the commitments collide.
- `Operator.RangeSafe`, `Operator.RangeMeans`, `Epochs.LastJustifiedBlock`,
  `Service.ServiceNeverStalls`: one authority set attests every requested range, which goes as far as
  head, limit and the next epoch end allow, the binary search finds the first block of the next set, and in
  every run of the operator against the contract all calls go through and the next pass with
  an interval ahead submits a request that the contract accepts. `Service.ServiceCatchesUp`: if
  all requests are answered, the contract comes within an interval of a fixed head.
- `Contract.CommitExact`, `RotateExact`, `RangeRequestExact`, `RotateRequestExact`, `BackfillExact`,
  `BackfillWrites`: for each call and all arguments, exactly when it goes through and what it writes, in
  terms of the stored mappings; requests are accepted exactly when the call that they lead to can go
  through. `Runs.FrozenStays`: without its guardian, a frozen contract never changes.
- `Runs.RunSafe`: after any sequence of commits, rotations, requests, freezes and honest back-fills from
  initialization, one linked chain runs from the genesis hash to the latest stored hash, the stored
  ranges tile it, no other hash or root is stored, and each commitment is the root of exactly its slice.
  `OnChain.StoredIsChains`: once one of the stored hashes is that of a valid chain, whatever the
  witnesses were, everything stored up to its block is what the off-chain code computes from this chain,
  or a header collides. `Runs.RunIsSigned` and `Runs.TrustGoesBack`: without back-fills, every commit
  and rotation goes back to the genesis set by a line of rotations, one for each set; when the witnesses
  have the shape the hints give them, each was signed by more than two thirds of the set it names, whose
  keys are those announced in the hashed content of the epoch-end header of the rotation before, or
  hashed inputs collide. `Runs.ForkIsAccountable`: when the justifications of two commits have this
  shape, a fork shows more than a third of a set signing two messages, or a collision.
- `Completeness.ProveHeaderRange`, `Completeness.ProveRotation`, `EndToEnd.AnswerPass`: from a valid
  chain, or an honest epoch-end header, and valid precommits of more than two thirds of a set, hints and
  circuits together return the target's hash with the off-chain roots, or the commitment of the
  announced keys; so whatever a pass of the operator asks for is answered, if these precommits are there.
- `EndToEnd.Operate`: operator, off-chain code, circuits and contract together. On an honest network the
  loop of passes terminates with the contract within one interval of the head, every call was
  backed by the circuits and went through, and all that is stored is the chain's.

## How the model is set up

- A circuit is run on a witness: it returns its output, or `None` when an assertion fails. Hints
  are untrusted; soundness quantifies over all witnesses, completeness uses the hint's.
- SHA-256 (FIPS 180-4), BLAKE2b (RFC 7693) and Ed25519 (RFC 8032) are the function fields of
  `Crypto`, and every theorem holds for any choice of them. Where a hash has to bind, the theorem
  says "equal, or two different inputs that were hashed here have the same hash".
- u32 arithmetic in circuits wraps (`Add32`, `Sub32`, `Mul32`). `NoWrap` is not a hypothesis of
  soundness: a wrapping last job makes the verifier fail (`WrappedRejected`). Off-chain sums that
  would overflow u32 or u64 are excluded by preconditions on the head, the end block and set ids.
- The library's gadgets are modelled by what they compute: `mapreduce` folds neighbours level by
  level, `get_root_from_hashed_leaves` masks disabled leaves and does the same,
  `get_fixed_subarray` is a slice whose window has to lie in the array, the BLAKE2b gadget
  hashes the first `size` bytes of a header and rejects a size beyond the array.
- The contract is a class whose methods are proved equal to steps on a `State`; the run theorems
  are about these steps. The gateway's answer is the function parameter `verify`; `onlyGuardian` is
  a flag; a range key is the pair of its block numbers instead of its keccak hash; `initialize`
  is the constructor.
- Chain reads are a fixed history: `Chain` gives a header for each block, `History` a set id.
  `ValidHistory` says that set ids start at zero and rise by at most one a block.
- An off-chain panic is `None`.

- Layouts and constants are stated twice: by the functions the code is proved against, and in literal
  bytes and numbers by lemmas about them (`CompactInNumbers`, `HeaderInBytes`, `PrecommitInBytes`,
  `JustifiedInBytes`, `AcceptedInBytes`, `LogChecksInBytes`, `RecordInBytes`, `HintInBytes`,
  `RangeRootsExact`, `SubchainRoots`, `FilledInNumbers`).

Assumptions that the code leaves to its callers stay visible in the theorems:

- The circuit does not check trusted < target; the contract does (contracts/src/VectorX.sol:223).
  `SubchainWrap.TargetNotAboveTrusted` says exactly what is accepted otherwise, `WrappedTarget` is an
  input.
- The circuits do not check that the number of authorities fits the array. A larger number commits
  to the whole array (`ComputeAuthoritySetCommitment`). In a rotation, only the keys of the array are
  checked, and no delay (`LargeSetAccepted`): what is committed to is the announced change if and
  only if the number fits (`ChangeIffNumberFits`); `LargeSetCut` is an input where it does not. In a
  justification, twice the number may wrap around: from 2^31 on the threshold may be passed
  without a quorum (`QuorumExact`), and `NumberWraps` is an input with one signature.
- That header bytes beyond the size are zero (`ZeroPadded`) is ensured by the hints, and not by the
  circuits as modelled. For header ranges it matters only where a header is too short for its own
  fields: the content decides what a header decodes to if and only if it reaches to the end of the
  state root (`ContentDecides`), as it does for every header of the chain; otherwise another padding
  is accepted with the same hash and another state root (`TamperedAccepted`, with the input
  `ShortWitness`). What a header hash justifies is the content; `EpochEndExact` alone is about
  the whole array. `ChangeInContent` says when an accepted change lies in the content,
  `PaddedContentAnnounces` that with zero padding the content announces the keys, and
  `PaddingIsNeeded` gives the input on which it does not.
- That nobody beyond the authorities is marked as signing (`NoPaddingSigned`) is ensured by the
  hints, too. `Justified` alone is what the circuit checks; `JustifiedMeans` says what it means without
  such marks and for a number below 2^31 (`Shaped`), `QuorumExact` when the committed authorities are
  a quorum for every number and all marks, and `PaddingCounted` gives an input on which they are not.
  `UnsignedFork` shows what that means for forks.

Where code and comments or other code disagree, the model follows the code:

- `get_header_rotate` does not skip the number of logs; the circuit skips one byte for it, and two
  for the length of the log's value. `RotatePositionAny` says when these fit together, for every
  header with a FRNK log, `RotatePositionExact` for honest ones, and
  `PositionsRefused` gives two headers on which they do not.
- The off-chain weight check admits exactly two thirds of the votes, the circuit asks for more:
  `WeightCheckGap`, with the input `TwoThirdsPad`.
- The indexer counts signed precommits rather than authorities: `StoredQuorumExact` says exactly when
  what is stored carries a quorum, `RepeatedSignerStored` gives an input without one, and
  `StoredHasQuorum` what makes the count of precommits enough.
- `find_justifications_in_range` is said to include both ends, but lists no epoch end when start
  and end are the same block: `ListedExact` says when the list is complete, `SingleBlockMissed` gives
  a history on which it is not.
- `requestHeaderRange` reports a missing trusted header as `AuthoritySetNotFound`.

## Model

| member | source | states |
|---|---|---|
| Compact.DecodeArithmetic | circuits/builder/decoder.rs:40-64 | the decoder's sums of flipped bits are the low two bits and the numbers above them of the first 1, 2 and 4 bytes, and the little-endian value of the last four |
| Compact.DecodedValue | circuits/builder/decoder.rs:36-89 | the decoder fails exactly on mode 3 with a nonzero length field, and otherwise reads the number the mode's bytes denote |
| Compact.CompactRoundTrip | circuits/builder/decoder.rs:36-89 | decoding inverts SCALE compact encoding of every u32, whatever bytes follow, and recovers the mode |
| Compact.CompactInNumbers | circuits/builder/decoder.rs:36-89 | the decoder byte by byte: the low two bits of the first byte choose the number of the next bytes, to the base of 256, divided by four, or of the four bytes after a 3; anything else fails |
| Compact.EncodedLength | circuits/input/mod.rs:836-842 | a number below 2^6, 2^14, 2^30 takes one, two, four bytes, any other u32 five |
| Headers.HeaderRoundTrip | circuits/builder/decoder.rs:91-144 | decoding a padded header gives back number, parent hash, state root and data root, and the hash of its encoding, for every encoded length of the number |
| Headers.AcceptedSize | circuits/builder/decoder.rs:117-136 | a header whose data root window fits the array has size zero or a size from 32 to the array's length, although the subtraction wraps |
| Headers.HeaderInBytes | circuits/builder/decoder.rs:91-144 | which bytes of the array are which: parent hash, number, state root right behind it, data root in the last 32 bytes of the size, and the hash of the first `size` bytes; exactly when the array decodes |
| Headers.LogsInBytes | circuits/input/mod.rs:839-850 | an encoded log is a 4, the engine id, the compact length and the value; logs stand one after the other |
| Headers.EmptyHeaderDecodes | circuits/builder/subchain_verification.rs:373-380 | the hint's empty header passes every assertion of the decoder |
| Headers.ContentDecides | circuits/builder/decoder.rs:91-144 | the hashed content decides what a header decodes to if and only if it reaches to the end of the state root |
| Headers.SameHash | circuits/builder/decoder.rs:91-144 | two headers with one hash, of which one is covered in this way or both are zero-padded, decode alike, or their contents collide |
| Headers.SameContent | circuits/builder/subchain_verification.rs:365 | with zero padding, equal hashed content means equal witness headers |
| Trees.LevelFoldIsTreeFold | circuits/builder/subchain_verification.rs:240-297 | reducing neighbours level by level is folding by halves |
| Trees.FoldOfChunks | circuits/builder/subchain_verification.rs:85-297 | if a join turns values of neighbouring pieces into the value of both, folding the values of the batches of eight gives the value of the whole |
| Trees.RootOfHalves | circuits/builder/subchain_verification.rs:270-279 | the root over two halves is the hash of their roots |
| Trees.RootBinds | circuits/builder/subchain_verification.rs:220-282 | equal roots of equally many leaves mean equal leaves, or two pairs of nodes of the trees have one hash |
| Trees.OneBitIsPow2 | circuits/input/mod.rs:434 | a length has one bit set exactly when it is a power of two |
| Trees.GetMerkleRoot | circuits/input/mod.rs:427-452 | both loops together compute the tree over the leaves, filled with zero leaves to the least power of two; nothing for no leaves |
| Trees.SmallTrees | circuits/input/mod.rs:427-452 | the trees of no, one, two and three leaves written out: left before right, leaves unhashed, a zero leaf to fill up |
| Trees.FullTree | circuits/input/mod.rs:432-436 | a power of two of leaves is not padded |
| Subchain.NumMapJobs | circuits/builder/subchain_verification.rs:73-80 | the least power of two of batches that hold the headers, refused exactly when one batch would do |
| Subchain.NextScanKeeps | circuits/builder/subchain_verification.rs:156-209 | a turn of the loop keeps the no-op flag, count, end block, end hash and link checks what they should be for the headers seen |
| Subchain.ScanBatch | circuits/builder/subchain_verification.rs:156-209 | after the loop these variables describe the headers up to and including the first one numbered as the target |
| Subchain.MapJob | circuits/builder/subchain_verification.rs:89-239 | a map job passes exactly when its live headers are linked, start at the batch's start and end at the target or the batch's end; it reports their ends and roots |
| Subchain.VerifySubchain | circuits/builder/subchain_verification.rs:57-311 | the jobs in order, reduced, and the two final equalities, as one function of the witness |
| SubchainTheorem.BatchIsSummary | circuits/builder/subchain_verification.rs:145-239 | an accepted batch is a chain from its start up to the target or its end, and conversely |
| SubchainTheorem.JoinIsSummary | circuits/builder/subchain_verification.rs:241-297 | the reduce check on two neighbouring ranges is what makes them one chain with one root, including disabled right parts and the wrapping subtraction |
| SubchainTheorem.TreeIsSummary | circuits/builder/subchain_verification.rs:85-297 | reducing all batches gives the summary of all headers |
| SubchainTheorem.WrappedRejected | circuits/builder/subchain_verification.rs:101-108 | if the start of the last batch wraps around, no witness is accepted |
| SubchainTheorem.SubchainExact | circuits/builder/subchain_verification.rs:57-311 | acceptance is exactly: all headers decode, no wrap-around, at most 8 * jobs blocks, and one linked chain from the trusted hash; the output is the target's hash and the roots over exactly the range |
| SubchainTheorem.AcceptedWitness | circuits/builder/subchain_verification.rs:57-311 | an accepted witness decodes to blocks that satisfy the global property and determine the output |
| SubchainTheorem.SubchainSound | circuits/builder/subchain_verification.rs:57-311 | the first target - trusted headers are numbered in sequence, each names the hash before it, the first the trusted hash, and the returned hash is the last one's |
| SubchainTheorem.SubchainRoots | circuits/builder/subchain_verification.rs:220-311 | the returned roots, leaf by leaf: the roots of the first target - trusted headers in order, and zeros in all other places |
| SubchainWrap.FoldAfterDead | circuits/builder/subchain_verification.rs:240-297 | what the reduction makes of disabled jobs followed by others: a chain of live blocks, and at every join with a disabled left half a first block numbered 1 with a zero parent hash |
| SubchainWrap.TargetNotAboveTrusted | circuits/builder/subchain_verification.rs:145-149 | without trusted < target, accepted are exactly target 0 with no job enabled, returning the zero hash, and, after a wrap-around of the block numbers, a chain from the first enabled job's start to the target, returning the target's hash; without wrap-around only the former |
| SubchainWrap.WrappedTarget | circuits/builder/subchain_verification.rs:145-149 | an input with wrap-around: two jobs, trusted 2^32 - 8, target 1 |
| SubchainTheorem.ChainsAgree | circuits/builder/subchain_verification.rs:178-193 | two chains with one last hash agree backwards along the parent links unless two headers collide |
| SubchainTheorem.SubchainUnique | circuits/builder/subchain_verification.rs:57-311 | two accepted witnesses with one target hash have the same header contents in the range, trusted hash and roots, or two of their headers collide; bytes behind the contents are restricted, to zero, only where both headers are too short to cover their fields |
| SubchainTheorem.TamperedAccepted | circuits/builder/decoder.rs:117-144 | there they matter: changing one of them keeps a witness accepted, with the same target hash and data root and another state root, or tree nodes collide |
| SubchainTheorem.ShortWitness | circuits/builder/decoder.rs:117-144 | an accepted witness with such a header, of size 40 |
| Fetcher.GetBlockHeadersRange | circuits/input/mod.rs:490-523 | fetching 200 at a time returns every header once, in order, whenever the cursor does not overflow |
| Fetcher.HeaderRangeHint | circuits/builder/subchain_verification.rs:326-388 | the hint of a job supplies the padded headers up to the lesser of its last block, a wrapping sum, and the target, empty ones after it, and fails exactly on an oversized header |
| Fetcher.HintInBytes | circuits/builder/subchain_verification.rs:342-380 | header i of a hint in bytes: the encoding of block start + i and zeros behind it, up to the lesser of the target and start + 7 modulo 2^32; all zeros after that |
| Fetcher.FetchWitness | circuits/builder/subchain_verification.rs:101-122 | the hints of all map jobs, with their wrapping block numbers, one after the other, are the witness that completeness is about |
| Fetcher.HintIsChain | circuits/builder/subchain_verification.rs:101-122 | it is the chain's headers up to the target, then empty ones, when no enabled job's block numbers wrap around |
| Fetcher.GetMerkleRootCommitments | circuits/input/mod.rs:456-487 | the roots of blocks start + 1 to end over 256 leaves, refused exactly for a backward or oversized range |
| Fetcher.RangeRootsExact | circuits/input/mod.rs:456-487 | those roots, leaf by leaf: 256 leaves, blocks start + 1 to end in order, and zeros |
| Fetcher.WitnessDecodes | circuits/builder/subchain_verification.rs:354-380 | on a valid chain these headers decode to the chain's blocks |
| Fetcher.SubchainComplete | circuits/builder/subchain_verification.rs:57-311 | on a valid chain the hints of all jobs succeed and are accepted if and only if the last job's start does not wrap around, and neither does its end, unless the job is disabled |
| Fetcher.CrookedRejected | circuits/builder/subchain_verification.rs:342-352 | otherwise the witness of the hints is refused, whatever the chain and the trusted hash |
| Fetcher.FastTreeIsSimpleTree | circuits/builder/subchain_verification.rs:220-282 | the circuit's output on the chain's headers, which the hints supply, is the target's hash and the off-chain roots |
| Fetcher.AcceptedIsOffChain | circuits/input/mod.rs:456-487 | any accepted witness that returns the chain's target hash has the chain's trusted hash and the off-chain roots, or a header of it collides with the chain's |
| Authorities.ComputeAuthoritySetHash | circuits/input/mod.rs:212-222 | the loop computes the chained hash of the keys, and the empty vector for none |
| Authorities.HashOfMore | circuits/input/mod.rs:212-222 | one key is hashed alone, and each further key is appended to the hash so far |
| Authorities.ComputeAuthoritySetCommitment | circuits/builder/justification.rs:127-162 | the flag-controlled loop computes the chained hash of the first n keys of the array, fails for n = 0, and covers the whole array for n beyond it |
| Authorities.CommitmentBinds | circuits/builder/justification.rs:127-162 | equal commitments are to equal keys in equal order and number, or two of the hashed inputs collide |
| Justifications.PrecommitReadersAgree | circuits/input/mod.rs:224-252 | reversed big-endian reading and little-endian reading agree on every message |
| Justifications.PrecommitRoundTrip | circuits/builder/decoder.rs:146-187 | decoding inverts the encoding of the signed message |
| Justifications.PrecommitDetermined | circuits/builder/decoder.rs:146-187 | the decoded fields determine all 53 bytes |
| Justifications.PrecommitInBytes | circuits/builder/decoder.rs:146-187 | which bytes of the message are which: a 1, the hash in bytes 1 to 32, the block number in 33 to 36, the round in 37 to 44, the set id in 45 to 52, lowest byte first, for the encoder and both readers |
| Justifications.VerifyVotingThreshold | circuits/builder/justification.rs:164-186 | the loop counts the signers, and compares in u32 arithmetic |
| Justifications.VerifySimpleJustification | circuits/builder/justification.rs:195-257 | passes exactly when commitment, block number, set id, block hash, every marked signature and the threshold are right |
| Justifications.JustifiedInBytes | circuits/builder/justification.rs:195-257 | the check in bytes and numbers: the commitment of the first n of 300 keys, the places of hash, block number and set id in the message, a valid signature at every marked position, and the number of marks times 3 above n times 2, modulo 2^32 |
| Justifications.JustifiedMeans | circuits/builder/justification.rs:188-194 | with no padding marked as signing and a number of authorities below 2^31, more than two thirds of the committed authorities validly signed the one message for this block, hash and set |
| Justifications.QuorumExact | circuits/builder/justification.rs:164-186 | for every number of authorities and all marks, the committed authorities are such a quorum exactly when: for a number that fits the array, fewer positions are marked in the padding than in excess of the threshold; beyond the array, the number is below 2^31 or the marked positions are a quorum |
| Justifications.NumberWraps | circuits/builder/justification.rs:181-185 | an input: the number 2^31, for which one signature passes for 300 keys |
| Justifications.PaddingCounted | circuits/builder/justification.rs:173-179 | an input: one authority, whose signature is not needed because a padded position is marked |
| Justifications.QuorumsIntersect | circuits/builder/justification.rs:164-186 | two quorums of marked positions share more than a third of the positions |
| Justifications.AccountableSafety | circuits/builder/justification.rs:195-257 | two justifications of the padding's shape accepted under one set hash: the same keys, more than a third of which validly signed both messages, or a collision; different blocks, hashes or sets mean different messages |
| Justifications.UnsignedFork | circuits/builder/justification.rs:173-179 | an input without this shape: two hashes of one block accepted under one set hash, and the committed key signed neither |
| Indexer.StoreJustification | bin/indexer.rs:104-147 | stores exactly when more than two thirds (rounded down) precommits are valid; key, flag and signature are aligned with the authority list, each signer's last precommit counting; for distinct authorities, what is stored carries a quorum exactly when the voters among the signers are one |
| Indexer.PadJustification | circuits/input/mod.rs:774-802 | keeps the first n entries, marks nobody after them, and fails exactly on a message, key or signature of the wrong length, too little weight or lists that do not fit |
| Indexer.StoredQuorumExact | bin/indexer.rs:113-137 | for distinct authorities, what is stored carries a quorum if and only if the authorities among the signers, each counted once, are more than two thirds |
| Indexer.StoredHasQuorum | bin/indexer.rs:113-121 | for distinct signers from the list, what is stored carries more than two thirds of the authorities |
| Indexer.RepeatedSignerStored | bin/indexer.rs:117-121 | one precommit received three times is stored for three authorities without a quorum |
| Indexer.ThresholdAfterPadding | circuits/builder/justification.rs:164-186 | the circuit's threshold on the padded arrays is the quorum of the stored list |
| Indexer.WeightCheckGap | circuits/input/mod.rs:774-776 | the off-chain weight check passes and the circuit fails exactly at two thirds |
| Indexer.TwoThirdsPad | circuits/input/mod.rs:774-776 | an input: two of three authorities |
| Indexer.IndexAndPad | bin/indexer.rs:104-147 | from signers to the circuit, for distinct authorities: padded exactly when enough precommits were received and the voters are at least two thirds, aligned key by key, committed to in order, and accepted by the threshold exactly when the voters are more |
| AuthorityLists.RecordsOfEncoding | circuits/builder/rotate.rs:188-209 | the encoding of a list has its i-th key and a weight of one at byte 40 * i |
| AuthorityLists.RecordInBytes | circuits/builder/rotate.rs:188-209 | a record in bytes: 32 of the key, a one and seven zeros |
| AuthorityLists.EncodingOfRecords | circuits/builder/rotate.rs:188-209 | bytes with such records in a row are the encoding of the list |
| AuthorityLists.EncodingInjective | circuits/input/mod.rs:595-612 | a list is determined by its encoding |
| AuthorityLists.GetAuthorities | circuits/input/mod.rs:582-612 | returns the keys that the bytes after the guessed offset encode, and fails exactly when they encode none |
| AuthorityLists.StorageOffset | circuits/input/mod.rs:582-589 | the offset guessed from the length is right for fewer than 2^14 authorities, and beyond that reading fails |
| Rotation.VerifyList | circuits/builder/rotate.rs:185-226 | the flag-controlled loop checks the first n keys and weights, and the delay after them |
| Rotation.VerifyEpochEndHeader | circuits/builder/rotate.rs:122-227 | passes exactly when prefix, number of authorities, list and delay are right and both windows lie in the header array |
| Rotation.AcceptedInBytes | circuits/builder/rotate.rs:65-227 | what passes, in bytes: a 4 at start + 1, the engine id 70, 82, 78, 75 at start + 2, a 1 at start + 8, the compact number n at start + 9, then the first n keys with weights, and four zeros if the array holds all n |
| Rotation.EpochEndExact | circuits/builder/rotate.rs:122-227 | for a number that fits the array of keys, a position is accepted exactly when the header array holds a FRNK scheduled change there: number n, the encoding of exactly the n given keys with weight one, delay zero, and the windows fit |
| Rotation.LargeSetAccepted | circuits/builder/rotate.rs:185-226 | for a number beyond the array, exactly when the flags and the number are right and the keys of the array come first in the list |
| Rotation.ChangeIffNumberFits | circuits/builder/rotate.rs:122-227 | the keys committed to are the change at an accepted position if and only if their number fits the array |
| Rotation.ChangeAccepted | circuits/builder/rotate.rs:122-227 | a change is accepted with any array of keys that agrees with it as far as both go |
| Rotation.ChangeInContent | circuits/builder/rotate.rs:122-227 | the keys committed to are a change in the hashed content if and only if their number fits the array and the change ends within the header's size |
| Rotation.PaddedContentAnnounces | circuits/builder/rotate.rs:257-265 | with zero padding the hashed content announces exactly the keys committed to, up to zero bytes missing at the end, if and only if their number fits the array |
| Rotation.AnnouncedKeys | circuits/builder/rotate.rs:192-199 | each key announced is read off the hashed content itself |
| Rotation.Rotate | circuits/builder/rotate.rs:229-274 | returns the commitment of the new keys exactly when the epoch-end header is justified by the current set and accepted |
| Rotation.RotateDetermined | circuits/builder/rotate.rs:229-274 | header array and position determine the result, whatever the padded keys and the justification |
| Rotation.RotateDeterminedByHash | circuits/builder/rotate.rs:245-273 | with zero padding, header hash and position determine the result, or two headers collide |
| Rotation.RotationIsSigned | circuits/builder/rotate.rs:248-255 | with a justification shaped by the padding, more than two thirds of the current set signed the hash of the epoch-end header |
| Rotation.HandoverBinds | circuits/builder/rotate.rs:267-273 | keys that a later justification commits to under the returned hash are those rotated in, or hashed inputs collide; they are listed in the header array and, with zero padding, announced by the hashed content, if and only if their number fits the array |
| HeaderRotate.CheckLog | circuits/input/mod.rs:852-887 | the cursor loop accepts exactly a scheduled change whose records name the authorities in order, followed by a delay of zero |
| HeaderRotate.LogChecksInBytes | circuits/input/mod.rs:852-887 | that value in bytes: a 1, room for the compact number of the fetched authorities, all whole 40-byte records that it holds, and four zeros |
| HeaderRotate.GetHeaderRotate | circuits/input/mod.rs:809-931 | succeeds exactly on an epoch end whose header fits and whose first FRNK log passes; start and end position, padded keys and hash of the result |
| HeaderRotate.FirstFrnkExact | circuits/input/mod.rs:845-850 | the log it looks for is the first consensus log with engine id 70, 82, 78, 75 |
| HeaderRotate.ChangeInBytes | circuits/input/mod.rs:852-885 | an honest scheduled change in bytes: a 1, the compact number of keys, their records, four zeros |
| HeaderRotate.ScheduledChangePasses | circuits/input/mod.rs:852-887 | an honest scheduled change passes the off-chain checks |
| HeaderRotate.LogInHeader | circuits/input/mod.rs:839-896 | the log lies one compact length (the number of logs) after the start position |
| HeaderRotate.RotatePositionExact | circuits/input/mod.rs:839-930 | for an honest header whose windows fit, the position found is accepted by the circuit if and only if there are fewer than 64 logs and at least two authorities |
| HeaderRotate.RotatePositionAny | circuits/input/mod.rs:839-930 | for every header with a FRNK log: the position found is accepted if and only if there are fewer than 64 logs, the value has fewer than 2^14 bytes, the bytes from the eighth one on state a change of the fetched authorities, and the windows fit; these bytes start with the value when it has 64 bytes or more |
| HeaderRotate.CheckedPositionAccepted | circuits/input/mod.rs:852-930 | so it is for every log that the off-chain code accepts in a header with fewer than 64 logs, if its value has 64 to 2^14 - 1 bytes, its number is canonical, all records are there and the windows fit |
| HeaderRotate.PositionsRefused | circuits/input/mod.rs:839-930 | two inputs at any epoch end, for which the off-chain code returns a position: a header with 64 logs, and one with a single authority |
| HeaderRotate.PaddingIsNeeded | circuits/builder/rotate.rs:245-265 | an input that is not zero-padded: a change behind any justified content is accepted, although the content does not announce it |
| HeaderRotate.LargeSetCut | circuits/builder/rotate.rs:185-226 | an input: from a justified header that announces 301 keys a rotation commits to the first 300, which it does not announce |
| HeaderRotate.EndPositionExact | circuits/input/mod.rs:916-920 | the end position is then the end of that log in the header |
| HeaderRotate.FindRotation | circuits/input/mod.rs:809-931 | with any justification of the epoch-end block, the witness built off chain makes the circuit return the commitment of the announced keys |
| HeaderRange.Define | circuits/header_range.rs:26-59 | subchain verifier and justification of its target, on one witness |
| Epochs.LastJustifiedBlock | circuits/input/mod.rs:380-414 | the binary search terminates without underflow and returns the first block with set id t + 1, or 0 exactly when there is none up to the head |
| Epochs.FoundLastUnique | circuits/input/mod.rs:377-379 | that description determines the block |
| Epochs.FoundIsEpochEnd | circuits/input/mod.rs:816-819 | a block found satisfies the hint's assertion on the two set ids |
| Epochs.EpochEndsExact | circuits/input/mod.rs:347-367 | the listed epoch ends are exactly those of the range, strictly increasing |
| Epochs.QuietUntil | circuits/input/mod.rs:353-367 | between a block and the block found for its set there is no epoch end |
| Epochs.FindJustificationsInRange | circuits/input/mod.rs:327-375 | terminates, sorted, and holds exactly the stored blocks and the epoch ends of the range up to the head, none when the range is one block |
| Epochs.ListedExact | circuits/input/mod.rs:325-367 | all epoch ends of a range up to the head are listed if and only if the range is longer than one block, starts after the head, or starts at no epoch end |
| Epochs.SingleBlockMissed | circuits/input/mod.rs:353 | a history and a range of one block on which the epoch end is missed |
| Epochs.Sort | circuits/input/mod.rs:372 | a sorted permutation |
| Operator.FindAndRequestRotate | bin/vectorx.rs:162-200 | requests a rotate out of the set that justified the latest block exactly when an epoch end from the latest block on lies before the head and the contract does not know the set it starts |
| Operator.FindBlockToStepTo | bin/vectorx.rs:364-380 | the lesser of the limit and the last block justified by the set, or the limit |
| Operator.FindAndRequestHeaderRange | bin/vectorx.rs:202-264 | switches to the next set exactly at the last block of the current one, if the contract has it |
| Operator.RunPass | bin/vectorx.rs:382-409 | one pass: what it requests is `RotateOf` and `RangeOf` on the chain and the contract, and is due: the rotation (`RotateIsDue`), and the range to the farthest reachable block, or none exactly when no block is reachable or the set that starts at the latest block is unknown (`RangeIsDue`) |
| Operator.RangeSafe | bin/vectorx.rs:202-264 | a requested range lies after the latest block, within head and limit, and its set is in force at every block from the latest up to the one before the target |
| Operator.RangeMeans | bin/vectorx.rs:202-264 | a requested range goes to the farthest block, not beyond head and limit, that is on the way to a multiple of the interval without crossing an epoch end, under the set in force at the latest block; nothing is requested only if there is no such block or that set starts there and is unknown |
| Operator.NothingPassedOver | bin/vectorx.rs:391-396 | no multiple of the interval up to head and limit lies above a requested target that is not an epoch end |
| Operator.RequestsAreBacked | bin/vectorx.rs:162-264 | every request names a set whose hash the contract has, and a rotate one whose successor is missing |
| Operator.NeverStalls | bin/vectorx.rs:382-403 | with an interval of blocks ahead, a pass submits a request |
| Operator.RoundKeepsServiceable | bin/vectorx.rs:382-409 | whichever requests of a pass are fulfilled, the contract keeps knowing the set before or at its latest block |
| Operator.RunNeverStalls | bin/vectorx.rs:382-409 | over every run of passes from genesis, the next pass with an interval ahead submits a request the contract can serve |
| Operator.RotateThenStep | bin/vectorx.rs:217-227 | if a pass can only rotate, the pass after the rotation steps ahead |
| Operator.CatchesUp | bin/vectorx.rs:382-409 | when every request is fulfilled, two passes for each block behind a fixed head bring the latest block within one interval of it |
| Contract.VectorX.constructor | contracts/src/VectorX.sol:62-73 | the genesis height, hash and authority set, and nothing else |
| Contract.VectorX.UpdateFreeze | contracts/src/VectorX.sol:76-78 | sets the flag, for the guardian only |
| Contract.FreezeExact | contracts/src/VectorX.sol:75-78 | only the guardian changes the flag, to what the call says, and nothing else changes |
| Runs.FrozenStays | contracts/src/VectorX.sol:206-308 | a run from a frozen contract without a call of the guardian changes nothing at all |
| Runs.FlagIsGuardians | contracts/src/VectorX.sol:75-78 | after any run the flag is what the guardian's last freeze call asked for |
| Runs.FlagStays | contracts/src/VectorX.sol:75-78 | without such a call it is what it was |
| Contract.VectorX.UpdateBlockRangeData | contracts/src/VectorX.sol:107-146 | stores every range of contiguous data from the latest block, the end set and the new latest block; a revert in the middle leaves everything unchanged |
| Contract.BackfillExact | contracts/src/VectorX.sol:107-130 | for all data: it goes through if and only if the guardian calls, there are as many ends, hashes and roots as starts and at least one, the first start is the latest block and each other start is the end before it; otherwise nothing changes |
| Contract.BackfillWrites | contracts/src/VectorX.sol:129-145 | what it writes: at every end block and range key the last hash, roots and start given for it, the end set, and the last end as latest block; all else is kept |
| Contract.VectorX.RequestHeaderRange | contracts/src/VectorX.sol:153-199 | the outcome in order of the checks, and the input handed to the gateway |
| Contract.RangeRequestExact | contracts/src/VectorX.sol:153-173 | a range request is accepted if and only if, unfrozen, the commit it asks for would go through on an answer |
| Contract.RangeInputExact | contracts/src/VectorX.sol:175-181 | the input is the latest block and the hash stored for it, the set id and the hash stored for it, and the requested block |
| Contract.VectorX.CommitHeaderRange | contracts/src/VectorX.sol:206-263 | the outcome in order of the checks, the whole new state, and the state unchanged on a revert |
| Contract.CommitExact | contracts/src/VectorX.sol:206-263 | goes through if and only if the contract is not frozen and stores a nonzero hash for the latest block and for the set, the target lies ahead and the proof verifies; which check failed; and every mapping afterwards |
| Contract.VectorX.RequestRotate | contracts/src/VectorX.sol:267-301 | the outcome, including the overflow of the set id, and the input handed to the gateway |
| Contract.RotateRequestExact | contracts/src/VectorX.sol:267-280 | a rotate request is accepted if and only if, unfrozen, the rotation it asks for would go through on an answer and no hash is stored for the next set |
| Contract.VectorX.Rotate | contracts/src/VectorX.sol:305-337 | stores the verified hash under the next set id; otherwise unchanged |
| Contract.RotateExact | contracts/src/VectorX.sol:305-331 | goes through if and only if the contract is not frozen and stores a nonzero hash for the set, the proof verifies and the id has a successor; which check failed; and the one entry written |
| Safety.InitiallySafe | contracts/src/VectorX.sol:62-73 | the initialized contract satisfies the invariant |
| Safety.AppendKeepsSafe | contracts/src/VectorX.sol:244-262 | storing a range of blocks that continue the chain, under its hash and roots, keeps the invariant |
| Safety.LatestHash | contracts/src/VectorX.sol:214 | the trusted header read by the contract is the chain's |
| Backfill.GetBlockRangeData | bin/fill_block_range.rs:48-82 | ranges of at most 256 blocks that tile the blocks up to the end, each with the chain's hash and roots, and the end set's commitment |
| Backfill.FilledInNumbers | bin/fill_block_range.rs:48-82 | the tiling in numbers: the number of ranges is the number of blocks over 256, rounded up, and all but the last have 256 blocks |
| Backfill.BackfillAccepted | contracts/src/VectorX.sol:116-145 | the contract accepts such data and ends up at the end block |
| Backfill.BackfillKeepsSafe | contracts/src/VectorX.sol:107-146 | back-filling from a chain that agrees with the contract keeps the invariant, with one cut per range |
| Runs.VerifiedRange | circuits/header_range.rs:38-58 | a verified header range brings blocks that continue the chain from the trusted hash, at most 256, with their last hash and roots |
| Runs.StepKeepsSafe | contracts/src/VectorX.sol:206-337 | every call whose answer is backed by the circuits keeps the invariant |
| Runs.RunSafe | contracts/src/VectorX.sol:62-337 | the invariant holds after every run from initialization |
| Runs.RangeIsAttested | contracts/src/VectorX.sol:246-250 | every stored data commitment belongs to a range of blocks that lead from one stored hash to the other, and both roots are of exactly these |
| Runs.CommitIsJustified | circuits/header_range.rs:47-54 | a commit moves the latest block forward to a block that the justification verifier accepted under the hash of the set named in the call |
| Runs.StepAdvances | contracts/src/VectorX.sol:206-223 | a frozen contract is left alone by commits and rotations, a commit moves forward, no call moves back, and the latest hash stays nonzero |
| Runs.StepKeepsInterval | contracts/src/VectorX.sol:310-331 | a call leaves the known set ids one interval, at most one longer |
| Runs.RunKeepsInterval | contracts/src/VectorX.sol:206-337 | over every run with nonzero answers the known set ids are one interval from the genesis id and the latest block has a nonzero hash |
| Runs.SetsAreHandedOver | contracts/src/VectorX.sol:305-337 | in a run without back-fills, every stored set hash but the genesis one was put there by a rotation of the run, on a header that the justification verifier accepted under the hash of the set before it |
| Runs.RunIsSigned | contracts/src/VectorX.sol:206-337 | when the witnesses of a call have the hints' shape: for every successful commit and rotation of a run, more than two thirds of the keys committed to under the named set signed for the stored hash, or for the epoch-end header |
| Runs.ForkIsAccountable | contracts/src/VectorX.sol:206-263 | two commits whose justifications have the padding's shape, under one set hash, that store different hashes for one block show more than a third of its keys signing two different messages, or a collision |
| Runs.KeysWereRotatedIn | contracts/src/VectorX.sol:206-337 | in a run without back-fills, the keys that justify a commit or a rotation of a later set are those rotated in by an earlier rotation of the run, listed in its header array if and only if their number fits; if its witnesses have the hints' shape, they are announced in the hashed content, which more than two thirds of the set before signed; or hashed inputs collide |
| Runs.GenesisStays | contracts/src/VectorX.sol:310-331 | no run without back-fills replaces the genesis set's hash |
| Runs.TrustGoesBack | contracts/src/VectorX.sol:206-337 | in a run without back-fills, every successful commit and rotation goes back to the genesis set by a line of rotations of the run, one for each set id, each handing its keys to the next and the first accepted under the genesis hash |
| OnChain.RunDecodes | contracts/src/VectorX.sol:62-337 | the headers behind the commits and back-fills of a run decode to the blocks that the invariant is about |
| OnChain.StoredIsChains | contracts/src/VectorX.sol:62-337 | after every run, on whatever witnesses: if one stored hash is that of a valid chain, all hashes stored up to its block are the chain's, and all pairs of roots up to it are the ones computed off chain, or a header behind the run collides with the chain's |
| Service.ViewExact | bin/vectorx.rs:299-348 | what the operator reads: the latest block, and which set ids have a nonzero hash |
| Service.RangeRequestServed | bin/vectorx.rs:229-250 | the contract accepts the operator's range request, and its commit gives the view the operator's run assumes |
| Service.RotateRequestServed | bin/vectorx.rs:176-190 | likewise for a rotate request |
| Service.RoundServed | bin/vectorx.rs:382-409 | both calls that a pass leads to go through, whatever is answered, and the contract ends up where the operator's account of the round says, ready for the next pass |
| Service.RequestsAccepted | bin/vectorx.rs:162-264 | the contract accepts whatever a pass submits |
| Service.ServiceNeverStalls | bin/vectorx.rs:382-409 | from initialization, after any answered rounds, every call went through, and the next pass with an interval ahead submits a request that the contract accepts |
| Service.ServiceCatchesUp | bin/vectorx.rs:382-409 | when every request of a run at one head is answered, two rounds for each block behind bring the contract's latest block within one interval of the head |
| Completeness.AlignedIsJustified | circuits/builder/justification.rs:195-257 | a padded justification that is aligned with valid signatures and passes the threshold passes every check of the circuit |
| Completeness.Justify | bin/indexer.rs:104-147 | from valid precommits of more than two thirds of distinct authorities, indexing and padding give a justification that the circuit accepts for their commitment |
| Completeness.ProveHeaderRange | circuits/header_range.rs:26-59 | from a valid chain and such precommits for its target, hints and circuit return the target's hash and the off-chain roots |
| Completeness.ProveRotation | circuits/builder/rotate.rs:229-274 | from an honest epoch-end header and such precommits for it, the off-chain code and the circuit return the commitment of the announced keys |
| EndToEnd.AnswerPass | bin/vectorx.rs:162-264 | when the target of the requested range and the epoch end of the requested rotation are attested, the off-chain code finds witnesses on which the circuits answer every request with the network's own hash, roots and commitment |
| EndToEnd.RotationBlock | circuits/rotate.rs:33-40 | the block that the search finds for a requested rotation is an epoch end of the named set, not behind the contract |
| EndToEnd.TargetRequestable | bin/vectorx.rs:364-402 | a requested target is a multiple of the interval or an epoch end |
| EndToEnd.HonestRound | bin/vectorx.rs:382-409 | the calls of an honestly answered pass are backed by the circuits, go through and keep the stored hashes, roots and sets those of the network |
| EndToEnd.Deliver | contracts/src/VectorX.sol:147-337 | the contract's methods, called with the requests of a pass and the gateway's answers to the inputs that it handed out, do what the calls of the round say |
| EndToEnd.ServePass | bin/vectorx.rs:382-409 | one pass against the contract serves every request |
| EndToEnd.Operate | bin/vectorx.rs:382-409 | on an honest network the passes bring the contract within one interval of the head after finitely many of them; each call was backed and went through, and all that is stored is the network's |
| EndToEnd.Launch | contracts/src/VectorX.sol:62-83 | likewise from deployment at a block of the network |

## Left out

- The inner workings of the proof library (field arithmetic, random gates, hash and signature gadgets, proof generation): only their input and output behaviour is used; the batch check of signatures is "every marked signature is valid".
- The strength of hashes and signatures: theorems that need it name the collision that would refute them.
- RPC, websockets, Redis, the Succinct client, retries, logging, arguments and environment: chain reads are fixed functions, stored justifications are arguments.
- `updateGenesisState`, `updateGateway`, `updateFunctionIds`, role administration and upgrades: guardian overrides after which a fresh run begins. Events and gas are left out, too.
- bin/events.rs, bin/genesis.rs, the dummy circuits and the thin binaries: wrappers.
- Interleaving of the operator's separate reads of chain and contract: a pass works on one snapshot.
- Whether a justification exists for a target in the middle of an epoch: it depends on what was stored.
- The branch of `get_justification_data` that reads an epoch end's justification from the chain, and the hint's own checks of set id and signatures: the same alignment as the indexer's, on another source.
- Digest logs other than consensus logs, and the header extension before the data root: arbitrary bytes, as no code reads them.
- The f32 logarithm in the job count: `NumMapJobs` computes the power of two it stands for.
- Epochs.LastJustifiedBlock: requires 2 * head + 1 < 2^32, because the sum of the bounds is a u32; set ids stay below 2^64.
- Fetcher.GetBlockHeadersRange: requires that the cursor, a u32, does not overflow, which the code does not check.
- Fetcher.FetchWitness: requires that the cursors of its jobs do not overflow, for the same reason.
- Backfill.GetBlockRangeData: requires that neither the end of a range nor its cursor overflows, and a nonempty end set.
- Completeness.ProveHeaderRange: requires that no job's cursor overflows and no enabled job wraps around.
- EndToEnd.Operate: runs the operator's endless loop against one head until less than an interval is ahead; the gateway answers within the pass.
- The library's dummy key and signature: constants that no result depends on.
- The wire form of public inputs (`abi.encodePacked`): the inputs are a datatype.
- Rotation.EpochEndExact: is about the header array, because the circuit does not relate the position to the header's size; PaddedContentAnnounces and ChangeInContent are about the hashed content.
- Whether the BLAKE2b gadget constrains header bytes beyond the size: the model takes it that it does not.
