/** Runs of the contract: any sequence of commits, rotations, requests, freezes and honest
    back-fills, and the theorems about every state they reach. */
module Runs {
  import opened Basics
  import opened Headers
  import opened Trees
  import opened Subchain
  import opened SubchainTheorem
  import opened Fetcher
  import opened Authorities
  import opened Justifications
  import opened Rotation
  import opened HeaderRange
  import opened Contract
  import opened Safety
  import opened Backfill

  /** One call, with the gateway's answer and the witness behind it. */
  datatype Action =
    | CommitHeaderRange(setId: U64, target: U32, verified: Option<Commitment>, proof: HeaderRangeProof)
    | RotateSet(setId: U64, newHash: Option<Bytes32>, rotation: RotateWitness, justification: Justification)
    | RequestHeaderRange(requestSetId: U64, requested: U32)
    | RequestRotate(currentSetId: U64)
    | UpdateFreeze(freeze: bool, guardian: bool)
    | FillBlockRange(data: BlockRangeData, guardian: bool, chain: Chain, end: U32)

  ghost function StepOf(s: State, a: Action): Step {
    match a
    case CommitHeaderRange(setId, target, verified, _) => CommitStep(s, setId, target, verified)
    case RotateSet(setId, newHash, _, _) => RotateStep(s, setId, newHash)
    case RequestHeaderRange(setId, requested) => Step(s, RequestHeaderRangeOutcome(s, setId, requested))
    case RequestRotate(setId) => Step(s, RequestRotateOutcome(s, setId))
    case UpdateFreeze(freeze, guardian) => FreezeStep(s, freeze, guardian)
    case FillBlockRange(data, guardian, _, _) => BackfillStep(s, data, guardian)
  }

  /** What a successful call rests on: the gateway's answers are outputs of the circuits on the
      contract's own inputs, and back-filled data comes from a valid chain that agrees with the
      contract at its latest block. */
  ghost predicate Backed(c: Crypto, s: State, a: Action) {
    StepOf(s, a).outcome == Done ==>
      match a
      case CommitHeaderRange(setId, target, verified, proof) =>
        HeaderRangeResult(c, RangeInput(s, setId, target), proof) == verified
      case RotateSet(setId, newHash, rotation, justification) =>
        RotateResult(c, setId, Read(s.authorityHashes, setId), rotation, justification) == newHash
      case FillBlockRange(data, _, chain, end) =>
        && s.latestBlock < end && Filled(c, chain, data, s.latestBlock, end)
        && ValidChain(c, chain, s.latestBlock, end)
        && Read(s.headerHashes, s.latestBlock) == HeaderHash(c, chain(s.latestBlock))
      case _ => true
  }

  /** The blocks a call adds to the chain known to the contract. */
  ghost function Gain(c: Crypto, s: State, a: Action): seq<Block> {
    if StepOf(s, a).outcome != Done then []
    else
      match a
      case CommitHeaderRange(_, target, _, proof) =>
        var d := DecodeAll(c, proof.headers);
        if d.Some? && s.latestBlock < target <= s.latestBlock + |d.value| then d.value[..target - s.latestBlock] else []
      case FillBlockRange(_, _, chain, end) =>
        if s.latestBlock < end then ChainBlocks(c, chain, s.latestBlock, end) else []
      case _ => []
  }

  /** The range ends a call adds. */
  ghost function NewCuts(s: State, a: Action): seq<U32> {
    if StepOf(s, a).outcome != Done then []
    else
      match a
      case CommitHeaderRange(_, target, _, _) => [target]
      case FillBlockRange(data, _, _, _) => data.endBlocks
      case _ => []
  }

  // ----- one step

  lemma {:induction false} MaskedIsRangeRoot(c: Crypto, blocks: seq<Block>, n: nat)
    requires n <= |blocks| == MAX_NUM_HEADERS
    ensures IsPow2(|blocks|)
    ensures MerkleRoot(c, Masked(StateRoots(blocks), n)) == RangeRoot(c, StateRoots(blocks[..n]))
    ensures MerkleRoot(c, Masked(DataRoots(blocks), n)) == RangeRoot(c, DataRoots(blocks[..n]))
  {
    AllLeavesArePow2();
    hide MerkleRoot, IsPow2;
    assert Masked(StateRoots(blocks), n) == StateRoots(blocks[..n]) + ZeroLeaves(MAX_NUM_HEADERS - n);
    assert Masked(DataRoots(blocks), n) == DataRoots(blocks[..n]) + ZeroLeaves(MAX_NUM_HEADERS - n);
  }

  lemma {:induction false} ChainOfTaken(blocks: seq<Block>, start: nat, n: nat)
    requires n <= |blocks| && ChainOf(blocks, start, n)
    ensures ChainOf(blocks[..n], start, n)
  {
    forall i | 0 <= i < n
      ensures InPlace(blocks[..n], start, i)
    {
      assert InPlace(blocks, start, i);
    }
  }

  /** New blocks that continue the chain from the latest hash, with their last hash and roots. */
  ghost predicate Continues(c: Crypto, added: seq<Block>, latest: U32, latestHash: Bytes32, out: Commitment) {
    && 0 < |added| <= MAX_NUM_HEADERS
    && ChainOf(added, latest + 1, |added|)
    && added[0].parentHash == latestHash
    && out == Commitment(added[|added| - 1].hash, RangeRoot(c, StateRoots(added)), RangeRoot(c, DataRoots(added)))
  }

  lemma {:induction false} ReturnedContinues(c: Crypto, latest: U32, latestHash: Bytes32, target: U32,
                                             blocks: seq<Block>, out: Commitment)
    requires latest < target && |blocks| == MAX_NUM_HEADERS && IsPow2(MAX_NUM_HEADERS)
    requires Returns(c, MAP_JOBS, latest, latestHash, target, blocks, out)
    ensures target - latest <= MAX_NUM_HEADERS && Continues(c, blocks[..target - latest], latest, latestHash, out)
  {
    hide MerkleRoot, RangeRoot, ChainOf, StateRoots, DataRoots, Masked;
    ChainOfTaken(blocks, latest + 1, target - latest);
    MaskedIsRangeRoot(c, blocks, target - latest);
  }

  /** What a verified header range brings: new blocks that continue the chain from the trusted
      hash, with the returned hash and roots. */
  lemma {:induction false} VerifiedRange(c: Crypto, input: HeaderRangeInput, p: HeaderRangeProof, out: Commitment)
    requires input.trustedBlock < input.targetBlock
    ensures HeaderRangeResult(c, input, p) == Some(out) ==> BringsBlocks(c, input, p, out)
  {
    MapJobsArePow2();
    hide SubchainResult, Justified, DecodeAll, Returns, Continues;
    if HeaderRangeResult(c, input, p) == Some(out) {
      AcceptedWitness(c, MAP_JOBS, input.trustedBlock, input.trustedHeaderHash, input.targetBlock, p.headers, out);
      ReturnedContinues(c, input.trustedBlock, input.trustedHeaderHash, input.targetBlock,
                        DecodeAll(c, p.headers).value, out);
    }
  }

  ghost predicate BringsBlocks(c: Crypto, input: HeaderRangeInput, p: HeaderRangeProof, out: Commitment)
    requires input.trustedBlock < input.targetBlock
  {
    && DecodeAll(c, p.headers).Some? && input.targetBlock <= input.trustedBlock + MAX_NUM_HEADERS
    && Continues(c, DecodeAll(c, p.headers).value[..input.targetBlock - input.trustedBlock],
                 input.trustedBlock, input.trustedHeaderHash, out)
  }

  lemma {:induction false} ContinuationKeepsSafe(c: Crypto, g: Genesis, s: State, blocks: seq<Block>, cuts: seq<U32>,
                                                 added: seq<Block>, target: U32, out: Commitment)
    requires Safe(c, g, s, blocks, cuts) && target == s.latestBlock + |added|
    requires Continues(c, added, s.latestBlock, Read(s.headerHashes, s.latestBlock), out)
    ensures var t := StoreRange(s, s.latestBlock, target, out.targetHeaderHash, out.stateRoot, out.dataRoot);
            Safe(c, g, t.(latestBlock := target), blocks + added, cuts + [target])
  {
    LatestHash(c, g, s, blocks, cuts);
    SafeLength(c, g, s, blocks, cuts);
    hide Safe, RangeRoot, ChainOf, StateRoots, DataRoots, HashAt, StoreRange;
    AppendKeepsSafe(c, g, s, blocks, cuts, added, target, out.targetHeaderHash, out.stateRoot, out.dataRoot);
  }

  lemma {:induction false} CommitKeepsSafe(c: Crypto, g: Genesis, s: State, blocks: seq<Block>, cuts: seq<U32>,
                                           setId: U64, target: U32, verified: Option<Commitment>,
                                           proof: HeaderRangeProof)
    requires Safe(c, g, s, blocks, cuts)
    requires CommitStep(s, setId, target, verified).outcome == Done
    requires HeaderRangeResult(c, RangeInput(s, setId, target), proof) == verified
    ensures var a := CommitHeaderRange(setId, target, verified, proof);
            Safe(c, g, CommitStep(s, setId, target, verified).state, blocks + Gain(c, s, a), cuts + [target])
  {
    hide Safe, HeaderRangeResult, DecodeAll, StoreRange, Continues;
    VerifiedRange(c, RangeInput(s, setId, target), proof, verified.value);
    var added := DecodeAll(c, proof.headers).value[..target - s.latestBlock];
    ContinuationKeepsSafe(c, g, s, blocks, cuts, added, target, verified.value);
  }

  lemma {:induction false} StepKeepsSafe(c: Crypto, g: Genesis, s: State, blocks: seq<Block>, cuts: seq<U32>, a: Action)
    requires Safe(c, g, s, blocks, cuts) && Backed(c, s, a)
    ensures Safe(c, g, StepOf(s, a).state, blocks + Gain(c, s, a), cuts + NewCuts(s, a))
  {
    hide Safe, HeaderRangeResult, RotateResult, Filled, ValidChain, HeaderHash, StoreRange, BackfillStep;
    assert blocks + [] == blocks && cuts + [] == cuts;
    match a
    case CommitHeaderRange(setId, target, verified, proof) =>
      if StepOf(s, a).outcome == Done {
        CommitKeepsSafe(c, g, s, blocks, cuts, setId, target, verified, proof);
      }
    case RotateSet(setId, newHash, _, _) =>
      AuthoritiesDoNotMatter(c, g, s, blocks, cuts, StepOf(s, a).state.authorityHashes, s.frozen);
    case UpdateFreeze(freeze, _) =>
      AuthoritiesDoNotMatter(c, g, s, blocks, cuts, s.authorityHashes, StepOf(s, a).state.frozen);
    case FillBlockRange(data, guardian, chain, end) =>
      if StepOf(s, a).outcome == Done {
        assert guardian by { GuardianOnly(s, data, guardian); }
        BackfillKeepsSafe(c, g, s, blocks, cuts, chain, data, end);
      } else {
        NothingOnRevert(s, data, guardian);
      }
    case _ =>
  }

  lemma {:induction false} GuardianOnly(s: State, d: BlockRangeData, guardian: bool)
    requires BackfillStep(s, d, guardian).outcome == Done
    ensures guardian
  {
  }

  lemma {:induction false} NothingOnRevert(s: State, d: BlockRangeData, guardian: bool)
    requires BackfillStep(s, d, guardian).outcome != Done
    ensures BackfillStep(s, d, guardian).state == s
  {
  }

  // ----- whole runs

  ghost function StateAfter(s: State, actions: seq<Action>): State {
    if actions == [] then s
    else StepOf(StateAfter(s, actions[..|actions| - 1]), actions[|actions| - 1]).state
  }

  ghost predicate BackedRun(c: Crypto, s: State, actions: seq<Action>) {
    actions != [] ==>
      && BackedRun(c, s, actions[..|actions| - 1])
      && Backed(c, StateAfter(s, actions[..|actions| - 1]), actions[|actions| - 1])
  }

  /** All blocks the run made known, in order. */
  ghost function BlocksAfter(c: Crypto, s: State, actions: seq<Action>): seq<Block> {
    if actions == [] then []
    else
      var before := actions[..|actions| - 1];
      BlocksAfter(c, s, before) + Gain(c, StateAfter(s, before), actions[|actions| - 1])
  }

  /** All range ends of the run, after the genesis height. */
  ghost function CutsAfter(s: State, actions: seq<Action>): seq<U32> {
    if actions == [] then [s.latestBlock]
    else
      var before := actions[..|actions| - 1];
      CutsAfter(s, before) + NewCuts(StateAfter(s, before), actions[|actions| - 1])
  }

  /** Safety of every reachable state: from initialization, after any sequence of backed calls, one
      linked chain runs from the genesis hash to the hash stored for the latest block, the stored
      ranges tile it without gap or overlap, and every stored commitment is the root of exactly
      its slice. */
  lemma {:induction false} RunSafe(c: Crypto, g: Genesis, setId: U64, setHash: Bytes32, actions: seq<Action>)
    requires BackedRun(c, Initialized(g.height, g.hash, setId, setHash), actions)
    ensures var s := Initialized(g.height, g.hash, setId, setHash);
            Safe(c, g, StateAfter(s, actions), BlocksAfter(c, s, actions), CutsAfter(s, actions))
  {
    if actions == [] {
      InitiallySafe(c, g, setId, setHash);
    } else {
      hide Safe, Backed, StepOf, Gain, NewCuts;
      var s := Initialized(g.height, g.hash, setId, setHash);
      var before, last := actions[..|actions| - 1], actions[|actions| - 1];
      RunSafe(c, g, setId, setHash, before);
      StepKeepsSafe(c, g, StateAfter(s, before), BlocksAfter(c, s, before), CutsAfter(s, before), last);
    }
  }

  /** The blocks of a range continue the chain and end in its hash. */
  ghost predicate Attests(slice: seq<Block>, start: nat, startHash: Bytes32, endHash: Bytes32) {
    && |slice| > 0 && slice[0].parentHash == startHash && slice[|slice| - 1].hash == endHash
    && (forall i | 0 <= i < |slice| :: slice[i].number == start + 1 + i)
    && (forall i | 0 <= i < |slice| - 1 :: slice[i + 1].parentHash == slice[i].hash)
  }

  lemma {:induction false} SliceAttests(g: Genesis, blocks: seq<Block>, from: nat, to: nat)
    requires OneChain(g, blocks) && g.height <= from < to <= g.height + |blocks|
    ensures Attests(Between(g, blocks, from, to), from, HashAt(g, blocks, from), HashAt(g, blocks, to))
  {
    var slice, at := Between(g, blocks, from, to), from - g.height;
    assert Follows(g, blocks, at);
    forall i | 0 <= i < |slice|
      ensures slice[i].number == from + 1 + i
    {
      assert Follows(g, blocks, at + i);
    }
    forall i | 0 <= i < |slice| - 1
      ensures slice[i + 1].parentHash == slice[i].hash
    {
      assert Follows(g, blocks, at + (i + 1));
    }
  }

  /** What safety means for a reader of the contract: whatever range has a data commitment, its two
      ends have stored hashes, its blocks lead from the one to the other, and both commitments are
      the roots of exactly these blocks. */
  lemma {:induction false} RangeIsAttested(c: Crypto, g: Genesis, s: State, blocks: seq<Block>, cuts: seq<U32>)
    requires Safe(c, g, s, blocks, cuts)
    ensures forall key | key in s.dataRoots :: RangeAttested(c, g, s, blocks, key)
  {
    hide Safe, RangeAttested;
    forall key | key in s.dataRoots
      ensures RangeAttested(c, g, s, blocks, key)
    {
      var k := CutOfRange(c, g, s, blocks, cuts, key);
      CutAttested(c, g, s, blocks, cuts, k);
    }
  }

  ghost predicate RangeAttested(c: Crypto, g: Genesis, s: State, blocks: seq<Block>, key: RangeKey) {
    && g.height <= key.0 < key.1 <= s.latestBlock == g.height + |blocks| && key.1 <= key.0 + MAX_NUM_HEADERS
    && key in s.dataRoots && key in s.stateRoots && key in s.rangeStarts && s.rangeStarts[key] == key.0
    && key.0 in s.headerHashes && key.1 in s.headerHashes
    && var slice := Between(g, blocks, key.0, key.1);
    && Attests(slice, key.0, s.headerHashes[key.0], s.headerHashes[key.1])
    && s.dataRoots[key] == RangeRoot(c, DataRoots(slice))
    && s.stateRoots[key] == RangeRoot(c, StateRoots(slice))
  }

  lemma {:induction false} CutAttested(c: Crypto, g: Genesis, s: State, blocks: seq<Block>, cuts: seq<U32>, k: nat)
    requires Safe(c, g, s, blocks, cuts) && k < |cuts| - 1
    ensures RangeAttested(c, g, s, blocks, (cuts[k], cuts[k + 1]))
  {
    var key := (cuts[k], cuts[k + 1]);
    assert cuts[k + 1] <= s.latestBlock by { CutsWithin(g, cuts, s.latestBlock, k + 1); }
    assert CutStep(cuts, k) && RangeStored(c, g, s, blocks, cuts[k], cuts[k + 1]);
    assert HashStored(g, s, blocks, cuts[k]) && HashStored(g, s, blocks, cuts[k + 1]);
    hide RangeRoot, StateRoots, DataRoots, OnlyRanges, CutRanges, CutHashes, Tiles;
    SliceAttests(g, blocks, key.0, key.1);
    hide Attests, OneChain;
  }

  lemma {:induction false} CutOfRange(c: Crypto, g: Genesis, s: State, blocks: seq<Block>, cuts: seq<U32>,
                                      key: RangeKey)
    returns (k: nat)
    requires Safe(c, g, s, blocks, cuts) && key in s.dataRoots
    ensures k < |cuts| - 1 && key == (cuts[k], cuts[k + 1])
  {
    hide CutRanges, CutHashes, Tiles, OneChain;
    assert IsRange(cuts, key);
    k :| 0 <= k < |cuts| - 1 && cuts[k] == key.0 && cuts[k + 1] == key.1;
  }

  /** A commit moves the head to a block that the justification verifier accepted for the
      authority set named in the call. */
  lemma {:induction false} CommitIsJustified(c: Crypto, s: State, a: Action)
    requires Backed(c, s, a)
    ensures a.CommitHeaderRange? && StepOf(s, a).outcome == Done ==>
              var t := StepOf(s, a).state;
              && t.latestBlock == a.target > s.latestBlock
              && Justified(c, t.latestBlock, Read(t.headerHashes, t.latestBlock), a.setId,
                           Read(s.authorityHashes, a.setId),
                           a.proof.justification)
  {
    MapJobsArePow2();
    hide Justified, SubchainResult;
  }

  // ----- authority sets and progress

  /** The known set ids are exactly lo..hi. */
  ghost predicate KnownSets(s: State, lo: nat, hi: nat) {
    forall id: U64 :: Read(s.authorityHashes, id) != ZERO32 <==> lo <= id <= hi
  }

  /** Successful calls store nonzero hashes; back-fills are set aside. */
  ghost predicate NonZero(a: Action) {
    match a
    case CommitHeaderRange(_, _, verified, _) => verified.Some? ==> verified.value.targetHeaderHash != ZERO32
    case RotateSet(_, newHash, _, _) => newHash.Some? ==> newHash.value != ZERO32
    case FillBlockRange(_, _, _, _) => false
    case _ => true
  }

  /** A frozen contract is not changed by commits and rotations; a successful commit moves the
      latest block forward; no call of these moves it back. */
  lemma {:induction false} StepAdvances(s: State, a: Action)
    requires NonZero(a)
    ensures var t := StepOf(s, a);
            && (s.frozen && (a.CommitHeaderRange? || a.RotateSet?) ==> t == Step(s, ContractFrozen))
            && (a.CommitHeaderRange? && t.outcome == Done ==> t.state.latestBlock > s.latestBlock)
            && t.state.latestBlock >= s.latestBlock
            && (Read(s.headerHashes, s.latestBlock) != ZERO32 ==>
                Read(t.state.headerHashes, t.state.latestBlock) != ZERO32)
  {
  }

  lemma {:induction false} StepKeepsInterval(s: State, a: Action, lo: nat, hi: nat) returns (newHi: nat)
    requires NonZero(a) && KnownSets(s, lo, hi) && lo <= hi
    ensures hi <= newHi <= hi + 1 && KnownSets(StepOf(s, a).state, lo, newHi)
  {
    newHi := if a.RotateSet? && StepOf(s, a).outcome == Done && a.setId == hi then hi + 1 else hi;
    var t := StepOf(s, a).state;
    forall id: U64
      ensures Read(t.authorityHashes, id) != ZERO32 <==> lo <= id <= newHi
    {
      assert Read(s.authorityHashes, id) != ZERO32 <==> lo <= id <= hi;
      if a.RotateSet? {
        assert Read(s.authorityHashes, a.setId) != ZERO32 <==> lo <= a.setId <= hi;
      }
    }
  }

  /** Over every run of commits, rotations, requests and freezes with nonzero outputs, the known set
      ids are one interval from the genesis id, the latest block never falls below the genesis
      height, and its stored hash is nonzero. */
  lemma {:induction false} RunKeepsInterval(height: U32, header: Bytes32, setId: U64, setHash: Bytes32,
                                            actions: seq<Action>)
    returns (hi: nat)
    requires header != ZERO32 && setHash != ZERO32 && forall i | 0 <= i < |actions| :: NonZero(actions[i])
    ensures var t := StateAfter(Initialized(height, header, setId, setHash), actions);
            && setId <= hi <= setId + |actions| && KnownSets(t, setId, hi)
            && height <= t.latestBlock && Read(t.headerHashes, t.latestBlock) != ZERO32
  {
    var s := Initialized(height, header, setId, setHash);
    if actions == [] {
      hi := setId;
    } else {
      var before, last := actions[..|actions| - 1], actions[|actions| - 1];
      var h := RunKeepsInterval(height, header, setId, setHash, before);
      StepAdvances(StateAfter(s, before), last);
      hi := StepKeepsInterval(StateAfter(s, before), last, setId, h);
    }
  }

  /** The rotation that puts an authority set hash into the contract. */
  ghost predicate Installs(c: Crypto, s: State, a: Action, id: U64, hash: Bytes32) {
    && a.RotateSet? && StepOf(s, a).outcome == Done && a.setId + 1 == id && Read(s.authorityHashes, a.setId) != ZERO32
    && RotateResult(c, a.setId, Read(s.authorityHashes, a.setId), a.rotation, a.justification) == Some(hash)
  }

  lemma {:induction false} StepInstalls(c: Crypto, s: State, a: Action, id: U64)
    requires Backed(c, s, a) && !a.FillBlockRange? && id in StepOf(s, a).state.authorityHashes
    ensures var hash := StepOf(s, a).state.authorityHashes[id];
            Installs(c, s, a, id, hash) || (id in s.authorityHashes && s.authorityHashes[id] == hash)
  {
    hide RotateResult, HeaderRangeResult;
  }

  /** The line of authority: every stored set hash except the genesis one was put there by a
      rotation of the run, on a header that the verifier accepted under the set before it. */
  lemma {:induction false} SetsAreHandedOver(c: Crypto, start: State, setId: U64, actions: seq<Action>, id: U64)
    returns (i: nat)
    requires start.authorityHashes.Keys == {setId} && BackedRun(c, start, actions)
    requires forall k | 0 <= k < |actions| :: !actions[k].FillBlockRange?
    requires id != setId && id in StateAfter(start, actions).authorityHashes
    ensures i < |actions|
    ensures Installs(c, StateAfter(start, actions[..i]), actions[i], id, StateAfter(start, actions).authorityHashes[id])
  {
    hide Backed, StepOf, Installs;
    assert actions != [];
    var before := actions[..|actions| - 1];
    i := |actions| - 1;
    StepInstalls(c, StateAfter(start, before), actions[i], id);
    if !Installs(c, StateAfter(start, before), actions[i], id, StateAfter(start, actions).authorityHashes[id]) {
      i := SetsAreHandedOver(c, start, setId, before, id);
      assert before[..i] == actions[..i];
    }
  }

  // ----- who signed

  /** The witnesses of a call have the shape the hints give them. */
  ghost predicate HintShaped(a: Action) {
    match a
    case CommitHeaderRange(_, _, _, proof) => Shaped(proof.justification)
    case RotateSet(_, _, w, j) => Shaped(j) && w.numAuthorities <= MAX_AUTHORITY_SET_SIZE && ZeroPadded(w.header)
    case _ => true
  }

  /** What a successful call proves about signatures: a quorum of the keys committed to under the
      named set id signed for the new latest block, or for the epoch-end header. */
  ghost predicate SignedCall(c: Crypto, s: State, a: Action) {
    match a
    case CommitHeaderRange(setId, target, verified, proof) =>
      var t, j := StepOf(s, a).state, proof.justification;
      && Shaped(j) && CommittedKeys(j) != [] && AuthoritySetHash(c, CommittedKeys(j)) == Read(s.authorityHashes, setId)
      && SignedFor(c, t.latestBlock, Read(t.headerHashes, t.latestBlock), setId, j)
    case RotateSet(setId, _, w, j) =>
      && Shaped(j) && CommittedKeys(j) != [] && AuthoritySetHash(c, CommittedKeys(j)) == Read(s.authorityHashes, setId)
      && w.header.size <= MAX_HEADER_SIZE
      && SignedFor(c, w.epochEndBlock, c.blake2b(Content(w.header)), setId, j)
    case _ => true
  }

  lemma {:induction false} CallIsSigned(c: Crypto, s: State, a: Action)
    requires Backed(c, s, a) && HintShaped(a)
    ensures StepOf(s, a).outcome == Done ==> SignedCall(c, s, a)
  {
    CommitIsJustified(c, s, a);
    hide Justified, RotateResult, HeaderRangeResult, Shaped, SignedFor, AuthoritySetHash, CommittedKeys;
    if StepOf(s, a).outcome == Done {
      match a
      case CommitHeaderRange(setId, _, _, proof) =>
        var t := StepOf(s, a).state;
        JustifiedMeans(c, t.latestBlock, Read(t.headerHashes, t.latestBlock), setId, Read(s.authorityHashes, setId),
                       proof.justification);
      case RotateSet(setId, _, w, j) =>
        RotationIsSigned(c, setId, Read(s.authorityHashes, setId), w, j);
      case _ =>
    }
  }

  lemma {:induction false} BackedAt(c: Crypto, start: State, actions: seq<Action>, i: nat)
    requires BackedRun(c, start, actions) && i < |actions|
    ensures Backed(c, StateAfter(start, actions[..i]), actions[i])
  {
    hide Backed;
    var before := actions[..|actions| - 1];
    if i < |actions| - 1 {
      BackedAt(c, start, before, i);
      assert before[..i] == actions[..i];
    } else {
      assert before == actions[..i];
    }
  }

  /** Over a whole run whose witnesses have the shape the hints give them, every successful commit and
      every successful rotation was signed by more than two thirds of the set it names. */
  lemma {:induction false} RunIsSigned(c: Crypto, start: State, actions: seq<Action>, i: nat)
    requires BackedRun(c, start, actions) && i < |actions| && HintShaped(actions[i])
    ensures var s := StateAfter(start, actions[..i]);
            StepOf(s, actions[i]).outcome == Done ==> SignedCall(c, s, actions[i])
  {
    BackedAt(c, start, actions, i);
    hide *;
    CallIsSigned(c, StateAfter(start, actions[..i]), actions[i]);
  }

  /** The keys are those rotated in, up to collisions, and the header array lists them if and only if
      their number fits the array of keys. */
  ghost predicate KeysListed(c: Crypto, w: RotateWitness, keys: seq<Bytes32>) {
    && RotatedKeys(w) != [] && keys != []
    && (|| CommitmentsCollide(c, RotatedKeys(w), keys)
        || (keys == RotatedKeys(w) && (Announced(w, keys) <==> w.numAuthorities <= MAX_AUTHORITY_SET_SIZE)))
  }

  /** The hashed content of a rotation's header announces the keys, up to collisions. */
  ghost predicate KeysAnnounced(c: Crypto, w: RotateWitness, keys: seq<Bytes32>) {
    && RotatedKeys(w) != [] && keys != [] && w.header.size <= MAX_HEADER_SIZE
    && (CommitmentsCollide(c, RotatedKeys(w), keys) || ContentAnnounces(Content(w.header), w.startPosition, keys))
  }

  /** A justification accepted under a hash that a rotation installed. */
  lemma {:induction false} InstalledKeys(c: Crypto, s: State, a: Action, id: U64, setHash: Bytes32, block: U32,
                                         hash: Bytes32, k: Justification)
    requires Installs(c, s, a, id, setHash) && Justified(c, block, hash, id, setHash, k)
    ensures KeysListed(c, a.rotation, CommittedKeys(k))
    ensures HintShaped(a) ==> KeysAnnounced(c, a.rotation, CommittedKeys(k))
  {
    hide Justified, Announced, ContentAnnounces, ZeroPadded, Shaped, CommitmentsCollide, CommittedKeys, RotatedKeys,
         EpochEndAccepted;
    var w := a.rotation;
    HandoverBinds(c, a.setId, Read(s.authorityHashes, a.setId), w, a.justification, setHash, block, hash, id, k);
    if ZeroPadded(w.header) {
      AnnouncedInContent(w, CommittedKeys(k));
    }
  }

  lemma {:induction false} AnnouncedInContent(w: RotateWitness, keys: seq<Bytes32>)
    requires w.header.size <= MAX_HEADER_SIZE && ZeroPadded(w.header)
    ensures Announced(w, keys) ==> ContentAnnounces(Content(w.header), w.startPosition, keys)
  {
    hide ChangeAt, ContentAnnounces, ZeroPadded;
  }

  // ----- the line of trust

  /** Calls that bring a justification by an authority set. */
  predicate Justifies(a: Action) {
    a.CommitHeaderRange? || a.RotateSet?
  }

  function SetIdOf(a: Action): U64
    requires Justifies(a)
  {
    match a
    case CommitHeaderRange(setId, _, _, _) => setId
    case RotateSet(setId, _, _, _) => setId
  }

  function JustificationOf(a: Action): Justification
    requires Justifies(a)
  {
    match a
    case CommitHeaderRange(_, _, _, proof) => proof.justification
    case RotateSet(_, _, _, justification) => justification
  }

  /** The justification of a successful call was accepted, for some block, under the stored hash of
      the set it names. */
  ghost predicate Vouched(c: Crypto, s: State, a: Action)
    requires Justifies(a)
  {
    && SetIdOf(a) in s.authorityHashes
    && exists block: U32, hash: Bytes32 ::
         Justified(c, block, hash, SetIdOf(a), s.authorityHashes[SetIdOf(a)], JustificationOf(a))
  }

  lemma {:induction false} CallIsVouched(c: Crypto, s: State, a: Action)
    requires Backed(c, s, a) && Justifies(a) && StepOf(s, a).outcome == Done
    ensures Vouched(c, s, a)
  {
    hide Justified, SubchainResult, EpochEndAccepted, AuthoritySetHash;
    var id, j := SetIdOf(a), JustificationOf(a);
    match a
    case CommitHeaderRange(_, target, verified, _) =>
      MapJobsArePow2();
      assert Justified(c, target, verified.value.targetHeaderHash, id, s.authorityHashes[id], j);
    case RotateSet(_, _, w, _) =>
      assert Justified(c, w.epochEndBlock, c.blake2b(Content(w.header)), id, s.authorityHashes[id], j);
  }

  /** Where the keys of a justification come from: a rotation of the run, from the set before, whose
      header array lists them. If its witnesses have the shape the hints give them, the hashed
      content of the header announces the keys, and a quorum of the set before signed its hash. */
  ghost predicate TrustHandedOver(c: Crypto, s: State, r: Action, a: Action)
    requires Justifies(a)
  {
    && r.RotateSet? && r.setId + 1 == SetIdOf(a)
    && KeysListed(c, r.rotation, CommittedKeys(JustificationOf(a)))
    && (HintShaped(r) ==> KeysAnnounced(c, r.rotation, CommittedKeys(JustificationOf(a))) && SignedCall(c, s, r))
  }

  /** Trust is handed from set to set: when a commit or a rotation after the run names a set other than
      the genesis one, the keys its justification was checked against are those announced in the
      hashed content of an epoch-end header, which more than two thirds of the set before signed in
      an earlier rotation, or inputs hashed for the commitments collide. */
  lemma {:induction false} KeysWereRotatedIn(c: Crypto, start: State, setId: U64, actions: seq<Action>, a: Action)
    returns (i: nat)
    requires start.authorityHashes.Keys == {setId} && BackedRun(c, start, actions)
    requires forall k | 0 <= k < |actions| :: !actions[k].FillBlockRange?
    requires Justifies(a) && Backed(c, StateAfter(start, actions), a)
    ensures SetIdOf(a) != setId && StepOf(StateAfter(start, actions), a).outcome == Done ==>
              && i < |actions| && StepOf(StateAfter(start, actions[..i]), actions[i]).outcome == Done
              && TrustHandedOver(c, StateAfter(start, actions[..i]), actions[i], a)
  {
    i := 0;
    var s := StateAfter(start, actions);
    hide Backed, StepOf, StateAfter, BackedRun, Vouched, Installs, TrustHandedOver;
    if SetIdOf(a) != setId && StepOf(s, a).outcome == Done {
      CallIsVouched(c, s, a);
      VouchedSet(c, s, a);
      i := SetsAreHandedOver(c, start, setId, actions, SetIdOf(a));
      InstallHandsOver(c, StateAfter(start, actions[..i]), actions[i], s, a);
      InstallDone(c, StateAfter(start, actions[..i]), actions[i], SetIdOf(a), s.authorityHashes[SetIdOf(a)]);
    }
  }

  lemma {:induction false} InstallDone(c: Crypto, s: State, a: Action, id: U64, hash: Bytes32)
    requires Installs(c, s, a, id, hash)
    ensures StepOf(s, a).outcome == Done
  {
  }

  lemma {:induction false} VouchedSet(c: Crypto, s: State, a: Action)
    requires Justifies(a) && Vouched(c, s, a)
    ensures SetIdOf(a) in s.authorityHashes
  {
  }

  lemma {:induction false} InstallHandsOver(c: Crypto, t: State, r: Action, s: State, a: Action)
    requires Justifies(a) && Vouched(c, s, a) && Installs(c, t, r, SetIdOf(a), s.authorityHashes[SetIdOf(a)])
    ensures TrustHandedOver(c, t, r, a)
  {
    hide Justified, KeysListed, KeysAnnounced, SignedCall, HintShaped, RotateResult;
    var id := SetIdOf(a);
    var block: U32, hash: Bytes32 :| Justified(c, block, hash, id, s.authorityHashes[id], JustificationOf(a));
    InstalledKeys(c, t, r, id, s.authorityHashes[id], block, hash, JustificationOf(a));
    if HintShaped(r) {
      InstallSigned(c, t, r, id, s.authorityHashes[id]);
    }
  }

  lemma {:induction false} InstallSigned(c: Crypto, s: State, a: Action, id: U64, hash: Bytes32)
    requires Installs(c, s, a, id, hash) && HintShaped(a)
    ensures a.RotateSet? && a.setId + 1 == id && SignedCall(c, s, a)
  {
    hide RotateResult, Shaped, SignedFor, AuthoritySetHash, CommittedKeys;
    RotationIsSigned(c, a.setId, Read(s.authorityHashes, a.setId), a.rotation, a.justification);
  }

  // ----- the guardian

  predicate ByGuardian(a: Action) {
    (a.UpdateFreeze? || a.FillBlockRange?) && a.guardian
  }

  /** While frozen, a contract is out of everyone's reach but the guardian's: a run without a call of
      the guardian changes nothing at all. */
  lemma {:induction false} FrozenStays(s: State, actions: seq<Action>)
    requires s.frozen && forall i | 0 <= i < |actions| :: !ByGuardian(actions[i])
    ensures StateAfter(s, actions) == s
  {
    if actions == [] {
    } else {
      hide StateAfter;
      FrozenStays(s, actions[..|actions| - 1]);
      NextCall(s, actions);
    }
  }

  lemma {:induction false} NextCall(s: State, actions: seq<Action>)
    requires actions != []
    ensures StateAfter(s, actions) ==
            StepOf(StateAfter(s, actions[..|actions| - 1]), actions[|actions| - 1]).state
  {
    hide StepOf;
  }

  predicate Freezes(a: Action) {
    a.UpdateFreeze? && a.guardian
  }

  /** The flag is what the guardian's last freeze call asked for. */
  lemma {:induction false} FlagIsGuardians(s: State, actions: seq<Action>, i: nat)
    requires i < |actions| && Freezes(actions[i]) && forall k | i < k < |actions| :: !Freezes(actions[k])
    ensures StateAfter(s, actions).frozen == actions[i].freeze
  {
    NextCall(s, actions);
    hide StateAfter;
    if i < |actions| - 1 {
      FlagIsGuardians(s, actions[..|actions| - 1], i);
      FlagKept(StateAfter(s, actions[..|actions| - 1]), actions[|actions| - 1]);
    }
  }

  /** Without such a call, it stays as it was. */
  lemma {:induction false} FlagStays(s: State, actions: seq<Action>)
    requires forall k | 0 <= k < |actions| :: !Freezes(actions[k])
    ensures StateAfter(s, actions).frozen == s.frozen
  {
    if actions == [] {
    } else {
      NextCall(s, actions);
      hide StateAfter;
      FlagStays(s, actions[..|actions| - 1]);
      FlagKept(StateAfter(s, actions[..|actions| - 1]), actions[|actions| - 1]);
    }
  }

  lemma {:induction false} FlagKept(s: State, a: Action)
    requires !Freezes(a)
    ensures StepOf(s, a).state.frozen == s.frozen
  {
    if a.FillBlockRange? && SameLengths(a.data) {
      StoreRangesKeeps(s, a.data, |a.data.startBlocks|);
    }
  }

  /** No run replaces the genesis set: set ids below it stay unknown. */
  lemma {:induction false} GenesisStays(c: Crypto, start: State, setId: U64, actions: seq<Action>)
    requires start.authorityHashes.Keys == {setId}
    requires forall k | 0 <= k < |actions| :: !actions[k].FillBlockRange?
    ensures var t := StateAfter(start, actions);
            && setId in t.authorityHashes && t.authorityHashes[setId] == start.authorityHashes[setId]
            && forall id | id in t.authorityHashes :: id >= setId
  {
    if actions == [] {
      assert setId in start.authorityHashes;
    } else {
      GenesisStays(c, start, setId, actions[..|actions| - 1]);
    }
  }

  /** The calls of a run at these positions hand the trust in the genesis set on to a call after the
      run: each is a rotation out of the set that the one before rotated in, the first one out of
      the genesis set. */
  ghost predicate LineOfTrust(c: Crypto, start: State, setId: U64, actions: seq<Action>, line: seq<nat>, a: Action)
    requires Justifies(a)
    decreases |line|
  {
    if line == [] then
      && SetIdOf(a) == setId
      && Read(StateAfter(start, actions).authorityHashes, setId) == Read(start.authorityHashes, setId)
    else
      var i := line[|line| - 1];
      && i < |actions| && actions[i].RotateSet? && Vouched(c, StateAfter(start, actions[..i]), actions[i])
      && TrustHandedOver(c, StateAfter(start, actions[..i]), actions[i], a)
      && LineOfTrust(c, start, setId, actions[..i], line[..|line| - 1], actions[i])
  }

  /** Every successful commit and rotation goes back to the genesis set: a line of rotations of the run,
      one for each set id from the genesis one, of which the first is justified under the genesis
      hash, each next one by the keys rotated in by the one before, and the call by the last. */
  lemma {:induction false} TrustGoesBack(c: Crypto, start: State, setId: U64, actions: seq<Action>, a: Action)
    returns (line: seq<nat>)
    requires start.authorityHashes.Keys == {setId} && BackedRun(c, start, actions)
    requires forall k | 0 <= k < |actions| :: !actions[k].FillBlockRange?
    requires Justifies(a) && Backed(c, StateAfter(start, actions), a)
    requires StepOf(StateAfter(start, actions), a).outcome == Done
    ensures LineOfTrust(c, start, setId, actions, line, a) && SetIdOf(a) == setId + |line|
    ensures Vouched(c, StateAfter(start, actions), a)
    decreases |actions|
  {
    hide Backed, StepOf, StateAfter, Vouched, TrustHandedOver;
    CallIsVouched(c, StateAfter(start, actions), a);
    if SetIdOf(a) == setId {
      line := [];
      GenesisStays(c, start, setId, actions);
    } else {
      var i := KeysWereRotatedIn(c, start, setId, actions, a);
      HandedOverBy(c, StateAfter(start, actions[..i]), actions[i], a);
      BackedAt(c, start, actions, i);
      BackedPrefix(c, start, actions, i);
      var before := TrustGoesBack(c, start, setId, actions[..i], actions[i]);
      line := before + [i];
      assert line[..|line| - 1] == before;
    }
  }

  lemma {:induction false} HandedOverBy(c: Crypto, s: State, r: Action, a: Action)
    requires Justifies(a) && TrustHandedOver(c, s, r, a)
    ensures r.RotateSet? && r.setId + 1 == SetIdOf(a)
  {
  }

  lemma {:induction false} BackedPrefix(c: Crypto, start: State, actions: seq<Action>, i: nat)
    requires BackedRun(c, start, actions) && i <= |actions|
    ensures BackedRun(c, start, actions[..i])
  {
    hide Backed, StateAfter;
    if i == |actions| {
      assert actions[..i] == actions;
    } else {
      BackedPrefix(c, start, actions[..|actions| - 1], i);
      assert actions[..|actions| - 1][..i] == actions[..i];
    }
  }

  // ----- forks

  /** A fork is accountable: if commits of two states, with justifications of the padding's shape under
      one authority set hash, store different hashes for one block, then more than a third of the
      committed keys signed both of two different messages, or inputs hashed for the commitments
      collide. */
  lemma {:induction false} ForkIsAccountable(c: Crypto, s: State, a: Action, t: State, b: Action)
    requires a.CommitHeaderRange? && StepOf(s, a).outcome == Done && Backed(c, s, a) && HintShaped(a)
    requires b.CommitHeaderRange? && StepOf(t, b).outcome == Done && Backed(c, t, b) && HintShaped(b)
    requires Read(s.authorityHashes, a.setId) == Read(t.authorityHashes, b.setId) && a.target == b.target
    requires Read(StepOf(s, a).state.headerHashes, a.target) != Read(StepOf(t, b).state.headerHashes, b.target)
    ensures var j, k := a.proof.justification, b.proof.justification;
            && CommittedKeys(j) != [] && CommittedKeys(k) != [] && j.precommit != k.precommit
            && (CommitmentsCollide(c, CommittedKeys(j), CommittedKeys(k)) || BothSigned(c, j, k))
  {
    CommitIsJustified(c, s, a);
    CommitIsJustified(c, t, b);
    hide Justified, Shaped, CommitmentsCollide, BothSigned, CommittedKeys, Backed, StepOf;
    AccountableSafety(c, Read(s.authorityHashes, a.setId),
                      a.target, Read(StepOf(s, a).state.headerHashes, a.target), a.setId, a.proof.justification,
                      b.target, Read(StepOf(t, b).state.headerHashes, b.target), b.setId, b.proof.justification);
  }
}
