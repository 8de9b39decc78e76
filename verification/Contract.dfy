/** The VectorX contract (contracts/src/VectorX.sol). A mapping reads as zero where nothing was
    stored; a range key is the pair of its start and end block; verified outputs come from the
    gateway; a call that reverts leaves the contract as it was. */
module Contract {
  import opened Basics
  import opened Subchain
  import opened HeaderRange

  type RangeKey = (U32, U32)

  /** The contract's storage. */
  datatype State = State(
    frozen: bool, latestBlock: U32,
    headerHashes: map<U32, Bytes32>, authorityHashes: map<U64, Bytes32>,
    dataRoots: map<RangeKey, Bytes32>, stateRoots: map<RangeKey, Bytes32>, rangeStarts: map<RangeKey, U32>)

  function Read<K>(m: map<K, Bytes32>, k: K): Bytes32 {
    if k in m then m[k] else ZERO32
  }

  datatype Outcome =
    | Done
    | ContractFrozen | TrustedHeaderNotFound | AuthoritySetNotFound | NextAuthoritySetExists
    | RequireFailed | AssertFailed | Overflow | NotGuardian | NotVerified

  datatype Step = Step(state: State, outcome: Outcome)

  // ----- specification of each call

  function Initialized(height: U32, header: Bytes32, setId: U64, setHash: Bytes32): State {
    State(false, height, map[height := header], map[setId := setHash], map[], map[], map[])
  }

  /** What a range (start, end] leaves behind, apart from the latest block. */
  function StoreRange(s: State, start: U32, end: U32, headerHash: Bytes32, stateRoot: Bytes32,
                      dataRoot: Bytes32): State {
    s.(headerHashes := s.headerHashes[end := headerHash],
       dataRoots := s.dataRoots[(start, end) := dataRoot],
       stateRoots := s.stateRoots[(start, end) := stateRoot],
       rangeStarts := s.rangeStarts[(start, end) := start])
  }

  /** The public input of a header range proof against the current state. */
  function RangeInput(s: State, setId: U64, target: U32): HeaderRangeInput {
    HeaderRangeInput(s.latestBlock, Read(s.headerHashes, s.latestBlock), setId, Read(s.authorityHashes, setId), target)
  }

  function CommitStep(s: State, setId: U64, target: U32, verified: Option<Commitment>): Step {
    if s.frozen then Step(s, ContractFrozen)
    else if Read(s.headerHashes, s.latestBlock) == ZERO32 then Step(s, TrustedHeaderNotFound)
    else if Read(s.authorityHashes, setId) == ZERO32 then Step(s, AuthoritySetNotFound)
    else if target <= s.latestBlock then Step(s, RequireFailed)
    else if verified.None? then Step(s, NotVerified)
    else
      var out := verified.value;
      var t := StoreRange(s, s.latestBlock, target, out.targetHeaderHash, out.stateRoot, out.dataRoot);
      Step(t.(latestBlock := target), Done)
  }

  function RotateStep(s: State, setId: U64, verified: Option<Bytes32>): Step {
    if s.frozen then Step(s, ContractFrozen)
    else if Read(s.authorityHashes, setId) == ZERO32 then Step(s, AuthoritySetNotFound)
    else if verified.None? then Step(s, NotVerified)
    else if setId + 1 >= U64_BOUND then Step(s, Overflow)
    else Step(s.(authorityHashes := s.authorityHashes[setId + 1 := verified.value]), Done)
  }

  /** A missing trusted header is reported as a missing authority set, as the code has it. */
  function RequestHeaderRangeOutcome(s: State, setId: U64, requested: U32): Outcome {
    if Read(s.headerHashes, s.latestBlock) == ZERO32 then AuthoritySetNotFound
    else if Read(s.authorityHashes, setId) == ZERO32 then AuthoritySetNotFound
    else if requested <= s.latestBlock then RequireFailed
    else Done
  }

  function RequestRotateOutcome(s: State, setId: U64): Outcome {
    if Read(s.authorityHashes, setId) == ZERO32 then AuthoritySetNotFound
    else if setId + 1 >= U64_BOUND then Overflow
    else if Read(s.authorityHashes, setId + 1) != ZERO32 then NextAuthoritySetExists
    else Done
  }

  /** The arguments of updateBlockRangeData. */
  datatype BlockRangeData = BlockRangeData(
    startBlocks: seq<U32>, endBlocks: seq<U32>, headerHashes: seq<Bytes32>,
    dataRoots: seq<Bytes32>, stateRoots: seq<Bytes32>, endSetId: U64, endSetHash: Bytes32)

  predicate SameLengths(d: BlockRangeData) {
    |d.startBlocks| > 0 && |d.startBlocks| == |d.endBlocks| == |d.headerHashes| == |d.dataRoots| == |d.stateRoots|
  }

  /** Each range starts where the one before ends, the first one at the latest block. */
  predicate Contiguous(d: BlockRangeData, latest: U32)
    requires SameLengths(d)
  {
    d.startBlocks[0] == latest && forall i | 0 <= i < |d.startBlocks| - 1 :: d.endBlocks[i] == d.startBlocks[i + 1]
  }

  /** The first n ranges stored one after another. */
  function StoreRanges(s: State, d: BlockRangeData, n: nat): State
    requires SameLengths(d) && n <= |d.startBlocks|
  {
    if n == 0 then s
    else StoreRange(StoreRanges(s, d, n - 1), d.startBlocks[n - 1], d.endBlocks[n - 1], d.headerHashes[n - 1],
                    d.stateRoots[n - 1], d.dataRoots[n - 1])
  }

  function BackfillStep(s: State, d: BlockRangeData, guardian: bool): Step {
    if !guardian then Step(s, NotGuardian)
    else if !SameLengths(d) then Step(s, AssertFailed)
    else if !Contiguous(d, s.latestBlock) then Step(s, RequireFailed)
    else
      var n := |d.startBlocks|;
      var t := StoreRanges(s, d, n);
      Step(t.(authorityHashes := t.authorityHashes[d.endSetId := d.endSetHash], latestBlock := d.endBlocks[n - 1]),
           Done)
  }

  function FreezeStep(s: State, freeze: bool, guardian: bool): Step {
    if guardian then Step(s.(frozen := freeze), Done) else Step(s, NotGuardian)
  }

  // ----- the contract

  class VectorX {
    var frozen: bool
    var latestBlock: U32
    var blockHeightToHeaderHash: map<U32, Bytes32>
    var authoritySetIdToHash: map<U64, Bytes32>
    var dataRootCommitments: map<RangeKey, Bytes32>
    var stateRootCommitments: map<RangeKey, Bytes32>
    var rangeStartBlocks: map<RangeKey, U32>

    function Storage(): State
      reads this
    {
      State(frozen, latestBlock, blockHeightToHeaderHash, authoritySetIdToHash,
            dataRootCommitments, stateRootCommitments, rangeStartBlocks)
    }

    /** `initialize`. */
    constructor (height: U32, header: Bytes32, authoritySetId: U64, authoritySetHash: Bytes32)
      ensures Storage() == Initialized(height, header, authoritySetId, authoritySetHash)
    {
      frozen := false;
      blockHeightToHeaderHash := map[height := header];
      authoritySetIdToHash := map[authoritySetId := authoritySetHash];
      latestBlock := height;
      dataRootCommitments, stateRootCommitments, rangeStartBlocks := map[], map[], map[];
    }

    method UpdateFreeze(freeze: bool, guardian: bool) returns (outcome: Outcome)
      modifies this
      ensures Step(Storage(), outcome) == FreezeStep(old(Storage()), freeze, guardian)
    {
      if !guardian {
        return NotGuardian;
      }
      frozen := freeze;
      outcome := Done;
    }

    /** The gateway is asked to verify the input built from the storage. */
    method CommitHeaderRange(authoritySetId: U64, targetBlock: U32, verify: HeaderRangeInput -> Option<Commitment>)
      returns (outcome: Outcome)
      modifies this
      ensures Step(Storage(), outcome) ==
              CommitStep(old(Storage()), authoritySetId, targetBlock,
                         verify(RangeInput(old(Storage()), authoritySetId, targetBlock)))
    {
      if frozen {
        return ContractFrozen;
      }
      var trustedHeader := Read(blockHeightToHeaderHash, latestBlock);
      if trustedHeader == ZERO32 {
        return TrustedHeaderNotFound;
      }
      var authoritySetHash := Read(authoritySetIdToHash, authoritySetId);
      if authoritySetHash == ZERO32 {
        return AuthoritySetNotFound;
      }
      if !(targetBlock > latestBlock) {
        return RequireFailed;
      }
      var output := verify(HeaderRangeInput(latestBlock, trustedHeader, authoritySetId, authoritySetHash, targetBlock));
      if output.None? {
        return NotVerified;
      }
      blockHeightToHeaderHash := blockHeightToHeaderHash[targetBlock := output.value.targetHeaderHash];
      var key := (latestBlock, targetBlock);
      dataRootCommitments := dataRootCommitments[key := output.value.dataRoot];
      stateRootCommitments := stateRootCommitments[key := output.value.stateRoot];
      rangeStartBlocks := rangeStartBlocks[key := latestBlock];
      latestBlock := targetBlock;
      outcome := Done;
    }

    method Rotate(currentAuthoritySetId: U64, verify: (U64, Bytes32) -> Option<Bytes32>) returns (outcome: Outcome)
      modifies this
      ensures Step(Storage(), outcome) ==
              RotateStep(old(Storage()), currentAuthoritySetId,
                         verify(currentAuthoritySetId, Read(old(authoritySetIdToHash), currentAuthoritySetId)))
    {
      if frozen {
        return ContractFrozen;
      }
      var currentHash := Read(authoritySetIdToHash, currentAuthoritySetId);
      if currentHash == ZERO32 {
        return AuthoritySetNotFound;
      }
      var output := verify(currentAuthoritySetId, currentHash);
      if output.None? {
        return NotVerified;
      }
      if currentAuthoritySetId + 1 >= U64_BOUND {
        return Overflow;
      }
      authoritySetIdToHash := authoritySetIdToHash[currentAuthoritySetId + 1 := output.value];
      outcome := Done;
    }

    /** Returns the input handed to the gateway. */
    method RequestHeaderRange(authoritySetId: U64, requestedBlock: U32)
      returns (outcome: Outcome, input: Option<HeaderRangeInput>)
      ensures outcome == RequestHeaderRangeOutcome(Storage(), authoritySetId, requestedBlock)
      ensures input == if outcome == Done then Some(RangeInput(Storage(), authoritySetId, requestedBlock)) else None
    {
      input := None;
      var trustedHeader := Read(blockHeightToHeaderHash, latestBlock);
      if trustedHeader == ZERO32 {
        return AuthoritySetNotFound, None;
      }
      var authoritySetHash := Read(authoritySetIdToHash, authoritySetId);
      if authoritySetHash == ZERO32 {
        return AuthoritySetNotFound, None;
      }
      if !(requestedBlock > latestBlock) {
        return RequireFailed, None;
      }
      outcome := Done;
      input := Some(HeaderRangeInput(latestBlock, trustedHeader, authoritySetId, authoritySetHash, requestedBlock));
    }

    method RequestRotate(currentAuthoritySetId: U64) returns (outcome: Outcome, input: Option<(U64, Bytes32)>)
      ensures outcome == RequestRotateOutcome(Storage(), currentAuthoritySetId)
      ensures input == if outcome == Done
                       then Some((currentAuthoritySetId, Read(authoritySetIdToHash, currentAuthoritySetId))) else None
    {
      var currentHash := Read(authoritySetIdToHash, currentAuthoritySetId);
      if currentHash == ZERO32 {
        return AuthoritySetNotFound, None;
      }
      if currentAuthoritySetId + 1 >= U64_BOUND {
        return Overflow, None;
      }
      if Read(authoritySetIdToHash, currentAuthoritySetId + 1) != ZERO32 {
        return NextAuthoritySetExists, None;
      }
      outcome := Done;
      input := Some((currentAuthoritySetId, currentHash));
    }

    /** Ranges are stored while they are checked; a range that does not follow on reverts the
        whole call. */
    method UpdateBlockRangeData(d: BlockRangeData, guardian: bool) returns (outcome: Outcome)
      modifies this
      ensures Step(Storage(), outcome) == BackfillStep(old(Storage()), d, guardian)
    {
      if !guardian {
        return NotGuardian;
      }
      if !SameLengths(d) {
        return AssertFailed;
      }
      if d.startBlocks[0] != latestBlock {
        return RequireFailed;
      }
      var n := |d.startBlocks|;
      var headers, dataRoots, stateRoots, starts :=
        blockHeightToHeaderHash, dataRootCommitments, stateRootCommitments, rangeStartBlocks;
      for i := 0 to n
        invariant Storage() == StoreRanges(old(Storage()), d, i)
        invariant forall k | 0 <= k < i && k < n - 1 :: d.endBlocks[k] == d.startBlocks[k + 1]
      {
        if i < n - 1 && d.endBlocks[i] != d.startBlocks[i + 1] {
          StoreRangesKeeps(old(Storage()), d, i);
          blockHeightToHeaderHash, dataRootCommitments, stateRootCommitments, rangeStartBlocks :=
            headers, dataRoots, stateRoots, starts;
          return RequireFailed;
        }
        var key := (d.startBlocks[i], d.endBlocks[i]);
        dataRootCommitments := dataRootCommitments[key := d.dataRoots[i]];
        stateRootCommitments := stateRootCommitments[key := d.stateRoots[i]];
        rangeStartBlocks := rangeStartBlocks[key := d.startBlocks[i]];
        blockHeightToHeaderHash := blockHeightToHeaderHash[d.endBlocks[i] := d.headerHashes[i]];
      }
      authoritySetIdToHash := authoritySetIdToHash[d.endSetId := d.endSetHash];
      latestBlock := d.endBlocks[n - 1];
      outcome := Done;
    }
  }

  /** Storing ranges leaves the flag, the latest block and the authority sets alone. */
  lemma {:induction false} StoreRangesKeeps(s: State, d: BlockRangeData, n: nat)
    requires SameLengths(d) && n <= |d.startBlocks|
    ensures var t := StoreRanges(s, d, n);
            t.frozen == s.frozen && t.latestBlock == s.latestBlock && t.authorityHashes == s.authorityHashes
  {
    if n == 0 {
    } else {
      StoreRangesKeeps(s, d, n - 1);
    }
  }

  // ----- what each call checks and writes, read off the mappings

  predicate Stores<K>(m: map<K, Bytes32>, k: K) {
    k in m && m[k] != Zeros(32)
  }

  /** A commit goes through exactly on an unfrozen contract that stores the trusted header and the
      set, for a target ahead of it and with a verified answer; it writes the target's header hash
      and the new range, and moves the latest block. Refused, it reports the first check that
      failed, and writes nothing. */
  lemma {:induction false} CommitExact(s: State, setId: U64, target: U32, verified: Option<Commitment>)
    ensures var r := CommitStep(s, setId, target, verified);
            var trusted, known := Stores(s.headerHashes, s.latestBlock), Stores(s.authorityHashes, setId);
            && (r.outcome == Done <==> !s.frozen && trusted && known && s.latestBlock < target && verified.Some?)
            && (r.outcome == ContractFrozen <==> s.frozen)
            && (r.outcome == TrustedHeaderNotFound <==> !s.frozen && !trusted)
            && (r.outcome == AuthoritySetNotFound <==> !s.frozen && trusted && !known)
            && (r.outcome == RequireFailed <==> !s.frozen && trusted && known && target <= s.latestBlock)
            && (r.outcome != Done ==> r.state == s)
            && (r.outcome == Done ==>
                  var key, v := (s.latestBlock, target), verified.value;
                  r.state == State(false, target, s.headerHashes[target := v.targetHeaderHash], s.authorityHashes,
                                   s.dataRoots[key := v.dataRoot], s.stateRoots[key := v.stateRoot],
                                   s.rangeStarts[key := s.latestBlock]))
  {
  }

  /** What the gateway is asked: the latest block and its stored hash, the set and its stored hash. */
  lemma {:induction false} RangeInputExact(s: State, setId: U64, target: U32)
    requires Stores(s.headerHashes, s.latestBlock) && Stores(s.authorityHashes, setId)
    ensures var input := RangeInput(s, setId, target);
            && input.trustedBlock == s.latestBlock && input.trustedHeaderHash == s.headerHashes[s.latestBlock]
            && input.authoritySetId == setId && input.authoritySetHash == s.authorityHashes[setId]
            && input.targetBlock == target
  {
  }

  /** A rotation goes through exactly on an unfrozen contract that stores the set, with a verified
      answer, for a set id that has a successor; it writes the hash of that successor. */
  lemma {:induction false} RotateExact(s: State, setId: U64, verified: Option<Bytes32>)
    ensures var r := RotateStep(s, setId, verified);
            var known, last := Stores(s.authorityHashes, setId), setId == 0xFFFF_FFFF_FFFF_FFFF;
            && (r.outcome == Done <==> !s.frozen && known && verified.Some? && !last)
            && (r.outcome == ContractFrozen <==> s.frozen)
            && (r.outcome == AuthoritySetNotFound <==> !s.frozen && !known)
            && (r.outcome == Overflow <==> !s.frozen && known && verified.Some? && last)
            && (r.outcome != Done ==> r.state == s)
            && (r.outcome == Done ==>
                  r.state == s.(authorityHashes := s.authorityHashes[setId + 1 := verified.value]))
  {
  }

  /** A range request is accepted exactly when, unfrozen, the commit it asks for would go through on
      an answer. */
  lemma {:induction false} RangeRequestExact(s: State, setId: U64, requested: U32, answer: Commitment)
    ensures RequestHeaderRangeOutcome(s, setId, requested) == Done <==>
            CommitStep(s.(frozen := false), setId, requested, Some(answer)).outcome == Done
    ensures RequestHeaderRangeOutcome(s, setId, requested) == AuthoritySetNotFound <==>
            !(Stores(s.headerHashes, s.latestBlock) && Stores(s.authorityHashes, setId))
  {
  }

  /** A rotate request is accepted exactly when, unfrozen, the rotation it asks for would go through
      on an answer and would not replace a stored hash. */
  lemma {:induction false} RotateRequestExact(s: State, setId: U64, answer: Bytes32)
    ensures RequestRotateOutcome(s, setId) == Done <==>
            && RotateStep(s.(frozen := false), setId, Some(answer)).outcome == Done
            && !(setId + 1 < U64_BOUND && Stores(s.authorityHashes, setId + 1))
    ensures RequestRotateOutcome(s, setId) == NextAuthoritySetExists <==>
            Stores(s.authorityHashes, setId) && setId + 1 < U64_BOUND && Stores(s.authorityHashes, setId + 1)
  {
  }

  /** Only the guardian freezes and unfreezes, and that changes the flag alone. */
  lemma {:induction false} FreezeExact(s: State, freeze: bool, guardian: bool)
    ensures var r := FreezeStep(s, freeze, guardian);
            && (r.outcome == Done <==> guardian)
            && r.state.(frozen := false) == s.(frozen := false)
            && r.state.frozen == (if guardian then freeze else s.frozen)
  {
  }

  /** A back-fill goes through exactly for the guardian, with as many end blocks, hashes and roots as
      start blocks and at least one, the first range starting at the latest block and every other
      one where the one before ends. Refused, it writes nothing. */
  lemma {:induction false} BackfillExact(s: State, d: BlockRangeData, guardian: bool)
    ensures var r, n := BackfillStep(s, d, guardian), |d.startBlocks|;
            var fits := n > 0 && |d.endBlocks| == n && |d.headerHashes| == n && |d.dataRoots| == n
                        && |d.stateRoots| == n;
            && (r.outcome == NotGuardian <==> !guardian)
            && (r.outcome == AssertFailed <==> guardian && !fits)
            && (r.outcome == Done <==>
                  && guardian && fits && d.startBlocks[0] == s.latestBlock
                  && forall i | 0 < i < n :: d.startBlocks[i] == d.endBlocks[i - 1])
            && (r.outcome != Done ==> r.state == s)
  {
    hide StoreRanges;
    if SameLengths(d) && forall i | 0 < i < |d.startBlocks| :: d.startBlocks[i] == d.endBlocks[i - 1] {
      forall i | 0 <= i < |d.startBlocks| - 1
        ensures d.endBlocks[i] == d.startBlocks[i + 1]
      {
        assert d.startBlocks[i + 1] == d.endBlocks[(i + 1) - 1];
      }
    }
  }

  /** The mapping after writing the first n values at their keys in turn: the last value written at
      a key stays, and other keys keep theirs. */
  ghost predicate Written<K, V>(before: map<K, V>, after: map<K, V>, keys: seq<K>, values: seq<V>, n: nat)
    requires n <= |keys| == |values|
  {
    && (forall k | k in before :: k in after)
    && (forall k | k in after && k !in keys[..n] :: k in before && after[k] == before[k])
    && forall i | 0 <= i < n ::
         keys[i] in after && ((forall j | i < j < n :: keys[j] != keys[i]) ==> after[keys[i]] == values[i])
  }

  lemma {:induction false} WrittenNext<K, V>(before: map<K, V>, after: map<K, V>, keys: seq<K>, values: seq<V>, n: nat)
    requires |keys| == |values| && n < |keys| && Written(before, after, keys, values, n)
    ensures Written(before, after[keys[n] := values[n]], keys, values, n + 1)
  {
    var now := after[keys[n] := values[n]];
    forall k | k in now && k !in keys[..n + 1]
      ensures k in before && now[k] == before[k]
    {
      assert keys[n] in keys[..n + 1] && forall i | 0 <= i < n :: keys[..n][i] == keys[..n + 1][i];
    }
  }

  function RangeKeys(d: BlockRangeData): (r: seq<RangeKey>)
    requires |d.startBlocks| == |d.endBlocks|
    ensures |r| == |d.startBlocks| && forall i | 0 <= i < |r| :: r[i] == (d.startBlocks[i], d.endBlocks[i])
  {
    seq(|d.startBlocks|, i requires 0 <= i < |d.startBlocks| => (d.startBlocks[i], d.endBlocks[i]))
  }

  /** The first n ranges are written: each one's header hash at its end, its roots and its start at
      its key. */
  ghost predicate RangesWritten(s: State, t: State, d: BlockRangeData, n: nat)
    requires SameLengths(d) && n <= |d.startBlocks|
  {
    && Written(s.headerHashes, t.headerHashes, d.endBlocks, d.headerHashes, n)
    && Written(s.dataRoots, t.dataRoots, RangeKeys(d), d.dataRoots, n)
    && Written(s.stateRoots, t.stateRoots, RangeKeys(d), d.stateRoots, n)
    && Written(s.rangeStarts, t.rangeStarts, RangeKeys(d), d.startBlocks, n)
  }

  lemma {:induction false} NextRangeWritten(s: State, t: State, d: BlockRangeData, n: nat)
    requires SameLengths(d) && n < |d.startBlocks| && RangesWritten(s, t, d, n)
    ensures RangesWritten(
              s, StoreRange(t, d.startBlocks[n], d.endBlocks[n], d.headerHashes[n], d.stateRoots[n], d.dataRoots[n]),
              d, n + 1)
  {
    hide Written;
    WrittenNext(s.headerHashes, t.headerHashes, d.endBlocks, d.headerHashes, n);
    WrittenNext(s.dataRoots, t.dataRoots, RangeKeys(d), d.dataRoots, n);
    WrittenNext(s.stateRoots, t.stateRoots, RangeKeys(d), d.stateRoots, n);
    WrittenNext(s.rangeStarts, t.rangeStarts, RangeKeys(d), d.startBlocks, n);
  }

  lemma {:induction false} NoneWritten(s: State, d: BlockRangeData)
    requires SameLengths(d)
    ensures RangesWritten(s, s, d, 0)
  {
  }

  lemma {:induction false} StoreRangesWrites(s: State, d: BlockRangeData, n: nat)
    requires SameLengths(d) && n <= |d.startBlocks|
    ensures RangesWritten(s, StoreRanges(s, d, n), d, n)
  {
    hide Written, RangesWritten, StoreRange;
    if n == 0 {
      NoneWritten(s, d);
    } else {
      StoreRangesWrites(s, d, n - 1);
      NextRangeWritten(s, StoreRanges(s, d, n - 1), d, n - 1);
    }
  }

  /** What a back-fill leaves behind: all its ranges, the end set, and the last end block. */
  lemma {:induction false} BackfillWrites(s: State, d: BlockRangeData, guardian: bool)
    requires BackfillStep(s, d, guardian).outcome == Done
    ensures var t, n := BackfillStep(s, d, guardian).state, |d.startBlocks|;
            && SameLengths(d) && RangesWritten(s, t, d, n)
            && t.frozen == s.frozen && t.latestBlock == d.endBlocks[n - 1]
            && t.authorityHashes == s.authorityHashes[d.endSetId := d.endSetHash]
  {
    hide Written, StoreRanges;
    StoreRangesKeeps(s, d, |d.startBlocks|);
    StoreRangesWrites(s, d, |d.startBlocks|);
  }
}
