/** Honest data goes through: from the chain and the precommits of more than two thirds of an
    authority set, the off-chain code builds witnesses on which the circuits return the target's
    commitments and the next authority set. */
module Completeness {
  import opened Basics
  import opened Headers
  import opened Subchain
  import opened Fetcher
  import opened Authorities
  import opened Justifications
  import opened Indexer
  import opened Rotation
  import opened HeaderRotate
  import opened HeaderRange
  import opened Epochs

  // ----- justifications

  /** Every precommit received is validly signed. */
  ghost predicate ValidSigners(c: Crypto, validators: seq<Signer>, message: Bytes) {
    forall v | v in validators :: c.ed25519(v.id, message, v.signature)
  }

  /** Distinct authorities, more than two thirds of whom are among the valid signers. */
  ghost predicate HonestVotes(c: Crypto, authorities: seq<Bytes32>, validators: seq<Signer>, p: Precommit) {
    && 0 < |authorities| <= MAX_AUTHORITY_SET_SIZE && DistinctKeys(authorities) && InRange(p)
    && ValidSigners(c, validators, EncodePrecommit(p))
    && 3 * |Voters(authorities, validators)| > 2 * |authorities|
  }

  lemma {:induction false} SignerCount(validators: seq<Signer>)
    ensures |SignerIds(validators)| <= |validators|
  {
    if validators == [] {
      assert SignerIds(validators) == {};
    } else {
      var m := |validators| - 1;
      SignerCount(validators[..m]);
      assert validators == validators[..m] + [validators[m]];
      assert SignerIds(validators) == SignerIds(validators[..m]) + {validators[m].id};
    }
  }

  /** There are no more voters than signers. */
  lemma {:induction false} VoterCount(authorities: seq<Bytes32>, validators: seq<Signer>)
    ensures |Voters(authorities, validators)| <= |validators|
  {
    SignerCount(validators);
    assert Voters(authorities, validators) <= SignerIds(validators);
    SubsetCount(Voters(authorities, validators), SignerIds(validators));
  }

  lemma {:induction false} SubsetCount<T>(a: set<T>, b: set<T>)
    requires a <= b
    ensures |a| <= |b|
  {
    assert b == a + (b - a);
  }

  /** A padded justification that is aligned with valid signatures passes every check of the circuit. */
  lemma {:induction false} AlignedIsJustified(c: Crypto, authorities: seq<Bytes32>, validators: seq<Signer>,
                                              p: Precommit, j: Justification)
    requires 0 < |authorities| <= MAX_AUTHORITY_SET_SIZE && InRange(p) && PaddedAligned(authorities, validators, j)
    requires j.precommit == EncodePrecommit(p) && ValidSigners(c, validators, j.precommit)
    requires Mul32(CountTrue(j.signed), 3) > Mul32(j.numAuthorities, 2)
    ensures Justified(c, p.blockNumber, p.blockHash, p.authoritySetId, AuthoritySetHash(c, authorities), j)
  {
    hide EncodePrecommit, DecodePrecommit, AuthoritySetHash, CountTrue, SignedBy;
    PrecommitRoundTrip(p);
    forall i | 0 <= i < MAX_AUTHORITY_SET_SIZE && j.signed[i]
      ensures c.ed25519(j.pubkeys[i], j.precommit, j.signatures[i])
    {
      assert i < |authorities| && authorities[i] == CommittedKeys(j)[i] == j.pubkeys[i];
      assert Signer(authorities[i], j.signatures[i]) in validators;
    }
  }

  /** Indexing and padding honest votes gives a justification that the circuit accepts. */
  method Justify(c: Crypto, authorities: seq<Bytes32>, validators: seq<Signer>, p: Precommit) returns (j: Justification)
    requires HonestVotes(c, authorities, validators, p)
    ensures Justified(c, p.blockNumber, p.blockHash, p.authoritySetId, AuthoritySetHash(c, authorities), j) && Shaped(j)
  {
    hide DistinctKeys, DistinctSigners, Voters, EncodePrecommit, CountTrue, Justified, ValidSigners, SignedBy;
    VoterCount(authorities, validators);
    var padded := IndexAndPad(authorities, validators, EncodePrecommit(p));
    j := padded.value;
    AlignedIsJustified(c, authorities, validators, p, j);
  }

  // ----- header ranges

  /** From the chain and honest votes for its target, hints and circuit together return the target's
      hash and the roots that the off-chain code computes; p is the witness. */
  method ProveHeaderRange(c: Crypto, chain: Chain, trusted: U32, target: U32, setId: U64, round: U64,
                          authorities: seq<Bytes32>, validators: seq<Signer>)
    returns (r: Option<Commitment>, p: HeaderRangeProof)
    requires trusted < target <= trusted + MAX_NUM_HEADERS && ValidChain(c, chain, trusted, target)
    requires Straight(MAP_JOBS, trusted, target) && HintCursorsFit(trusted, target, MAP_JOBS)
    requires HonestVotes(c, authorities, validators, Precommit(HeaderHash(c, chain(target)), target, round, setId))
    ensures authorities != []
    ensures var roots := RangeRoots(c, chain, trusted, target);
            r == Some(Commitment(HeaderHash(c, chain(target)), roots.stateRoot, roots.dataRoot))
    ensures var input := HeaderRangeInput(trusted, HeaderHash(c, chain(trusted)), setId,
                                          AuthoritySetHash(c, authorities), target);
            HeaderRangeResult(c, input, p) == r
  {
    FastTreeIsSimpleTree(c, chain, trusted, target);
    MapJobsArePow2();
    hide HonestVotes, ValidChain, Straight, HeaderHash, RangeRoots, SubchainResult, Justified, WitnessFits, HintWitness,
         HintCursorsFit;
    var headers := FetchWitness(chain, trusted, target, MAP_JOBS);
    var j := Justify(c, authorities, validators, Precommit(HeaderHash(c, chain(target)), target, round, setId));
    HonestSet(c, authorities, validators, Precommit(HeaderHash(c, chain(target)), target, round, setId));
    var input := HeaderRangeInput(trusted, HeaderHash(c, chain(trusted)), setId, AuthoritySetHash(c, authorities),
                                  target);
    p := ProofData(headers.value, j);
    r := Define(c, input, p);
  }

  lemma {:induction false} HonestSet(c: Crypto, authorities: seq<Bytes32>, validators: seq<Signer>, p: Precommit)
    requires HonestVotes(c, authorities, validators, p)
    ensures authorities != []
  {
  }

  // ----- rotations

  /** From an epoch-end header and honest votes of the set before, the off-chain code and the circuit
      together return the commitment of the announced keys; w and j are the witnesses. */
  method ProveRotation(c: Crypto, history: History, hd: Header, keys: seq<Bytes32>, setId: U64, round: U64,
                       authorities: seq<Bytes32>, validators: seq<Signer>)
    returns (r: Option<Bytes32>, w: RotateWitness, j: Justification)
    requires EpochEnd(history, hd.number) && Rotatable(hd, keys)
    requires HonestVotes(c, authorities, validators, Precommit(HeaderHash(c, hd), hd.number, round, setId))
    ensures keys != [] && r == Some(AuthoritySetHash(c, keys))
    ensures authorities != [] && RotateResult(c, setId, AuthoritySetHash(c, authorities), w, j) == r
  {
    HonestSet(c, authorities, validators, Precommit(HeaderHash(c, hd), hd.number, round, setId));
    hide HonestVotes, HeaderHash, Justified, RotateResult, EpochEnd;
    var d := FindRotation(c, history, hd, keys);
    j := Justify(c, authorities, validators, Precommit(HeaderHash(c, hd), hd.number, round, setId));
    w := RotateData(hd.number, d.header, d.numAuthorities, d.startPosition, d.paddedPubkeys);
    r := Rotate(c, setId, AuthoritySetHash(c, authorities), w, j);
  }
}
