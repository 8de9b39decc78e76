/** The header range circuit (circuits/header_range.rs): the subchain verifier and a
    justification of its target by one authority set. */
module HeaderRange {
  import opened Basics
  import opened Headers
  import opened Trees
  import opened Subchain
  import opened Justifications

  const MAP_JOBS: nat := 32

  /** The public inputs, as the contract packs them. */
  datatype HeaderRangeInput = HeaderRangeInput(
    trustedBlock: U32, trustedHeaderHash: Bytes32, authoritySetId: U64, authoritySetHash: Bytes32, targetBlock: U32)

  /** The untrusted witness. */
  datatype ProofData = ProofData(headers: seq<EncodedHeader>, justification: Justification)
  type HeaderRangeProof = p: ProofData | |p.headers| == HEADERS_PER_MAP * MAP_JOBS
    witness ProofData(seq<EncodedHeader>(256, _ => EMPTY_HEADER), EMPTY_JUSTIFICATION)

  lemma {:induction false} MapJobsArePow2()
    ensures IsPow2(MAP_JOBS)
  {
    assert IsPow2(8) && IsPow2(16);
  }

  ghost function HeaderRangeResult(c: Crypto, input: HeaderRangeInput, p: HeaderRangeProof): Option<Commitment> {
    MapJobsArePow2();
    var r := SubchainResult(c, MAP_JOBS, input.trustedBlock, input.trustedHeaderHash, input.targetBlock, p.headers);
    if r.Some? && Justified(c, input.targetBlock, r.value.targetHeaderHash, input.authoritySetId,
                            input.authoritySetHash, p.justification)
    then r else None
  }

  /** `define`, on a witness. */
  method Define(c: Crypto, input: HeaderRangeInput, p: HeaderRangeProof) returns (r: Option<Commitment>)
    ensures r == HeaderRangeResult(c, input, p)
  {
    MapJobsArePow2();
    hide SubchainResult, Justified;
    var subchain := VerifySubchain(c, MAP_JOBS, input.trustedBlock, input.trustedHeaderHash, input.targetBlock,
                                   p.headers);
    if subchain.None? {
      return None;
    }
    var justified := VerifySimpleJustification(c, input.targetBlock, subchain.value.targetHeaderHash,
                                               input.authoritySetId, input.authoritySetHash, p.justification);
    r := if justified then subchain else None;
  }
}
