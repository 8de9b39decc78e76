/** Off-chain reads of the Avail chain (circuits/input/mod.rs) and the hint that supplies the
    subchain verifier's headers (circuits/builder/subchain_verification.rs). The chain is a
    fixed history: a header for every block number. */
module Fetcher {
  import opened Basics
  import opened Headers
  import opened Trees
  import opened Subchain
  import opened SubchainTheorem

  type Chain = nat -> Header

  const MAX_NUM_HEADERS: nat := 256
  const MAX_CONCURRENT_WS_REQUESTS: nat := 200

  ghost predicate Fits(chain: Chain, b: nat) {
    |EncodeHeader(chain(b))| <= MAX_HEADER_SIZE
  }

  ghost predicate ExtendsParent(c: Crypto, chain: Chain, b: nat)
    requires b > 0
  {
    chain(b).parentHash == HeaderHash(c, chain(b - 1))
  }

  /** Blocks lo..hi fit the circuit, carry their own number, and link back to block lo. */
  ghost predicate ValidChain(c: Crypto, chain: Chain, lo: nat, hi: nat) {
    && (forall b | lo < b <= hi :: Fits(chain, b) && chain(b).number == b)
    && (forall b | lo < b <= hi :: ExtendsParent(c, chain, b))
  }

  /** Headers lo, ..., hi - 1. */
  function Slice(chain: Chain, lo: nat, hi: nat): (r: seq<Header>)
    requires lo <= hi
    ensures |r| == hi - lo && forall i | 0 <= i < hi - lo :: r[i] == chain(lo + i)
  {
    seq(hi - lo, i requires 0 <= i < hi - lo => chain(lo + i))
  }

  /** The cursor, a u32, gets past the end in steps of 200 without overflow. */
  predicate CursorFits(start: nat, end: nat) {
    start <= end ==> start + MAX_CONCURRENT_WS_REQUESTS * ((end - start) / MAX_CONCURRENT_WS_REQUESTS + 1) < U32_BOUND
  }

  lemma {:induction false} CursorBound(start: nat, end: nat)
    requires end + MAX_CONCURRENT_WS_REQUESTS < U32_BOUND
    ensures CursorFits(start, end)
  {
  }

  /** Headers start..end inclusive, fetched 200 at a time. */
  method GetBlockHeadersRange(chain: Chain, start: U32, end: U32) returns (headers: seq<Header>)
    requires CursorFits(start, end)
    ensures headers == if start <= end then Slice(chain, start, end + 1) else []
  {
    headers := [];
    var curr: U32 := start;
    ghost var k: nat := 0;
    while curr <= end
      invariant curr == start + MAX_CONCURRENT_WS_REQUESTS * k
      invariant start <= end ==> curr <= end + MAX_CONCURRENT_WS_REQUESTS
      invariant start <= end ==> headers == Slice(chain, start, Min(curr, end + 1))
      invariant start > end ==> headers == []
    {
      var endBlock := Min(curr + MAX_CONCURRENT_WS_REQUESTS - 1, end);
      headers := headers + Slice(chain, curr, endBlock + 1);
      assert k <= (end - start) / MAX_CONCURRENT_WS_REQUESTS;
      k := k + 1;
      curr := curr + MAX_CONCURRENT_WS_REQUESTS;
    }
  }

  // ----- the hint

  /** What is supplied for block b: the padded header up to a bound, then empty ones. */
  function HintHeader(chain: Chain, bound: U32, b: nat): EncodedHeader
    requires b <= bound ==> Fits(chain, b)
  {
    if b <= bound then PadHeader(chain(b)) else EMPTY_HEADER
  }

  /** The last block that the hint of a job fetches. The job's own last block is a u32 sum, and lies
      before its first block if it wraps around. */
  function HintBound(start: U32, target: U32): U32 {
    Min(Add32(start, HEADERS_PER_MAP - 1), target)
  }

  ghost predicate JobFits(chain: Chain, start: U32, target: U32) {
    forall b | start <= b <= HintBound(start, target) :: Fits(chain, b)
  }

  /** The headers of one job. */
  function JobHint(chain: Chain, start: U32, target: U32): (r: seq<EncodedHeader>)
    requires JobFits(chain, start, target)
    ensures |r| == HEADERS_PER_MAP
    ensures forall i | 0 <= i < HEADERS_PER_MAP :: r[i] == HintHeader(chain, HintBound(start, target), start + i)
  {
    seq<EncodedHeader>(HEADERS_PER_MAP,
                       i requires 0 <= i < HEADERS_PER_MAP => HintHeader(chain, HintBound(start, target), start + i))
  }

  /** A hint in bytes: header i of a job is the encoding of block start + i, filled up with zeros, up to
      the lesser of the target and the job's last block, and all zeros with size zero after it. */
  lemma {:induction false} HintInBytes(chain: Chain, start: U32, target: U32, i: nat)
    requires JobFits(chain, start, target) && i < 8
    ensures var e, last := JobHint(chain, start, target)[i], Min((start + 7) % 4294967296, target);
            var enc := if start + i <= last then EncodeHeader(chain(start + i)) else [];
            e.size == |enc| <= 35840 && e.bytes[..|enc|] == enc && forall k | |enc| <= k < 35840 :: e.bytes[k] == 0
  {
    U32Arithmetic(start, 7);
    hide EncodeHeader;
    var e := JobHint(chain, start, target)[i];
    assert e == HintHeader(chain, HintBound(start, target), start + i);
    if start + i <= HintBound(start, target) {
      assert Fits(chain, start + i);
    }
  }

  /** The hint of one map job; None stands for the panic on an oversized header. */
  method HeaderRangeHint(chain: Chain, start: U32, last: U32, max: U32) returns (r: Option<seq<EncodedHeader>>)
    requires last == Add32(start, HEADERS_PER_MAP - 1) && CursorFits(start, HintBound(start, max))
    ensures r.Some? <==> JobFits(chain, start, max)
    ensures r.Some? ==> r.value == JobHint(chain, start, max)
  {
    hide EncodeHeader, PadHeader, CursorFits;
    var lastBlock: U32 := Min(last, max);
    var headers: seq<Header> := [];
    if lastBlock >= start {
      headers := GetBlockHeadersRange(chain, start, lastBlock);
    }
    var variables: seq<EncodedHeader> := [];
    for i := 0 to |headers|
      invariant |variables| == i
      invariant forall b | start <= b < start + i :: Fits(chain, b) && variables[b - start] == PadHeader(chain(b))
    {
      if |EncodeHeader(headers[i])| > MAX_HEADER_SIZE {
        assert !Fits(chain, start + i);
        return None;
      }
      variables := variables + [PadHeader(headers[i])];
    }
    assert forall b | start <= b <= lastBlock :: Fits(chain, b);
    for i := |headers| to HEADERS_PER_MAP
      invariant |variables| == i
      invariant forall b | start <= b <= lastBlock :: variables[b - start] == PadHeader(chain(b))
      invariant forall k | |headers| <= k < i :: variables[k] == EMPTY_HEADER
    {
      variables := variables + [EMPTY_HEADER];
    }
    forall i | 0 <= i < HEADERS_PER_MAP
      ensures variables[i] == HintHeader(chain, lastBlock, start + i)
    {
      assert start + i <= lastBlock ==> variables[start + i - start] == PadHeader(chain(start + i));
    }
    r := Some(variables);
  }

  /** The first block of job j, a u32 sum. */
  function JobStart(trusted: U32, j: nat): U32
    requires 8 * j + 1 < U32_BOUND
  {
    Add32(trusted, 8 * j + 1)
  }

  ghost predicate WitnessFits(chain: Chain, trusted: U32, target: U32, jobs: nat)
    requires 8 * jobs < U32_BOUND
  {
    forall j | 0 <= j < jobs :: JobFits(chain, JobStart(trusted, j), target)
  }

  /** The hints of all jobs together. */
  function HintWitness(chain: Chain, trusted: U32, target: U32, jobs: nat): (r: seq<EncodedHeader>)
    requires 8 * jobs < U32_BOUND && WitnessFits(chain, trusted, target, jobs)
    ensures |r| == HEADERS_PER_MAP * jobs
  {
    if jobs == 0 then []
    else HintWitness(chain, trusted, target, jobs - 1) + JobHint(chain, JobStart(trusted, jobs - 1), target)
  }

  /** No job's cursor overflows. */
  ghost predicate HintCursorsFit(trusted: U32, target: U32, jobs: nat)
    requires 8 * jobs < U32_BOUND
  {
    forall j | 0 <= j < jobs :: CursorFits(JobStart(trusted, j), HintBound(JobStart(trusted, j), target))
  }

  /** That is so for every target clear of 2^32. */
  lemma {:induction false} CursorsFit(trusted: U32, target: U32, jobs: nat)
    requires 8 * jobs < U32_BOUND && target + MAX_CONCURRENT_WS_REQUESTS < U32_BOUND
    ensures HintCursorsFit(trusted, target, jobs)
  {
    hide CursorFits;
    forall j | 0 <= j < jobs
      ensures CursorFits(JobStart(trusted, j), HintBound(JobStart(trusted, j), target))
    {
      CursorBound(JobStart(trusted, j), HintBound(JobStart(trusted, j), target));
    }
  }

  /** The hints of the map jobs, one after the other; None when one of them panics. */
  method FetchWitness(chain: Chain, trusted: U32, target: U32, jobs: nat) returns (r: Option<seq<EncodedHeader>>)
    requires HEADERS_PER_MAP * jobs < U32_BOUND && HintCursorsFit(trusted, target, jobs)
    ensures r.Some? <==> WitnessFits(chain, trusted, target, jobs)
    ensures r.Some? ==> r.value == HintWitness(chain, trusted, target, jobs)
  {
    hide JobFits, JobHint, CursorFits, HintBound;
    var headers: seq<EncodedHeader> := [];
    for j := 0 to jobs
      invariant WitnessFits(chain, trusted, target, j)
      invariant headers == HintWitness(chain, trusted, target, j)
    {
      var start := Add32(trusted, 8 * j + 1);
      assert start == JobStart(trusted, j);
      var hint := HeaderRangeHint(chain, start, Add32(start, HEADERS_PER_MAP - 1), target);
      if hint.None? {
        return None;
      }
      headers := headers + hint.value;
    }
    r := Some(headers);
  }

  // ----- the witness of a chain

  /** The chain's headers after the trusted block up to the target, then empty ones. */
  function ChainWitness(chain: Chain, trusted: U32, target: U32, jobs: nat): (r: seq<EncodedHeader>)
    requires forall b | trusted < b <= target && b <= trusted + 8 * jobs :: Fits(chain, b)
    ensures |r| == 8 * jobs
    ensures forall i | 0 <= i < 8 * jobs :: r[i] == HintHeader(chain, target, trusted + 1 + i)
  {
    seq<EncodedHeader>(8 * jobs, i requires 0 <= i < 8 * jobs => HintHeader(chain, target, trusted + 1 + i))
  }

  /** No job is disturbed by wrap-around: the last one's start does not wrap, and neither does its end,
      unless the job is disabled. */
  predicate Straight(jobs: nat, trusted: U32, target: U32) {
    NoWrap(jobs, trusted) && (trusted + 8 * jobs < U32_BOUND || target < trusted + 8 * jobs - 7)
  }

  /** Then the hints supply the witness of the chain. */
  lemma {:induction false} HintIsChain(chain: Chain, trusted: U32, target: U32, jobs: nat)
    requires 8 * jobs < U32_BOUND && (jobs > 0 ==> Straight(jobs, trusted, target))
    requires forall b | trusted < b <= target && b <= trusted + 8 * jobs :: Fits(chain, b)
    ensures WitnessFits(chain, trusted, target, jobs)
    ensures HintWitness(chain, trusted, target, jobs) == ChainWitness(chain, trusted, target, jobs)
  {
    hide PadHeader, Fits, JobFits, WitnessFits, HintWitness, ChainWitness, JobHint;
    if jobs == 0 {
      NoHints(chain, trusted, target);
    } else {
      var j := jobs - 1;
      HintIsChain(chain, trusted, target, j);
      StraightJob(chain, trusted, target, j);
      FitsNext(chain, trusted, target, j);
      HintNext(chain, trusted, target, j);
      ChainNext(chain, trusted, target, j);
    }
  }

  lemma {:induction false} NoHints(chain: Chain, trusted: U32, target: U32)
    ensures WitnessFits(chain, trusted, target, 0) && HintWitness(chain, trusted, target, 0) == []
  {
  }

  lemma {:induction false} StraightJob(chain: Chain, trusted: U32, target: U32, j: nat)
    requires 8 * (j + 1) < U32_BOUND && Straight(j + 1, trusted, target)
    requires forall b | trusted < b <= target && b <= trusted + 8 * (j + 1) :: Fits(chain, b)
    ensures JobFits(chain, JobStart(trusted, j), target)
    ensures forall i | 0 <= i < 8 ::
              JobHint(chain, JobStart(trusted, j), target)[i] == ChainWitness(chain, trusted, target, j + 1)[8 * j + i]
  {
    hide PadHeader, Fits, ChainWitness, JobHint;
    var start: nat := trusted + 8 * j + 1;
    assert JobStart(trusted, j) == start;
    var hint, all := JobHint(chain, start, target), ChainWitness(chain, trusted, target, j + 1);
    forall i | 0 <= i < 8
      ensures hint[i] == all[8 * j + i]
    {
      assert all[8 * j + i] == HintHeader(chain, target, trusted + 1 + (8 * j + i));
      assert trusted + 1 + (8 * j + i) == start + i;
    }
  }

  lemma {:induction false} ChainNext(chain: Chain, trusted: U32, target: U32, j: nat)
    requires forall b | trusted < b <= target && b <= trusted + 8 * (j + 1) :: Fits(chain, b)
    ensures var all := ChainWitness(chain, trusted, target, j + 1);
            all == ChainWitness(chain, trusted, target, j) + all[8 * j..8 * j + 8]
  {
    hide PadHeader, Fits;
  }

  lemma {:induction false} FitsNext(chain: Chain, trusted: U32, target: U32, j: nat)
    requires 8 * (j + 1) < U32_BOUND && WitnessFits(chain, trusted, target, j)
    requires JobFits(chain, JobStart(trusted, j), target)
    ensures WitnessFits(chain, trusted, target, j + 1)
  {
    hide JobFits;
  }

  lemma {:induction false} HintNext(chain: Chain, trusted: U32, target: U32, j: nat)
    requires 8 * (j + 1) < U32_BOUND && WitnessFits(chain, trusted, target, j + 1)
    ensures WitnessFits(chain, trusted, target, j) && JobFits(chain, JobStart(trusted, j), target)
    ensures HintWitness(chain, trusted, target, j + 1) ==
            HintWitness(chain, trusted, target, j) + JobHint(chain, JobStart(trusted, j), target)
  {
    hide JobFits, JobHint;
  }

  // ----- commitments off chain

  /** The simple commitment: at most 256 leaves, filled up with zero leaves. */
  function RangeRoot(c: Crypto, leaves: seq<Bytes32>): Bytes32
    requires |leaves| <= MAX_NUM_HEADERS
  {
    AllLeavesArePow2();
    MerkleRoot(c, leaves + ZeroLeaves(MAX_NUM_HEADERS - |leaves|))
  }

  lemma {:induction false} AllLeavesArePow2()
    ensures IsPow2(MAX_NUM_HEADERS)
  {
    assert IsPow2(8) && IsPow2(16) && IsPow2(32) && IsPow2(64) && IsPow2(128);
  }

  function HeaderStateRoots(headers: seq<Header>): (r: seq<Bytes32>)
    ensures |r| == |headers| && forall i | 0 <= i < |headers| :: r[i] == headers[i].stateRoot
  {
    seq<Bytes32>(|headers|, i requires 0 <= i < |headers| => headers[i].stateRoot)
  }

  function HeaderDataRoots(headers: seq<Header>): (r: seq<Bytes32>)
    ensures |r| == |headers| && forall i | 0 <= i < |headers| :: r[i] == headers[i].dataRoot
  {
    seq<Bytes32>(|headers|, i requires 0 <= i < |headers| => headers[i].dataRoot)
  }

  datatype Roots = Roots(stateRoot: Bytes32, dataRoot: Bytes32)

  /** The commitments of blocks start + 1, ..., end. */
  function RangeRoots(c: Crypto, chain: Chain, start: U32, end: U32): Roots
    requires start <= end <= start + MAX_NUM_HEADERS
  {
    var headers := Slice(chain, start + 1, end + 1);
    Roots(RangeRoot(c, HeaderStateRoots(headers)), RangeRoot(c, HeaderDataRoots(headers)))
  }

  /** Leaf by leaf: 256 leaves, the roots of blocks start + 1 to end in order, and zeros. */
  lemma {:induction false} RangeRootsExact(c: Crypto, chain: Chain, start: U32, end: U32, states: seq<Bytes32>,
                                           datas: seq<Bytes32>)
    requires start <= end <= start + 256 && |states| == |datas| == 256
    requires forall i | 0 <= i < 256 ::
               && states[i] == (if i < end - start then chain(start + 1 + i).stateRoot else Zeros(32))
               && datas[i] == (if i < end - start then chain(start + 1 + i).dataRoot else Zeros(32))
    ensures IsPow2(256)
    ensures RangeRoots(c, chain, start, end) == Roots(MerkleRoot(c, states), MerkleRoot(c, datas))
  {
    AllLeavesArePow2();
    hide MerkleRoot, IsPow2;
    var headers := Slice(chain, start + 1, end + 1);
    assert HeaderStateRoots(headers) + ZeroLeaves(256 - |headers|) == states;
    assert HeaderDataRoots(headers) + ZeroLeaves(256 - |headers|) == datas;
  }

  /** `get_merkle_root_commitments`; None stands for the panics on a backward or oversized range. */
  method GetMerkleRootCommitments(c: Crypto, chain: Chain, start: U32, end: U32) returns (r: Option<Roots>)
    requires start <= end <= start + MAX_NUM_HEADERS ==> start + 1 < U32_BOUND && CursorFits(start + 1, end)
    ensures r.Some? <==> start <= end <= start + MAX_NUM_HEADERS
    ensures r.Some? ==> r.value == RangeRoots(c, chain, start, end)
  {
    hide MerkleRoot, SimpleRoot, IsPow2, CursorFits;
    if start > end || end - start > MAX_NUM_HEADERS {
      return None;
    }
    var headers := GetBlockHeadersRange(chain, start + 1, end);
    assert headers == Slice(chain, start + 1, end + 1);
    var dataLeaves: seq<Bytes32> := [];
    var stateLeaves: seq<Bytes32> := [];
    for i := 0 to |headers|
      invariant dataLeaves == HeaderDataRoots(headers[..i]) && stateLeaves == HeaderStateRoots(headers[..i])
    {
      RootsNext(headers, i);
      dataLeaves := dataLeaves + [headers[i].dataRoot];
      stateLeaves := stateLeaves + [headers[i].stateRoot];
    }
    assert headers[..|headers|] == headers;
    hide HeaderDataRoots, HeaderStateRoots;
    assert dataLeaves + ZeroLeaves(0) == dataLeaves && stateLeaves + ZeroLeaves(0) == stateLeaves;
    ghost var data, state := dataLeaves, stateLeaves;
    for i := |headers| to MAX_NUM_HEADERS
      invariant dataLeaves == data + ZeroLeaves(i - |headers|) && stateLeaves == state + ZeroLeaves(i - |headers|)
    {
      ZeroLeavesNext(data, i - |headers|);
      ZeroLeavesNext(state, i - |headers|);
      dataLeaves := dataLeaves + [ZERO32];
      stateLeaves := stateLeaves + [ZERO32];
    }
    var stateRoot := GetMerkleRoot(c, stateLeaves);
    var dataRoot := GetMerkleRoot(c, dataLeaves);
    AllLeavesArePow2();
    FullTree(c, stateLeaves);
    FullTree(c, dataLeaves);
    r := Some(Roots(stateRoot.value, dataRoot.value));
  }

  lemma {:induction false} RootsNext(headers: seq<Header>, i: nat)
    requires i < |headers|
    ensures HeaderDataRoots(headers[..i + 1]) == HeaderDataRoots(headers[..i]) + [headers[i].dataRoot]
    ensures HeaderStateRoots(headers[..i + 1]) == HeaderStateRoots(headers[..i]) + [headers[i].stateRoot]
  {
  }

  lemma {:induction false} ZeroLeavesNext(leaves: seq<Bytes32>, n: nat)
    ensures leaves + ZeroLeaves(n) + [ZERO32] == leaves + ZeroLeaves(n + 1)
  {
  }

  // ----- completeness

  /** On a valid chain this witness decodes to the chain's blocks. */
  lemma {:induction false} WitnessDecodes(c: Crypto, chain: Chain, trusted: U32, target: U32, jobs: nat)
    requires trusted < target <= trusted + 8 * jobs && ValidChain(c, chain, trusted, target)
    ensures forall b | trusted < b <= target :: Fits(chain, b)
    ensures var d := DecodeAll(c, ChainWitness(chain, trusted, target, jobs));
            d.Some? && forall i | 0 <= i < target - trusted :: d.value[i] == BlockOf(c, chain(trusted + 1 + i))
  {
    hide DecodeHeader, EncodeHeader;
    assert forall b | trusted < b <= target :: Fits(chain, b);
    var headers := ChainWitness(chain, trusted, target, jobs);
    forall i | 0 <= i < |headers|
      ensures DecodeHeader(c, headers[i]).Some?
      ensures i < target - trusted ==> DecodeHeader(c, headers[i]) == Some(BlockOf(c, chain(trusted + 1 + i)))
    {
      if i < target - trusted {
        HeaderRoundTrip(c, chain(trusted + 1 + i));
      } else {
        EmptyHeaderDecodes(c);
      }
    }
  }

  lemma {:induction false} ChainInPlace(c: Crypto, chain: Chain, trusted: U32, target: U32, blocks: seq<Block>)
    requires trusted < target <= trusted + |blocks| && ValidChain(c, chain, trusted, target)
    requires forall i | 0 <= i < target - trusted :: blocks[i] == BlockOf(c, chain(trusted + 1 + i))
    ensures blocks[0].parentHash == HeaderHash(c, chain(trusted))
    ensures ChainOf(blocks, trusted + 1, target - trusted)
  {
    hide HeaderHash;
    assert ExtendsParent(c, chain, trusted + 1);
    var start := trusted + 1;
    forall i | 0 <= i < target - trusted
      ensures InPlace(blocks, start, i)
    {
      BlockInPlace(c, chain, trusted, target, blocks, i);
    }
  }

  lemma {:induction false} BlockInPlace(c: Crypto, chain: Chain, trusted: U32, target: U32, blocks: seq<Block>, i: nat)
    requires trusted < target <= trusted + |blocks| && ValidChain(c, chain, trusted, target) && i < target - trusted
    requires blocks[i] == BlockOf(c, chain(trusted + 1 + i))
    requires i > 0 ==> blocks[i - 1] == BlockOf(c, chain(trusted + 1 + (i - 1)))
    ensures InPlace(blocks, trusted + 1, i)
  {
    hide HeaderHash;
    assert ExtendsParent(c, chain, trusted + 1 + i);
    assert Fits(chain, trusted + 1 + i);
  }

  /** Masking the roots of a witness leaves the roots of the range and zero leaves. */
  lemma {:induction false} WitnessRoots(c: Crypto, chain: Chain, trusted: U32, target: U32, blocks: seq<Block>)
    requires |blocks| == MAX_NUM_HEADERS && trusted < target <= trusted + |blocks|
    requires forall i | 0 <= i < target - trusted :: blocks[i] == BlockOf(c, chain(trusted + 1 + i))
    ensures IsPow2(|blocks|)
    ensures RangeRoots(c, chain, trusted, target) ==
            Roots(MerkleRoot(c, Masked(StateRoots(blocks), target - trusted)),
                  MerkleRoot(c, Masked(DataRoots(blocks), target - trusted)))
  {
    hide MerkleRoot, HeaderHash;
    AllLeavesArePow2();
    var headers, n := Slice(chain, trusted + 1, target + 1), target - trusted;
    assert Masked(StateRoots(blocks), n) == HeaderStateRoots(headers) + ZeroLeaves(MAX_NUM_HEADERS - n);
    assert Masked(DataRoots(blocks), n) == HeaderDataRoots(headers) + ZeroLeaves(MAX_NUM_HEADERS - n);
  }

  /** The witness of a valid chain passes every assertion exactly when the last job's start block does
      not wrap around. */
  lemma {:induction false} WitnessAccepted(c: Crypto, chain: Chain, trusted: U32, target: U32, jobs: nat)
    requires IsPow2(jobs) && jobs <= 0x800_0000
    requires trusted < target <= trusted + 8 * jobs && ValidChain(c, chain, trusted, target)
    ensures forall b | trusted < b <= target :: Fits(chain, b)
    ensures var r := SubchainResult(c, jobs, trusted, HeaderHash(c, chain(trusted)), target,
                                    ChainWitness(chain, trusted, target, jobs));
            && (r.Some? <==> NoWrap(jobs, trusted))
            && (r.Some? ==> r.value.targetHeaderHash == HeaderHash(c, chain(target)))
  {
    WitnessDecodes(c, chain, trusted, target, jobs);
    hide DecodeAll, SubchainResult, ValidChain, ChainOf, HeaderHash, ChainWitness, MerkleRoot, IsPow2;
    var headers := ChainWitness(chain, trusted, target, jobs);
    var blocks := DecodeAll(c, headers).value;
    ChainInPlace(c, chain, trusted, target, blocks);
    SubchainExact(c, jobs, trusted, HeaderHash(c, chain(trusted)), target, headers);
    assert blocks[target - trusted - 1] == BlockOf(c, chain(trusted + 1 + (target - trusted - 1)));
  }

  /** Completeness: on a valid chain the hints of all jobs succeed and pass every assertion exactly when
      the last job's start does not wrap around, and neither does its end, unless the job is disabled. */
  lemma {:induction false} SubchainComplete(c: Crypto, chain: Chain, trusted: U32, target: U32, jobs: nat)
    requires IsPow2(jobs) && jobs <= 0x800_0000
    requires trusted < target <= trusted + 8 * jobs && ValidChain(c, chain, trusted, target)
    ensures HintsAccepted(c, chain, trusted, target, jobs) <==> Straight(jobs, trusted, target)
    ensures Straight(jobs, trusted, target) ==>
              SubchainResult(c, jobs, trusted, HeaderHash(c, chain(trusted)), target,
                             HintWitness(chain, trusted, target, jobs))
              .value.targetHeaderHash == HeaderHash(c, chain(target))
  {
    ChainFits(c, chain, trusted, target);
    hide SubchainResult, ValidChain, HeaderHash, HintWitness, ChainWitness, WitnessFits, IsPow2, Fits;
    if Straight(jobs, trusted, target) {
      HintIsChain(chain, trusted, target, jobs);
      WitnessAccepted(c, chain, trusted, target, jobs);
    } else if WitnessFits(chain, trusted, target, jobs) {
      CrookedRejected(c, chain, trusted, target, jobs, HeaderHash(c, chain(trusted)));
    }
  }

  /** The hints of all jobs succeed, and the verifier accepts them. */
  ghost predicate HintsAccepted(c: Crypto, chain: Chain, trusted: U32, target: U32, jobs: nat)
    requires IsPow2(jobs) && 8 * jobs < U32_BOUND
  {
    && WitnessFits(chain, trusted, target, jobs)
    && SubchainResult(c, jobs, trusted, HeaderHash(c, chain(trusted)), target,
                      HintWitness(chain, trusted, target, jobs)).Some?
  }

  lemma {:induction false} ChainFits(c: Crypto, chain: Chain, trusted: U32, target: U32)
    requires ValidChain(c, chain, trusted, target)
    ensures forall b | trusted < b <= target :: Fits(chain, b)
  {
    hide Fits;
  }

  /** When the last job is enabled and its end wraps around, its hint is empty headers only. */
  lemma {:induction false} CrookedRejected(c: Crypto, chain: Chain, trusted: U32, target: U32, jobs: nat,
                                           trustedHash: Bytes32)
    requires IsPow2(jobs) && jobs <= 0x800_0000 && trusted < target
    requires !Straight(jobs, trusted, target) && WitnessFits(chain, trusted, target, jobs)
    ensures SubchainResult(c, jobs, trusted, trustedHash, target, HintWitness(chain, trusted, target, jobs)).None?
  {
    hide WitnessFits, HintWitness, IsPow2, SubchainResult, DecodeHeader, MerkleRoot, JobFits;
    var headers := HintWitness(chain, trusted, target, jobs);
    SubchainExact(c, jobs, trusted, trustedHash, target, headers);
    var d := DecodeAll(c, headers);
    if d.Some? && NoWrap(jobs, trusted) {
      var i, start := 8 * (jobs - 1), JobStart(trusted, jobs - 1);
      HintNext(chain, trusted, target, jobs - 1);
      assert headers[i] == JobHint(chain, start, target)[0] == EMPTY_HEADER;
      EmptyHeaderDecodes(c);
      assert d.value[i].number == 0;
      assert Accepted(jobs, trusted, trustedHash, target, d.value) ==> InPlace(d.value, trusted + 1, i);
    }
  }

  /** The fast tree equals the simple tree: with 256 headers, the roots the circuit returns for the
      witness of the chain, which the hints supply, are the ones computed off chain from a flat
      list. */
  lemma {:induction false} FastTreeIsSimpleTree(c: Crypto, chain: Chain, trusted: U32, target: U32)
    requires trusted < target <= trusted + MAX_NUM_HEADERS && ValidChain(c, chain, trusted, target)
    requires NoWrap(32, trusted)
    ensures forall b | trusted < b <= target :: Fits(chain, b)
    ensures IsPow2(32)
    ensures var roots := RangeRoots(c, chain, trusted, target);
            SubchainResult(c, 32, trusted, HeaderHash(c, chain(trusted)), target,
                           ChainWitness(chain, trusted, target, 32))
            == Some(Commitment(HeaderHash(c, chain(target)), roots.stateRoot, roots.dataRoot))
    ensures Straight(32, trusted, target) ==>
              WitnessFits(chain, trusted, target, 32)
              && HintWitness(chain, trusted, target, 32) == ChainWitness(chain, trusted, target, 32)
  {
    assert IsPow2(8) && IsPow2(16) && IsPow2(32);
    WitnessAccepted(c, chain, trusted, target, 32);
    WitnessDecodes(c, chain, trusted, target, 32);
    hide DecodeAll, SubchainResult, ValidChain, ChainOf, HeaderHash, ChainWitness, HintWitness, WitnessFits, MerkleRoot,
         IsPow2, RangeRoots, Accepted, Fits;
    if Straight(32, trusted, target) {
      HintIsChain(chain, trusted, target, 32);
    }
    var headers, hash := ChainWitness(chain, trusted, target, 32), HeaderHash(c, chain(trusted));
    AcceptedWitness(c, 32, trusted, hash, target, headers, SubchainResult(c, 32, trusted, hash, target, headers).value);
    WitnessRoots(c, chain, trusted, target, DecodeAll(c, headers).value);
  }

  lemma {:induction false} WitnessIsCovered(chain: Chain, trusted: U32, target: U32, jobs: nat)
    requires forall b | trusted < b <= target :: Fits(chain, b)
    ensures forall i | 0 <= i < 8 * jobs && i < target - trusted ::
              FieldsCovered(ChainWitness(chain, trusted, target, jobs)[i])
  {
    hide EncodeHeader, PadHeader, FieldsCovered;
    var headers := ChainWitness(chain, trusted, target, jobs);
    forall i | 0 <= i < 8 * jobs && i < target - trusted
      ensures FieldsCovered(headers[i])
    {
      assert Fits(chain, trusted + 1 + i) && headers[i] == HintHeader(chain, target, trusted + 1 + i);
      ChainHeaderCovered(chain(trusted + 1 + i));
    }
  }

  lemma {:induction false} CoveredWitness(hs: seq<EncodedHeader>, gs: seq<EncodedHeader>, n: nat)
    requires n <= |hs| == |gs| && forall i | 0 <= i < |gs| && i < n :: FieldsCovered(gs[i])
    ensures AllComparable(hs, gs, n)
  {
    hide FieldsCovered;
  }

  /** No other witness says anything else: whatever headers pass, once the returned hash is the chain's,
      so is the trusted hash, and the roots are the ones computed off chain, unless one of the
      headers collides with the chain's. */
  lemma {:induction false} AcceptedIsOffChain(c: Crypto, chain: Chain, trusted: U32, trustedHash: Bytes32, target: U32,
                                              headers: seq<EncodedHeader>, r: Commitment)
    requires IsPow2(32) && |headers| == MAX_NUM_HEADERS && trusted < target
    requires SubchainResult(c, 32, trusted, trustedHash, target, headers) == Some(r)
    requires ValidChain(c, chain, trusted, target) && r.targetHeaderHash == HeaderHash(c, chain(target))
    ensures target <= trusted + MAX_NUM_HEADERS
    ensures forall b | trusted < b <= target :: Fits(chain, b)
    ensures var roots := RangeRoots(c, chain, trusted, target);
            || SomeCollide(c, headers, ChainWitness(chain, trusted, target, 32), target - trusted)
            || (&& trustedHash == HeaderHash(c, chain(trusted))
                && r == Commitment(HeaderHash(c, chain(target)), roots.stateRoot, roots.dataRoot))
  {
    hide DecodeAll, SubchainResult, ValidChain, HeaderHash, ChainWitness, MerkleRoot, RangeRoots, IsPow2, FieldsCovered,
         AllComparable, AllPadded, SomeCollide, SameContents, ChainOf, Fits;
    AcceptedWitness(c, 32, trusted, trustedHash, target, headers, r);
    FastTreeIsSimpleTree(c, chain, trusted, target);
    WitnessIsCovered(chain, trusted, target, 32);
    CoveredWitness(headers, ChainWitness(chain, trusted, target, 32), target - trusted);
    var hints, hash := ChainWitness(chain, trusted, target, 32), HeaderHash(c, chain(trusted));
    SubchainUnique(c, 32, trusted, trustedHash, hash, target, headers, hints, r,
                   SubchainResult(c, 32, trusted, hash, target, hints).value);
  }
}
