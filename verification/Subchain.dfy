/** The subchain verifier (circuits/builder/subchain_verification.rs): untrusted headers are
    checked in batches of eight and the batches are reduced in pairs. */
module Subchain {
  import opened Basics
  import opened Headers
  import opened Trees

  const HEADERS_PER_MAP: nat := 8

  // ----- job count

  /** Least power of two of batches that hold maxHeaders headers; the circuit refuses to be
      built with fewer than two. */
  function NumMapJobs(maxHeaders: nat): (r: Option<nat>)
    ensures r.None? <==> maxHeaders <= HEADERS_PER_MAP
    ensures r.Some? ==> IsPow2(r.value) && r.value >= 2 && maxHeaders <= HEADERS_PER_MAP * r.value
    ensures r.Some? ==> forall q: nat | q < r.value && IsPow2(q) :: HEADERS_PER_MAP * q < maxHeaders
  {
    var batches := maxHeaders / HEADERS_PER_MAP + if maxHeaders % HEADERS_PER_MAP != 0 then 1 else 0;
    if batches < 2 then None else Some(NextPow2(batches))
  }

  // ----- map stage

  /** What a batch, or a pair of reduced batches, reports. */
  datatype Segment = Segment(
    numBlocks: nat, startBlock: U32, startHeaderHash: Bytes32, startParent: Bytes32,
    endBlock: U32, endHeaderHash: Bytes32, stateRoot: Bytes32, dataRoot: Bytes32)

  /** All headers decoded, or None if an assertion of a decoder fails. */
  function DecodeAll(c: Crypto, headers: seq<EncodedHeader>): (r: Option<seq<Block>>)
    ensures r.Some? <==> forall i | 0 <= i < |headers| :: DecodeHeader(c, headers[i]).Some?
    ensures r.Some? ==> |r.value| == |headers|
    ensures r.Some? ==> forall i | 0 <= i < |headers| :: DecodeHeader(c, headers[i]) == Some(r.value[i])
  {
    if headers == [] then Some([])
    else
      var init := DecodeAll(c, headers[..|headers| - 1]);
      var last := DecodeHeader(c, headers[|headers| - 1]);
      if init.None? || last.None? then None else Some(init.value + [last.value])
  }

  lemma {:induction false} DecodePrefix(c: Crypto, headers: seq<EncodedHeader>, i: nat)
    requires i < |headers|
    ensures DecodeHeader(c, headers[i]).None? ==> DecodeAll(c, headers).None?
    ensures DecodeAll(c, headers[..i]).Some? && DecodeHeader(c, headers[i]).Some? ==>
              DecodeAll(c, headers[..i + 1]) ==
              Some(DecodeAll(c, headers[..i]).value + [DecodeHeader(c, headers[i]).value])
  {
    assert headers[..i + 1][..i] == headers[..i];
  }

  lemma {:induction false} BatchIsPow2()
    ensures IsPow2(HEADERS_PER_MAP)
  {
  }

  function StateRoots(blocks: seq<Block>): (r: seq<Bytes32>)
    ensures |r| == |blocks| && forall i | 0 <= i < |blocks| :: r[i] == blocks[i].stateRoot
  {
    seq(|blocks|, i requires 0 <= i < |blocks| => blocks[i].stateRoot)
  }

  function DataRoots(blocks: seq<Block>): (r: seq<Bytes32>)
    ensures |r| == |blocks| && forall i | 0 <= i < |blocks| :: r[i] == blocks[i].dataRoot
  {
    seq(|blocks|, i requires 0 <= i < |blocks| => blocks[i].dataRoot)
  }

  /** How many blocks come up to and including the first one numbered target. */
  function LiveCount(blocks: seq<Block>, target: U32): (n: nat)
    ensures n <= |blocks|
    ensures forall i | 0 <= i < n - 1 :: blocks[i].number != target
    ensures n < |blocks| ==> n > 0 && blocks[n - 1].number == target
  {
    if blocks == [] then 0
    else if blocks[0].number == target then 1
    else 1 + LiveCount(blocks[1..], target)
  }

  lemma {:induction false} LiveCountIs(blocks: seq<Block>, target: U32, n: nat)
    requires n <= |blocks|
    requires forall i | 0 <= i < n - 1 :: blocks[i].number != target
    requires n < |blocks| ==> n > 0 && blocks[n - 1].number == target
    ensures LiveCount(blocks, target) == n
  {
    if n <= 1 {
    } else {
      LiveCountIs(blocks[1..], target, n - 1);
    }
  }

  /** Parent hash and block number follow on from the block before. */
  predicate Linked(prev: Block, next: Block) {
    next.parentHash == prev.hash && next.number == Add32(prev.number, 1)
  }

  ghost predicate LinkedAt(blocks: seq<Block>, j: int)
    requires 0 < j < |blocks|
  {
    Linked(blocks[j - 1], blocks[j])
  }

  ghost predicate AllLinked(blocks: seq<Block>, n: nat)
    requires n <= |blocks|
  {
    forall j | 0 < j < n :: LinkedAt(blocks, j)
  }

  lemma {:induction false} AllLinkedNext(blocks: seq<Block>, b: Block, n: nat)
    requires n <= |blocks|
    ensures AllLinked(blocks + [b], n) <==> AllLinked(blocks, n)
    ensures n == |blocks| > 0 ==>
              (AllLinked(blocks + [b], n + 1) <==> AllLinked(blocks, n) && Linked(blocks[n - 1], b))
    ensures n == 0 ==> AllLinked(blocks + [b], 1)
  {
    forall j | 0 < j < |blocks|
      ensures LinkedAt(blocks + [b], j) <==> LinkedAt(blocks, j)
    {
    }
    if n == |blocks| > 0 {
      assert LinkedAt(blocks + [b], n) <==> Linked(blocks[n - 1], b);
    }
  }

  /** The outcome of a map job on decoded blocks, read off the loop below. */
  ghost function BatchResult(c: Crypto, blocks: seq<Block>, start: U32, end: U32, target: U32): Option<Segment>
    requires |blocks| == HEADERS_PER_MAP
  {
    var disabled := target < start;
    var n := if disabled then 0 else LiveCount(blocks, target);
    var endBlock := if n == 0 then 0 else blocks[n - 1].number;
    if && AllLinked(blocks, n)
       && (disabled || blocks[0].number == start)
       && (disabled || blocks[n - 1].number == target || endBlock == end)
    then Some(Segment(
      n, blocks[0].number, blocks[0].hash, blocks[0].parentHash,
      endBlock, if n == 0 then ZERO32 else blocks[n - 1].hash,
      RootFromHashedLeaves(c, StateRoots(blocks), n),
      RootFromHashedLeaves(c, DataRoots(blocks), n)))
    else None
  }

  /** The variables of the map job's loop. */
  datatype Scan = Scan(blocks: seq<Block>, numHeaders: nat, noop: bool, endBlock: U32, endHeaderHash: Bytes32,
                       linksOk: bool)

  /** What they hold after the given blocks. */
  ghost predicate Scanned(s: Scan, target: U32, disabled: bool) {
    && s.numHeaders == (if disabled then 0 else LiveCount(s.blocks, target))
    && (s.blocks != [] && !disabled ==> s.numHeaders > 0)
    && (s.noop <==> disabled || (s.numHeaders > 0 && s.blocks[s.numHeaders - 1].number == target))
    && s.endBlock == (if s.numHeaders == 0 then 0 else s.blocks[s.numHeaders - 1].number)
    && s.endHeaderHash == (if s.numHeaders == 0 then ZERO32 else s.blocks[s.numHeaders - 1].hash)
    && (s.linksOk <==> AllLinked(s.blocks, s.numHeaders))
  }

  /** One turn of the loop: each variable is selected by the no-op flag, which is raised once the
      target has been seen. */
  function NextScan(s: Scan, b: Block, target: U32): Scan {
    Scan(
      s.blocks + [b],
      s.numHeaders + if s.noop then 0 else 1,
      s.noop || b.number == target,
      if s.noop then s.endBlock else b.number,
      if s.noop then s.endHeaderHash else b.hash,
      s.linksOk && (s.blocks == [] || s.noop || Linked(s.blocks[|s.blocks| - 1], b)))
  }

  lemma {:induction false} NextScanKeeps(s: Scan, b: Block, target: U32, disabled: bool)
    requires Scanned(s, target, disabled)
    ensures Scanned(NextScan(s, b, target), target, disabled)
  {
    AllLinkedNext(s.blocks, b, s.numHeaders);
    if s.noop {
      if !disabled {
        LiveCountIs(s.blocks + [b], target, s.numHeaders);
      }
    } else {
      assert s.numHeaders == |s.blocks|;
      LiveCountIs(s.blocks + [b], target, s.numHeaders + 1);
    }
  }

  /** The loop over a batch; None when a header does not decode. */
  method ScanBatch(c: Crypto, target: U32, batchDisabled: bool, headers: seq<EncodedHeader>) returns (r: Option<Scan>)
    ensures r.None? <==> DecodeAll(c, headers).None?
    ensures r.Some? ==> DecodeAll(c, headers) == Some(r.value.blocks) && Scanned(r.value, target, batchDisabled)
  {
    hide DecodeHeader, DecodeAll, Linked, LiveCount;
    var s := Scan([], 0, batchDisabled, 0, ZERO32, true);
    for i := 0 to |headers|
      invariant DecodeAll(c, headers[..i]) == Some(s.blocks)
      invariant Scanned(s, target, batchDisabled)
    {
      var decoded := DecodeHeader(c, headers[i]);
      DecodePrefix(c, headers, i);
      if decoded.None? {
        return None;
      }
      NextScanKeeps(s, decoded.value, target, batchDisabled);
      s := NextScan(s, decoded.value, target);
    }
    assert headers[..|headers|] == headers;
    r := Some(s);
  }

  /** The map job, on the headers the hint supplied for blocks start..end. */
  method MapJob(c: Crypto, start: U32, end: U32, target: U32, headers: seq<EncodedHeader>)
    returns (r: Option<Segment>)
    requires |headers| == HEADERS_PER_MAP
    ensures r == var d := DecodeAll(c, headers);
                 if d.None? then None else BatchResult(c, d.value, start, end, target)
  {
    hide DecodeAll, DecodeHeader, RootFromHashedLeaves;
    var batchDisabled := target < start;
    var scan := ScanBatch(c, target, batchDisabled, headers);
    if scan.None? {
      return None;
    }
    var s := scan.value;
    var firstOk := s.blocks[0].number == start || batchDisabled;
    var lastOk := s.endBlock == end || s.noop;
    if !s.linksOk || !firstOk || !lastOk {
      return None;
    }
    BatchIsPow2();
    r := Some(Segment(
      s.numHeaders, s.blocks[0].number, s.blocks[0].hash, s.blocks[0].parentHash, s.endBlock, s.endHeaderHash,
      RootFromHashedLeaves(c, StateRoots(s.blocks), s.numHeaders),
      RootFromHashedLeaves(c, DataRoots(s.blocks), s.numHeaders)));
  }

  // ----- reduce stage

  /** Joins neighbouring segments; None when the link assertion fails. */
  function Join(c: Crypto, left: Segment, right: Segment): Option<Segment> {
    var linked := left.endHeaderHash == right.startParent && left.endBlock == Sub32(right.startBlock, 1);
    var rightInactive := right.numBlocks == 0;
    if !rightInactive && !linked then None
    else Some(Segment(
      left.numBlocks + right.numBlocks, left.startBlock, left.startHeaderHash, left.startParent,
      if rightInactive then left.endBlock else right.endBlock,
      if rightInactive then left.endHeaderHash else right.endHeaderHash,
      c.sha256(left.stateRoot + right.stateRoot),
      c.sha256(left.dataRoot + right.dataRoot)))
  }

  /** Join on segments of which some assertion may have failed. */
  function JoinOp(c: Crypto): (Option<Segment>, Option<Segment>) -> Option<Segment> {
    (l: Option<Segment>, r: Option<Segment>) => JoinOptions(c, l, r)
  }

  function JoinOptions(c: Crypto, l: Option<Segment>, r: Option<Segment>): Option<Segment> {
    if l.None? || r.None? then None else Join(c, l.value, r.value)
  }

  // ----- the whole circuit

  datatype Commitment = Commitment(targetHeaderHash: Bytes32, stateRoot: Bytes32, dataRoot: Bytes32)

  /** Map job j on its eight blocks. */
  ghost function JobResult(c: Crypto, trusted: U32, target: U32, blocks: seq<Block>, j: nat): Option<Segment>
    requires 8 * j + 8 <= |blocks| < U32_BOUND
  {
    BatchResult(c, blocks[8 * j..8 * j + 8], Add32(trusted, 8 * j + 1), Add32(trusted, 8 * j + 8), target)
  }

  ghost function JobResults(c: Crypto, trusted: U32, target: U32, blocks: seq<Block>,
                            jobs: nat): (r: seq<Option<Segment>>)
    requires 8 * jobs <= |blocks| < U32_BOUND
    ensures |r| == jobs
    ensures forall j | 0 <= j < jobs :: r[j] == JobResult(c, trusted, target, blocks, j)
  {
    seq(jobs, j requires 0 <= j < jobs => JobResult(c, trusted, target, blocks, j))
  }

  /** The final assertions on the reduced segment. */
  function Conclude(trustedHash: Bytes32, target: U32, root: Option<Segment>): Option<Commitment> {
    if root.Some? && trustedHash == root.value.startParent && target == root.value.endBlock
    then Some(Commitment(root.value.endHeaderHash, root.value.stateRoot, root.value.dataRoot))
    else None
  }

  /** `verify_subchain` on decoded headers. */
  ghost function BlocksResult(c: Crypto, jobs: nat, trusted: U32, trustedHash: Bytes32, target: U32,
                              blocks: seq<Block>): Option<Commitment>
    requires IsPow2(jobs) && |blocks| == 8 * jobs < U32_BOUND
  {
    Conclude(trustedHash, target, LevelFold(JoinOp(c), JobResults(c, trusted, target, blocks, jobs)))
  }

  /** `verify_subchain` on a witness of 8 * jobs headers: None when any assertion fails. */
  ghost function SubchainResult(c: Crypto, jobs: nat, trusted: U32, trustedHash: Bytes32, target: U32,
                                headers: seq<EncodedHeader>): Option<Commitment>
    requires IsPow2(jobs) && |headers| == 8 * jobs < U32_BOUND
  {
    var d := DecodeAll(c, headers);
    if d.None? then None else BlocksResult(c, jobs, trusted, trustedHash, target, d.value)
  }

  /** One failed job fails the reduction. */
  lemma {:induction false} FailurePropagates(c: Crypto, segments: seq<Option<Segment>>, j: nat)
    requires IsPow2(|segments|) && j < |segments| && segments[j].None?
    ensures TreeFold(JoinOp(c), segments).None?
    decreases |segments|
  {
    if |segments| == 1 {
    } else {
      var h := |segments| / 2;
      if j < h {
        FailurePropagates(c, segments[..h], j);
      } else {
        FailurePropagates(c, segments[h..], j - h);
      }
    }
  }

  lemma {:induction false} FailedJob(c: Crypto, jobs: nat, trusted: U32, trustedHash: Bytes32, target: U32,
                                     blocks: seq<Block>, j: nat)
    requires IsPow2(jobs) && |blocks| == 8 * jobs < U32_BOUND && j < jobs
    requires JobResult(c, trusted, target, blocks, j).None?
    ensures BlocksResult(c, jobs, trusted, trustedHash, target, blocks).None?
  {
    var segments := JobResults(c, trusted, target, blocks, jobs);
    LevelFoldIsTreeFold(JoinOp(c), segments);
    FailurePropagates(c, segments, j);
  }

  lemma {:induction false} DecodeChunk(c: Crypto, headers: seq<EncodedHeader>, lo: nat, hi: nat)
    requires lo <= hi <= |headers|
    ensures DecodeAll(c, headers).Some? ==>
              DecodeAll(c, headers[lo..hi]) == Some(DecodeAll(c, headers).value[lo..hi])
  {
    var d := DecodeAll(c, headers);
    if d.Some? {
      forall i | 0 <= i < hi - lo
        ensures DecodeHeader(c, headers[lo..hi][i]) == Some(d.value[lo..hi][i])
      {
        assert headers[lo..hi][i] == headers[lo + i];
      }
      assert DecodeAll(c, headers[lo..hi]).value == d.value[lo..hi];
    }
  }

  lemma {:induction false} DecodeConcat(c: Crypto, a: seq<EncodedHeader>, b: seq<EncodedHeader>, x: seq<Block>,
                                        y: seq<Block>)
    requires DecodeAll(c, a) == Some(x) && DecodeAll(c, b) == Some(y)
    ensures DecodeAll(c, a + b) == Some(x + y)
  {
    hide DecodeHeader;
    forall i | 0 <= i < |a + b|
      ensures DecodeHeader(c, (a + b)[i]) == Some((x + y)[i])
    {
      assert (a + b)[i] == if i < |a| then a[i] else b[i - |a|];
    }
    assert DecodeAll(c, a + b).Some?;
    assert DecodeAll(c, a + b).value == x + y;
  }

  lemma {:induction false} JobOfPrefix(c: Crypto, trusted: U32, target: U32, a: seq<Block>, b: seq<Block>, j: nat)
    requires 8 * j + 8 <= |a| && |a + b| < U32_BOUND
    ensures JobResult(c, trusted, target, a + b, j) == JobResult(c, trusted, target, a, j)
  {
    hide BatchResult;
    assert (a + b)[8 * j..8 * j + 8] == a[8 * j..8 * j + 8];
  }

  /** The job after the blocks of the jobs before. */
  lemma {:induction false} JobAfter(c: Crypto, trusted: U32, target: U32, blocks: seq<Block>, chunk: seq<Block>, j: nat)
    requires |blocks| == 8 * j && |chunk| == 8 && 8 * j + 8 < U32_BOUND
    ensures JobResults(c, trusted, target, blocks + chunk, j + 1) ==
            JobResults(c, trusted, target, blocks, j) +
            [BatchResult(c, chunk, Add32(trusted, 8 * j + 1), Add32(trusted, 8 * j + 8), target)]
  {
    hide BatchResult;
    assert (blocks + chunk)[8 * j..8 * j + 8] == chunk;
    assert JobResult(c, trusted, target, blocks + chunk, j) ==
           BatchResult(c, chunk, Add32(trusted, 8 * j + 1), Add32(trusted, 8 * j + 8), target);
    hide JobResult;
    forall i | 0 <= i < j
      ensures JobResult(c, trusted, target, blocks + chunk, i) == JobResult(c, trusted, target, blocks, i)
    {
      JobOfPrefix(c, trusted, target, blocks, chunk, i);
    }
  }

  lemma {:induction false} NextJob(c: Crypto, trusted: U32, target: U32, headers: seq<EncodedHeader>, j: nat,
                                   blocks: seq<Block>, chunk: seq<Block>)
    requires 8 * j + 8 <= |headers| < U32_BOUND
    requires DecodeAll(c, headers[..8 * j]) == Some(blocks)
    requires DecodeAll(c, headers[8 * j..8 * j + 8]) == Some(chunk)
    ensures DecodeAll(c, headers[..8 * j + 8]) == Some(blocks + chunk)
    ensures JobResults(c, trusted, target, blocks + chunk, j + 1) ==
            JobResults(c, trusted, target, blocks, j) +
            [BatchResult(c, chunk, Add32(trusted, 8 * j + 1), Add32(trusted, 8 * j + 8), target)]
  {
    hide DecodeAll, BatchResult;
    DecodeConcat(c, headers[..8 * j], headers[8 * j..8 * j + 8], blocks, chunk);
    assert headers[..8 * j] + headers[8 * j..8 * j + 8] == headers[..8 * j + 8];
    JobAfter(c, trusted, target, blocks, chunk, j);
  }

  lemma {:induction false} JobFails(c: Crypto, jobs: nat, trusted: U32, trustedHash: Bytes32, target: U32,
                                    headers: seq<EncodedHeader>, j: nat)
    requires IsPow2(jobs) && |headers| == 8 * jobs < U32_BOUND && j < jobs
    requires var d := DecodeAll(c, headers[8 * j..8 * j + 8]);
             d.Some? ==> BatchResult(c, d.value, Add32(trusted, 8 * j + 1), Add32(trusted, 8 * j + 8), target).None?
    ensures SubchainResult(c, jobs, trusted, trustedHash, target, headers).None?
  {
    hide DecodeAll, BatchResult, BlocksResult;
    DecodeChunk(c, headers, 8 * j, 8 * j + 8);
    if DecodeAll(c, headers).Some? {
      FailedJob(c, jobs, trusted, trustedHash, target, DecodeAll(c, headers).value, j);
    }
  }

  method VerifySubchain(c: Crypto, jobs: nat, trusted: U32, trustedHash: Bytes32, target: U32,
                        headers: seq<EncodedHeader>)
    returns (r: Option<Commitment>)
    requires IsPow2(jobs) && |headers| == HEADERS_PER_MAP * jobs < U32_BOUND
    ensures r == SubchainResult(c, jobs, trusted, trustedHash, target, headers)
  {
    hide DecodeAll, BatchResult, JobResult, JobResults;
    assert headers[..0] == [] && DecodeAll(c, headers[..0]) == Some([]) && JobResults(c, trusted, target, [], 0) == [];
    var segments: seq<Option<Segment>> := [];
    ghost var blocks: seq<Block> := [];
    for j := 0 to jobs
      invariant |blocks| == 8 * j && DecodeAll(c, headers[..8 * j]) == Some(blocks)
      invariant segments == JobResults(c, trusted, target, blocks, j)
    {
      var batch := headers[8 * j..8 * j + 8];
      var segment := MapJob(c, Add32(trusted, 8 * j + 1), Add32(trusted, 8 * j + 8), target, batch);
      if segment.None? {
        JobFails(c, jobs, trusted, trustedHash, target, headers, j);
        return None;
      }
      NextJob(c, trusted, target, headers, j, blocks, DecodeAll(c, batch).value);
      blocks := blocks + DecodeAll(c, batch).value;
      segments := segments + [segment];
    }
    assert headers[..8 * jobs] == headers;
    r := Conclude(trustedHash, target, LevelFold(JoinOp(c), segments));
  }
}
