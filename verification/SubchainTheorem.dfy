/** What the subchain verifier accepts, exactly, and what follows: soundness, completeness,
    uniqueness. None of these appears in the circuit, which only checks batches, joins and
    two final equalities. */
module SubchainTheorem {
  import opened Basics
  import opened Headers
  import opened Trees
  import opened Subchain

  // ----- the global property

  /** How many of `length` blocks numbered from `start` are not past `target`. */
  function Clamp(start: nat, target: U32, length: nat): (n: nat)
    ensures n <= length
  {
    if target < start then 0 else Min(target - start + 1, length)
  }

  /** Block i carries number start + i, and from the second one on names the hash before it. */
  ghost predicate InPlace(blocks: seq<Block>, start: nat, i: int)
    requires 0 <= i < |blocks|
  {
    && blocks[i].number == start + i
    && (i > 0 ==> blocks[i].parentHash == blocks[i - 1].hash)
  }

  /** The first n blocks form one linked chain numbered start, start + 1, ... */
  ghost predicate ChainOf(blocks: seq<Block>, start: nat, n: nat)
    requires n <= |blocks|
  {
    forall i | 0 <= i < n :: InPlace(blocks, start, i)
  }

  /** The segment that stands for blocks numbered from start, cut off at target. */
  ghost function Summary(c: Crypto, blocks: seq<Block>, start: nat, target: U32): Option<Segment>
    requires IsPow2(|blocks|)
  {
    SummaryOf(c, blocks, start, Clamp(start, target, |blocks|))
  }

  ghost function SummaryOf(c: Crypto, blocks: seq<Block>, start: nat, n: nat): Option<Segment>
    requires IsPow2(|blocks|) && n <= |blocks|
  {
    if ChainOf(blocks, start, n) then Some(Report(c, blocks, n)) else None
  }

  /** What is reported of blocks of which the first n are live. */
  ghost function Report(c: Crypto, blocks: seq<Block>, n: nat): Segment
    requires IsPow2(|blocks|) && n <= |blocks|
  {
    Ends(blocks, n, MerkleRoot(c, Masked(StateRoots(blocks), n)), MerkleRoot(c, Masked(DataRoots(blocks), n)))
  }

  ghost function Ends(blocks: seq<Block>, n: nat, stateRoot: Bytes32, dataRoot: Bytes32): Segment
    requires 0 < |blocks| && n <= |blocks|
  {
    Segment(
      n, blocks[0].number, blocks[0].hash, blocks[0].parentHash,
      if n == 0 then 0 else blocks[n - 1].number,
      if n == 0 then ZERO32 else blocks[n - 1].hash,
      stateRoot, dataRoot)
  }

  // ----- batches

  /** A batch whose first n blocks are linked from its start, none before the last being the
      target, is numbered in sequence without wrap-around. */
  lemma {:induction false} LinkedMeansInPlace(blocks: seq<Block>, start: U32, target: U32, n: nat, i: nat)
    requires i < n <= |blocks|
    requires blocks[0].number == start <= target
    requires AllLinked(blocks, n)
    requires forall j | 0 <= j < n - 1 :: blocks[j].number != target
    ensures InPlace(blocks, start, i) && start + i <= target
  {
    if i == 0 {
    } else {
      LinkedMeansInPlace(blocks, start, target, n, i - 1);
      assert LinkedAt(blocks, i);
    }
  }

  lemma {:induction false} ChainMeansLinked(blocks: seq<Block>, start: U32, n: nat)
    requires n <= |blocks| && ChainOf(blocks, start, n)
    ensures AllLinked(blocks, n)
  {
    forall j | 0 < j < n
      ensures LinkedAt(blocks, j)
    {
      assert InPlace(blocks, start, j - 1) && InPlace(blocks, start, j);
    }
  }

  /** The conditions a batch is accepted under say that its live blocks are in place. */
  lemma {:induction false} BatchCondition(blocks: seq<Block>, start: U32, end: U32, target: U32)
    requires |blocks| == HEADERS_PER_MAP && end == Add32(start, 7) && start <= target
    ensures var k, n := LiveCount(blocks, target), Clamp(start, target, 8);
            && (AllLinked(blocks, k) && blocks[0].number == start
                && (blocks[k - 1].number == target || blocks[k - 1].number == end)
                <==> ChainOf(blocks, start, n))
            && (ChainOf(blocks, start, n) ==> k == n)
  {
    var k, n := LiveCount(blocks, target), Clamp(start, target, 8);
    if ChainOf(blocks, start, n) {
      ChainMeansLinked(blocks, start, n);
      assert InPlace(blocks, start, 0) && InPlace(blocks, start, n - 1);
      forall i | 0 <= i < n - 1
        ensures blocks[i].number != target
      {
        assert InPlace(blocks, start, i);
      }
      LiveCountIs(blocks, target, n);
    }
    if AllLinked(blocks, k) && blocks[0].number == start
       && (blocks[k - 1].number == target || blocks[k - 1].number == end) {
      forall i | 0 <= i < k
        ensures InPlace(blocks, start, i) && start + i <= target
      {
        LinkedMeansInPlace(blocks, start, target, k, i);
      }
      assert InPlace(blocks, start, k - 1);
    }
  }

  lemma {:induction false} BatchIsSummary(c: Crypto, blocks: seq<Block>, start: U32, end: U32, target: U32)
    requires |blocks| == HEADERS_PER_MAP && end == Add32(start, 7)
    ensures IsPow2(|blocks|)
    ensures BatchResult(c, blocks, start, end, target) == Summary(c, blocks, start, target)
  {
    BatchIsPow2();
    var n := Clamp(start, target, 8);
    LevelFoldIsTreeFold(ShaPair(c), Masked(StateRoots(blocks), n));
    LevelFoldIsTreeFold(ShaPair(c), Masked(DataRoots(blocks), n));
    if start <= target {
      BatchCondition(blocks, start, end, target);
    } else {
      assert AllLinked(blocks, 0) && ChainOf(blocks, start, 0);
    }
  }

  // ----- joins

  lemma {:induction false} ChainOfPrefix(a: seq<Block>, b: seq<Block>, start: nat, m: nat)
    requires m <= |a|
    ensures ChainOf(a + b, start, m) <==> ChainOf(a, start, m)
  {
    forall i | 0 <= i < |a|
      ensures InPlace(a + b, start, i) <==> InPlace(a, start, i)
    {
    }
  }

  lemma {:induction false} ChainOfConcat(a: seq<Block>, b: seq<Block>, start: nat, n: nat)
    requires |a| > 0 && 0 < n <= |b|
    ensures ChainOf(a + b, start, |a| + n) <==>
            ChainOf(a, start, |a|) && ChainOf(b, start + |a|, n) && b[0].parentHash == a[|a| - 1].hash
  {
    var ab, mid := a + b, start + |a|;
    ChainOfPrefix(a, b, start, |a|);
    assert InPlace(ab, start, |a|) <==> InPlace(b, mid, 0) && b[0].parentHash == a[|a| - 1].hash;
    if ChainOf(ab, start, |a| + n) {
      forall i | 0 <= i < n
        ensures InPlace(b, mid, i)
      {
        assert InPlace(ab, start, |a| + i);
      }
    } else if ChainOf(a, start, |a|) && ChainOf(b, mid, n) && b[0].parentHash == a[|a| - 1].hash {
      forall i | 0 <= i < |a| + n
        ensures InPlace(ab, start, i)
      {
        assert i < |a| ==> InPlace(a, start, i);
        assert i >= |a| ==> InPlace(b, mid, i - |a|);
      }
    }
  }

  lemma {:induction false} MaskedConcat(c: Crypto, a: seq<Bytes32>, b: seq<Bytes32>, m: nat, n: nat)
    requires |a| == |b| && IsPow2(|a|) && m <= |a| && n <= |b| && (n > 0 ==> m == |a|)
    ensures IsPow2(|a + b|)
    ensures MerkleRoot(c, Masked(a + b, m + n)) ==
            c.sha256(MerkleRoot(c, Masked(a, m)) + MerkleRoot(c, Masked(b, n)))
  {
    assert Masked(a + b, m + n) == Masked(a, m) + Masked(b, n);
    RootOfHalves(c, Masked(a, m), Masked(b, n));
  }

  lemma {:induction false} JoinRoots(c: Crypto, a: seq<Block>, b: seq<Block>, m: nat, n: nat)
    requires |a| == |b| && IsPow2(|a|) && m <= |a| && n <= |b| && (n > 0 ==> m == |a|)
    ensures IsPow2(|a + b|)
    ensures MerkleRoot(c, Masked(StateRoots(a + b), m + n)) ==
            c.sha256(MerkleRoot(c, Masked(StateRoots(a), m)) + MerkleRoot(c, Masked(StateRoots(b), n)))
    ensures MerkleRoot(c, Masked(DataRoots(a + b), m + n)) ==
            c.sha256(MerkleRoot(c, Masked(DataRoots(a), m)) + MerkleRoot(c, Masked(DataRoots(b), n)))
  {
    assert StateRoots(a + b) == StateRoots(a) + StateRoots(b);
    assert DataRoots(a + b) == DataRoots(a) + DataRoots(b);
    MaskedConcat(c, StateRoots(a), StateRoots(b), m, n);
    MaskedConcat(c, DataRoots(a), DataRoots(b), m, n);
  }

  lemma {:induction false} JoinEnds(c: Crypto, a: seq<Block>, b: seq<Block>, m: nat, n: nat, sa: Bytes32, da: Bytes32,
                                    sb: Bytes32, db: Bytes32)
    requires 0 < |a| == |b| && m <= |a| && n <= |b| && (n > 0 ==> m == |a|)
    ensures Join(c, Ends(a, m, sa, da), Ends(b, n, sb, db)) ==
            if n > 0 && !(a[m - 1].hash == b[0].parentHash && a[m - 1].number == Sub32(b[0].number, 1)) then None
            else Some(Ends(a + b, m + n, c.sha256(sa + sb), c.sha256(da + db)))
  {
    var ab := a + b;
    assert ab[0] == a[0];
    assert n == 0 && m > 0 ==> ab[m - 1] == a[m - 1];
    assert n > 0 ==> ab[m + n - 1] == b[n - 1];
  }

  lemma {:induction false} JoinReports(c: Crypto, a: seq<Block>, b: seq<Block>, m: nat, n: nat)
    requires |a| == |b| && IsPow2(|a|) && m <= |a| && n <= |b| && (n > 0 ==> m == |a|)
    ensures IsPow2(|a + b|)
    ensures Join(c, Report(c, a, m), Report(c, b, n)) ==
            if n > 0 && !(a[m - 1].hash == b[0].parentHash && a[m - 1].number == Sub32(b[0].number, 1)) then None
            else Some(Report(c, a + b, m + n))
  {
    JoinRoots(c, a, b, m, n);
    JoinEnds(c, a, b, m, n,
      MerkleRoot(c, Masked(StateRoots(a), m)), MerkleRoot(c, Masked(DataRoots(a), m)),
      MerkleRoot(c, Masked(StateRoots(b), n)), MerkleRoot(c, Masked(DataRoots(b), n)));
  }

  /** The link check of a join is what makes one chain of two. */
  lemma {:induction false} JoinCondition(a: seq<Block>, b: seq<Block>, start: nat, m: nat, n: nat)
    requires 0 < |a| && m <= |a| && n <= |b| && (n > 0 ==> m == |a|) && start + |a| < U32_BOUND
    ensures ChainOf(a + b, start, m + n) <==>
            && ChainOf(a, start, m)
            && ChainOf(b, start + |a|, n)
            && (n > 0 ==> a[m - 1].hash == b[0].parentHash && a[m - 1].number == Sub32(b[0].number, 1))
  {
    if n == 0 {
      ChainOfPrefix(a, b, start, m);
    } else {
      ChainOfConcat(a, b, start, n);
      if ChainOf(a, start, m) && ChainOf(b, start + |a|, n) {
        assert InPlace(a, start, m - 1) && InPlace(b, start + |a|, 0);
      }
    }
  }

  lemma {:induction false} JoinSummaries(c: Crypto, a: seq<Block>, b: seq<Block>, start: nat, m: nat, n: nat)
    requires |a| == |b| && IsPow2(|a|) && m <= |a| && n <= |b| && (n > 0 ==> m == |a|) && start + |a| < U32_BOUND
    ensures IsPow2(|a + b|)
    ensures JoinOptions(c, SummaryOf(c, a, start, m), SummaryOf(c, b, start + |a|, n)) ==
            SummaryOf(c, a + b, start, m + n)
  {
    JoinCondition(a, b, start, m, n);
    JoinReports(c, a, b, m, n);
  }

  /** Joining the summaries of two neighbouring ranges gives the summary of both. */
  lemma {:induction false} JoinIsSummary(c: Crypto, a: seq<Block>, b: seq<Block>, start: nat, target: U32)
    requires |a| == |b| && IsPow2(|a|) && start + |a| < U32_BOUND
    ensures IsPow2(|a + b|)
    ensures JoinOptions(c, Summary(c, a, start, target), Summary(c, b, start + |a|, target))
            == Summary(c, a + b, start, target)
  {
    hide SummaryOf, JoinOptions;
    var m, n := Clamp(start, target, |a|), Clamp(start + |a|, target, |b|);
    assert Clamp(start, target, |a + b|) == m + n;
    JoinSummaries(c, a, b, start, m, n);
  }

  /** The summary of a range whose length is a power of two, as a value. */
  ghost function Summaries(c: Crypto, target: U32): (seq<Block>, nat) -> Option<Segment> {
    (blocks: seq<Block>, start: nat) =>
      if IsPow2(|blocks|) then Summary(c, blocks, start, target) else None
  }

  lemma {:induction false} SummariesAt(c: Crypto, target: U32, blocks: seq<Block>, start: nat)
    requires IsPow2(|blocks|)
    ensures Summaries(c, target)(blocks, start) == Summary(c, blocks, start, target)
  {
    hide Summary;
  }

  lemma {:induction false} JoinOpAt(c: Crypto, l: Option<Segment>, r: Option<Segment>)
    ensures JoinOp(c)(l, r) == JoinOptions(c, l, r)
  {
    hide JoinOptions;
  }

  lemma {:induction false} SummariesJoin(c: Crypto, target: U32, a: seq<Block>, b: seq<Block>, s: nat, t: nat)
    requires |a| == |b| && IsPow2(|a|) && t == s + |a| < U32_BOUND
    ensures JoinOp(c)(Summaries(c, target)(a, s), Summaries(c, target)(b, t)) == Summaries(c, target)(a + b, s)
  {
    hide *;
    JoinIsSummary(c, a, b, s, target);
    SummariesAt(c, target, a, s);
    SummariesAt(c, target, b, t);
    SummariesAt(c, target, a + b, s);
    JoinOpAt(c, Summary(c, a, s, target), Summary(c, b, t, target));
  }

  lemma {:induction false} SummariesJoinPieces(c: Crypto, target: U32)
    ensures JoinsPieces(JoinOp(c), Summaries(c, target), U32_BOUND)
  {
    hide Summaries, JoinOp, IsPow2;
    forall a: seq<Block>, b: seq<Block>, s: nat, t: nat |
      |a| == |b| && IsPow2(|a|) && t == s + |a| < U32_BOUND
      ensures JoinOp(c)(Summaries(c, target)(a, s), Summaries(c, target)(b, t)) == Summaries(c, target)(a + b, s)
    {
      SummariesJoin(c, target, a, b, s, t);
    }
  }

  /** Reducing the batch summaries gives the summary of all blocks. */
  lemma {:induction false} TreeIsSummary(c: Crypto, blocks: seq<Block>, start: nat, target: U32,
                                         segments: seq<Option<Segment>>)
    requires |blocks| == 8 * |segments| && IsPow2(|segments|)
    requires start + |blocks| - 8 < U32_BOUND
    requires forall j | 0 <= j < |segments| ::
               segments[j] == Summaries(c, target)(blocks[8 * j..8 * j + 8], start + 8 * j)
    ensures IsPow2(|blocks|) && TreeFold(JoinOp(c), segments) == Summary(c, blocks, start, target)
  {
    hide Summary, Summaries, JoinOp, TreeFold, IsPow2, JoinsPieces;
    SummariesJoinPieces(c, target);
    FoldOfChunks(JoinOp(c), Summaries(c, target), U32_BOUND, blocks, start, segments);
    SummariesAt(c, target, blocks, start);
  }

  // ----- the exact acceptance condition

  /** The job's start block and the block numbers below do not wrap around. */
  predicate NoWrap(jobs: nat, trusted: U32) {
    trusted + 8 * jobs - 7 < U32_BOUND
  }

  /** Job j works on its eight blocks, from the block number given, which may have wrapped. */
  lemma {:induction false} JobWorksOn(c: Crypto, trusted: U32, target: U32, blocks: seq<Block>, j: nat,
                                      chunk: seq<Block>, start: U32)
    requires 8 * j + 8 <= |blocks| < U32_BOUND
    requires chunk == blocks[8 * j..8 * j + 8] && start == Add32(trusted, 8 * j + 1)
    ensures JobResult(c, trusted, target, blocks, j) == BatchResult(c, chunk, start, Add32(start, 7), target)
  {
    assert Add32(trusted, 8 * j + 8) == Add32(start, 7);
  }

  /** Without wrap-around, job j reports the summary of its eight blocks. */
  lemma {:induction false} JobIsSummary(c: Crypto, trusted: U32, target: U32, blocks: seq<Block>, j: nat,
                                        chunk: seq<Block>, start: U32)
    requires 8 * j + 8 <= |blocks| < U32_BOUND
    requires chunk == blocks[8 * j..8 * j + 8] && start == trusted + 1 + 8 * j
    ensures JobResult(c, trusted, target, blocks, j) == Summaries(c, target)(chunk, start)
  {
    JobWorksOn(c, trusted, target, blocks, j, chunk, start);
    BatchIsSummary(c, chunk, start, Add32(start, 7), target);
    assert Summaries(c, target)(chunk, start) == Summary(c, chunk, start, target);
  }

  /** An enabled last job decides the end block. */
  lemma {:induction false} LastJobEnds(c: Crypto, segments: seq<Option<Segment>>)
    requires IsPow2(|segments|) && TreeFold(JoinOp(c), segments).Some?
    ensures var last := segments[|segments| - 1];
            last.Some? && (last.value.numBlocks > 0 ==>
              var root := TreeFold(JoinOp(c), segments).value;
              root.numBlocks > 0 && root.endBlock == last.value.endBlock)
    decreases |segments|
  {
    if |segments| == 1 {
    } else {
      LastJobEnds(c, segments[|segments| / 2..]);
    }
  }

  /** When the last job's start block wraps around, that job is enabled and cannot end at the target. */
  lemma {:induction false} WrappedJobMisses(c: Crypto, jobs: nat, trusted: U32, target: U32, blocks: seq<Block>)
    requires 0 < jobs <= 0x800_0000 && !NoWrap(jobs, trusted) && trusted < target && |blocks| == 8
    ensures var start := Add32(trusted, 8 * jobs - 7);
            var r := BatchResult(c, blocks, start, Add32(start, 7), target);
            r.Some? ==> r.value.numBlocks > 0 && r.value.endBlock != target
  {
    var start := Add32(trusted, 8 * jobs - 7);
    assert start == trusted + 8 * jobs - 7 - U32_BOUND;
    BatchIsSummary(c, blocks, start, Add32(start, 7), target);
    if ChainOf(blocks, start, 8) {
      assert InPlace(blocks, start, 7);
    }
  }

  /** The global property: one linked chain from the trusted hash to the target block. */
  ghost predicate Accepted(jobs: nat, trusted: U32, trustedHash: Bytes32, target: U32, blocks: seq<Block>)
    requires |blocks| == 8 * jobs > 0 && trusted < target
  {
    && NoWrap(jobs, trusted)
    && target - trusted <= |blocks|
    && blocks[0].parentHash == trustedHash
    && ChainOf(blocks, trusted + 1, target - trusted)
  }

  ghost function ChainOutcome(c: Crypto, jobs: nat, trusted: U32, trustedHash: Bytes32, target: U32,
                              blocks: seq<Block>): Option<Commitment>
    requires |blocks| == 8 * jobs && IsPow2(|blocks|) && trusted < target
  {
    if Accepted(jobs, trusted, trustedHash, target, blocks)
    then var n := target - trusted;
         Some(Commitment(blocks[n - 1].hash,
                         MerkleRoot(c, Masked(StateRoots(blocks), n)),
                         MerkleRoot(c, Masked(DataRoots(blocks), n))))
    else None
  }

  /** The verifier accepts a witness exactly when all headers decode and the first
      target - trusted of them are the chain; it then returns the target's hash and the roots of
      exactly those blocks. */
  lemma {:induction false} SubchainExact(c: Crypto, jobs: nat, trusted: U32, trustedHash: Bytes32, target: U32,
                                         headers: seq<EncodedHeader>)
    requires IsPow2(jobs) && jobs <= 0x800_0000 && |headers| == 8 * jobs && trusted < target
    ensures IsPow2(8 * jobs)
    ensures var d := DecodeAll(c, headers);
            SubchainResult(c, jobs, trusted, trustedHash, target, headers) ==
            if d.None? then None else ChainOutcome(c, jobs, trusted, trustedHash, target, d.value)
  {
    EightTimesPow2(jobs);
    hide DecodeAll, BlocksResult, ChainOutcome, IsPow2;
    var d := DecodeAll(c, headers);
    if d.Some? {
      BlocksExact(c, jobs, trusted, trustedHash, target, d.value);
    }
  }

  lemma {:induction false} EightTimesPow2(n: nat)
    requires IsPow2(n)
    ensures IsPow2(8 * n)
  {
    TwicePow2(n);
    TwicePow2(2 * n);
    TwicePow2(4 * n);
  }

  lemma {:induction false} BlocksExact(c: Crypto, jobs: nat, trusted: U32, trustedHash: Bytes32, target: U32,
                                       blocks: seq<Block>)
    requires IsPow2(jobs) && jobs <= 0x800_0000 && |blocks| == 8 * jobs && IsPow2(|blocks|) && trusted < target
    ensures BlocksResult(c, jobs, trusted, trustedHash, target, blocks)
            == ChainOutcome(c, jobs, trusted, trustedHash, target, blocks)
  {
    LevelFoldIsTreeFold(JoinOp(c), JobResults(c, trusted, target, blocks, jobs));
    if NoWrap(jobs, trusted) {
      JobsReduce(c, jobs, trusted, target, blocks);
      ConcludeSummary(c, jobs, trusted, trustedHash, target, blocks);
    } else {
      WrappedRejected(c, jobs, trusted, trustedHash, target, blocks);
    }
  }

  lemma {:induction false} JobsReduce(c: Crypto, jobs: nat, trusted: U32, target: U32, blocks: seq<Block>)
    requires IsPow2(jobs) && |blocks| == 8 * jobs < U32_BOUND && NoWrap(jobs, trusted)
    ensures IsPow2(|blocks|)
    ensures TreeFold(JoinOp(c), JobResults(c, trusted, target, blocks, jobs)) == Summary(c, blocks, trusted + 1, target)
  {
    hide Summary, JobResult, JobResults, Summaries;
    var segments, start := JobResults(c, trusted, target, blocks, jobs), trusted + 1;
    forall j | 0 <= j < |segments|
      ensures segments[j] == Summaries(c, target)(blocks[8 * j..8 * j + 8], start + 8 * j)
    {
      JobIsSummary(c, trusted, target, blocks, j, blocks[8 * j..8 * j + 8], start + 8 * j);
    }
    TreeIsSummary(c, blocks, start, target, segments);
  }

  lemma {:induction false} WrappedRejected(c: Crypto, jobs: nat, trusted: U32, trustedHash: Bytes32, target: U32,
                                           blocks: seq<Block>)
    requires IsPow2(jobs) && jobs <= 0x800_0000 && |blocks| == 8 * jobs && trusted < target && !NoWrap(jobs, trusted)
    ensures var root := TreeFold(JoinOp(c), JobResults(c, trusted, target, blocks, jobs));
            Conclude(trustedHash, target, root).None?
  {
    hide JobResult, BatchResult;
    var segments := JobResults(c, trusted, target, blocks, jobs);
    if TreeFold(JoinOp(c), segments).Some? {
      LastJobEnds(c, segments);
      var chunk := blocks[8 * (jobs - 1)..8 * (jobs - 1) + 8];
      JobWorksOn(c, trusted, target, blocks, jobs - 1, chunk, Add32(trusted, 8 * jobs - 7));
      WrappedJobMisses(c, jobs, trusted, target, chunk);
    }
  }

  lemma {:induction false} LastInPlace(blocks: seq<Block>, start: nat, n: nat)
    requires 0 < n <= |blocks| && ChainOf(blocks, start, n)
    ensures blocks[n - 1].number == start + n - 1
  {
    assert InPlace(blocks, start, n - 1);
  }

  lemma {:induction false} ConcludeSummary(c: Crypto, jobs: nat, trusted: U32, trustedHash: Bytes32, target: U32,
                                           blocks: seq<Block>)
    requires |blocks| == 8 * jobs && IsPow2(|blocks|) && trusted < target && NoWrap(jobs, trusted)
    ensures Conclude(trustedHash, target, Summary(c, blocks, trusted + 1, target)) ==
            ChainOutcome(c, jobs, trusted, trustedHash, target, blocks)
  {
    hide MerkleRoot, Masked, StateRoots, DataRoots, ChainOf;
    var n := Clamp(trusted + 1, target, |blocks|);
    if ChainOf(blocks, trusted + 1, n) {
      LastInPlace(blocks, trusted + 1, n);
    }
  }

  // ----- consequences

  /** What an accepted witness gives. */
  lemma {:induction false} AcceptedWitness(c: Crypto, jobs: nat, trusted: U32, trustedHash: Bytes32, target: U32,
                                           headers: seq<EncodedHeader>, r: Commitment)
    requires IsPow2(jobs) && jobs <= 0x800_0000 && |headers| == 8 * jobs && trusted < target
    requires SubchainResult(c, jobs, trusted, trustedHash, target, headers) == Some(r)
    ensures IsPow2(8 * jobs) && DecodeAll(c, headers).Some?
    ensures Returns(c, jobs, trusted, trustedHash, target, DecodeAll(c, headers).value, r)
  {
    SubchainExact(c, jobs, trusted, trustedHash, target, headers);
    hide SubchainResult, DecodeAll, MerkleRoot, Accepted;
  }

  /** Soundness, spelled out: what an accepted witness proves about its headers. */
  lemma {:induction false} SubchainSound(c: Crypto, jobs: nat, trusted: U32, trustedHash: Bytes32, target: U32,
                                         headers: seq<EncodedHeader>, r: Commitment)
    requires IsPow2(jobs) && jobs <= 0x800_0000 && |headers| == 8 * jobs && trusted < target
    requires SubchainResult(c, jobs, trusted, trustedHash, target, headers) == Some(r)
    ensures DecodeAll(c, headers).Some?
    ensures var blocks, n := DecodeAll(c, headers).value, target - trusted;
            && n <= 8 * jobs
            && blocks[0].parentHash == trustedHash
            && (forall i | 0 <= i < n :: blocks[i].number == trusted + 1 + i)
            && (forall i | 0 <= i < n - 1 :: blocks[i].hash == blocks[i + 1].parentHash)
            && r.targetHeaderHash == blocks[n - 1].hash
  {
    AcceptedWitness(c, jobs, trusted, trustedHash, target, headers, r);
    hide SubchainResult, DecodeAll, MerkleRoot;
    var blocks, n := DecodeAll(c, headers).value, target - trusted;
    forall i | 0 <= i < n
      ensures blocks[i].number == trusted + 1 + i
    {
      assert InPlace(blocks, trusted + 1, i);
    }
    forall i | 0 <= i < n - 1
      ensures blocks[i].hash == blocks[i + 1].parentHash
    {
      assert InPlace(blocks, trusted + 1, i + 1);
    }
  }

  ghost predicate SomeCollide(c: Crypto, hs: seq<EncodedHeader>, gs: seq<EncodedHeader>, n: nat)
    requires n <= |hs| && n <= |gs|
  {
    exists k | 0 <= k < n :: HeadersCollide(c, hs[k], gs[k])
  }

  /** Wherever bytes behind the contents could matter, both witnesses are zero-padded. */
  ghost predicate AllComparable(hs: seq<EncodedHeader>, gs: seq<EncodedHeader>, n: nat)
    requires n <= |hs| && n <= |gs|
  {
    forall k | 0 <= k < n :: Comparable(hs[k], gs[k])
  }

  lemma {:induction false} ComparableAt(c: Crypto, hs: seq<EncodedHeader>, gs: seq<EncodedHeader>, n: nat, k: nat)
    requires n <= |hs| && n <= |gs| && AllComparable(hs, gs, n) && !SomeCollide(c, hs, gs, n) && k < n
    ensures Comparable(hs[k], gs[k]) && !HeadersCollide(c, hs[k], gs[k])
  {
    hide Comparable, HeadersCollide;
  }

  /** The leaves are the roots of the first n blocks, in order, and zeros. */
  lemma {:induction false} LeavesMasked(blocks: seq<Block>, n: nat, states: seq<Bytes32>, datas: seq<Bytes32>)
    requires n <= |blocks| == |states| == |datas|
    requires forall i | 0 <= i < |blocks| ::
               && states[i] == (if i < n then blocks[i].stateRoot else Zeros(32))
               && datas[i] == (if i < n then blocks[i].dataRoot else Zeros(32))
    ensures Masked(StateRoots(blocks), n) == states && Masked(DataRoots(blocks), n) == datas
  {
    hide Masked, StateRoots, DataRoots;
  }

  /** The returned roots, leaf by leaf: the roots of the blocks in the range, in order, and zeros. */
  lemma {:induction false} SubchainRoots(c: Crypto, jobs: nat, trusted: U32, trustedHash: Bytes32, target: U32,
                                         headers: seq<EncodedHeader>, r: Commitment, states: seq<Bytes32>,
                                         datas: seq<Bytes32>)
    requires IsPow2(jobs) && jobs <= 0x800_0000 && |headers| == 8 * jobs && trusted < target
    requires SubchainResult(c, jobs, trusted, trustedHash, target, headers) == Some(r)
    requires |states| == |datas| == 8 * jobs
    requires forall i | 0 <= i < 8 * jobs ::
               && DecodeHeader(c, headers[i]).Some?
               && var x := DecodeHeader(c, headers[i]).value;
               && states[i] == (if i < target - trusted then x.stateRoot else Zeros(32))
               && datas[i] == (if i < target - trusted then x.dataRoot else Zeros(32))
    ensures IsPow2(8 * jobs)
    ensures r.stateRoot == MerkleRoot(c, states) && r.dataRoot == MerkleRoot(c, datas)
  {
    hide SubchainResult, DecodeAll, DecodeHeader, MerkleRoot, IsPow2, Accepted, Masked, StateRoots, DataRoots, ChainOf;
    AcceptedWitness(c, jobs, trusted, trustedHash, target, headers, r);
    SubchainSound(c, jobs, trusted, trustedHash, target, headers, r);
    var blocks := DecodeAll(c, headers).value;
    forall i | 0 <= i < 8 * jobs
      ensures DecodeHeader(c, headers[i]) == Some(blocks[i])
    {
    }
    LeavesMasked(blocks, target - trusted, states, datas);
  }

  /** Two linked chains that end in one hash agree backwards along the parent links, unless two
      of their headers collide. */
  lemma {:induction false} ChainsAgree(c: Crypto, hs: seq<EncodedHeader>, gs: seq<EncodedHeader>, xs: seq<Block>,
                                       ys: seq<Block>, start: nat, n: nat, i: nat)
    requires i < n <= |hs| == |gs| && DecodeAll(c, hs) == Some(xs) && DecodeAll(c, gs) == Some(ys)
    requires ChainOf(xs, start, n) && ChainOf(ys, start, n) && xs[n - 1].hash == ys[n - 1].hash
    requires AllComparable(hs, gs, n) && !SomeCollide(c, hs, gs, n)
    ensures SameHashed(hs[i], gs[i]) && xs[i] == ys[i]
    decreases n - i
  {
    hide DecodeHeader, HeadersCollide, Comparable, SameHashed, AllComparable, SomeCollide;
    if i < n - 1 {
      ChainsAgree(c, hs, gs, xs, ys, start, n, i + 1);
      assert InPlace(xs, start, i + 1) && InPlace(ys, start, i + 1);
    }
    ComparableAt(c, hs, gs, n, i);
    SameHash(c, hs[i], gs[i], xs[i], ys[i]);
  }

  lemma {:induction false} SameRoots(c: Crypto, xs: seq<Block>, ys: seq<Block>, n: nat)
    requires n <= |xs| == |ys| && IsPow2(|xs|) && forall i | 0 <= i < n :: xs[i] == ys[i]
    ensures MerkleRoot(c, Masked(StateRoots(xs), n)) == MerkleRoot(c, Masked(StateRoots(ys), n))
    ensures MerkleRoot(c, Masked(DataRoots(xs), n)) == MerkleRoot(c, Masked(DataRoots(ys), n))
  {
    hide MerkleRoot, IsPow2;
    assert Masked(StateRoots(xs), n) == Masked(StateRoots(ys), n);
    assert Masked(DataRoots(xs), n) == Masked(DataRoots(ys), n);
  }

  /** The first n headers of both have the same hashed contents. */
  ghost predicate SameContents(hs: seq<EncodedHeader>, gs: seq<EncodedHeader>, n: nat)
    requires n <= |hs| && n <= |gs|
  {
    forall k | 0 <= k < n :: SameHashed(hs[k], gs[k])
  }

  ghost predicate AllPadded(hs: seq<EncodedHeader>, gs: seq<EncodedHeader>, n: nat)
    requires n <= |hs| && n <= |gs|
  {
    forall k | 0 <= k < n :: ZeroPadded(hs[k]) && ZeroPadded(gs[k])
  }

  lemma {:induction false} SamePadded(hs: seq<EncodedHeader>, gs: seq<EncodedHeader>, n: nat)
    requires n <= |hs| && n <= |gs| && SameContents(hs, gs, n) && AllPadded(hs, gs, n)
    ensures hs[..n] == gs[..n]
  {
    hide ZeroPadded, Content;
    forall k | 0 <= k < n
      ensures hs[k] == gs[k]
    {
      assert SameHashed(hs[k], gs[k]);
      SameContent(hs[k], gs[k]);
    }
  }

  lemma {:induction false} RangesAgree(c: Crypto, trusted: U32, target: U32, hs: seq<EncodedHeader>,
                                       gs: seq<EncodedHeader>, xs: seq<Block>, ys: seq<Block>)
    requires trusted < target && target - trusted <= |hs| == |gs|
    requires DecodeAll(c, hs) == Some(xs) && DecodeAll(c, gs) == Some(ys)
    requires AllComparable(hs, gs, target - trusted)
    requires ChainOf(xs, trusted + 1, target - trusted) && ChainOf(ys, trusted + 1, target - trusted)
    requires xs[target - trusted - 1].hash == ys[target - trusted - 1].hash
    requires !SomeCollide(c, hs, gs, target - trusted)
    ensures SameContents(hs, gs, target - trusted)
    ensures forall i | 0 <= i < target - trusted :: xs[i] == ys[i]
  {
    hide *;
    var n := target - trusted;
    forall i | 0 <= i < n
      ensures SameHashed(hs[i], gs[i]) && xs[i] == ys[i]
    {
      ChainsAgree(c, hs, gs, xs, ys, trusted + 1, n, i);
    }
    AllSame(hs, gs, n);
  }

  lemma {:induction false} AllSame(hs: seq<EncodedHeader>, gs: seq<EncodedHeader>, n: nat)
    requires n <= |hs| && n <= |gs| && forall k | 0 <= k < n :: SameHashed(hs[k], gs[k])
    ensures SameContents(hs, gs, n)
  {
    hide SameHashed;
  }

  /** Uniqueness: the target's hash determines the content of every header of the range, the trusted
      hash and both roots, unless two headers of the witnesses collide. Bytes behind the contents
      matter only where two headers are too short to cover their fields. */
  lemma {:induction false} SubchainUnique(c: Crypto, jobs: nat, trusted: U32, hash1: Bytes32, hash2: Bytes32,
                                          target: U32, hs: seq<EncodedHeader>, gs: seq<EncodedHeader>, r1: Commitment,
                                          r2: Commitment)
    requires IsPow2(jobs) && jobs <= 0x800_0000 && |hs| == |gs| == 8 * jobs && trusted < target
    requires AllComparable(hs, gs, Min(8 * jobs, target - trusted))
    requires SubchainResult(c, jobs, trusted, hash1, target, hs) == Some(r1)
    requires SubchainResult(c, jobs, trusted, hash2, target, gs) == Some(r2)
    requires r1.targetHeaderHash == r2.targetHeaderHash
    ensures target - trusted <= 8 * jobs
    ensures || SomeCollide(c, hs, gs, target - trusted)
            || (&& hash1 == hash2 && r1 == r2 && SameContents(hs, gs, target - trusted)
                && (AllPadded(hs, gs, target - trusted) ==> hs[..target - trusted] == gs[..target - trusted]))
  {
    hide *;
    AcceptedWitness(c, jobs, trusted, hash1, target, hs, r1);
    AcceptedWitness(c, jobs, trusted, hash2, target, gs, r2);
    var xs, ys := DecodeAll(c, hs).value, DecodeAll(c, gs).value;
    UniqueBlocks(c, jobs, trusted, hash1, hash2, target, hs, gs, xs, ys, r1, r2);
    if SameContents(hs, gs, target - trusted) && AllPadded(hs, gs, target - trusted) {
      SamePadded(hs, gs, target - trusted);
    }
  }

  ghost predicate Returns(c: Crypto, jobs: nat, trusted: U32, trustedHash: Bytes32, target: U32, blocks: seq<Block>,
                          r: Commitment)
    requires |blocks| == 8 * jobs && IsPow2(|blocks|) && trusted < target
  {
    var n := target - trusted;
    && Accepted(jobs, trusted, trustedHash, target, blocks)
    && r == Commitment(blocks[n - 1].hash, MerkleRoot(c, Masked(StateRoots(blocks), n)),
                       MerkleRoot(c, Masked(DataRoots(blocks), n)))
  }

  lemma {:induction false} UniqueBlocks(c: Crypto, jobs: nat, trusted: U32, hash1: Bytes32, hash2: Bytes32, target: U32,
                                        hs: seq<EncodedHeader>, gs: seq<EncodedHeader>, xs: seq<Block>, ys: seq<Block>,
                                        r1: Commitment, r2: Commitment)
    requires |hs| == |gs| == 8 * jobs && IsPow2(8 * jobs) && trusted < target
    requires AllComparable(hs, gs, Min(8 * jobs, target - trusted))
    requires DecodeAll(c, hs) == Some(xs) && DecodeAll(c, gs) == Some(ys)
    requires Returns(c, jobs, trusted, hash1, target, xs, r1) && Returns(c, jobs, trusted, hash2, target, ys, r2)
    requires r1.targetHeaderHash == r2.targetHeaderHash
    ensures target - trusted <= 8 * jobs
    ensures || SomeCollide(c, hs, gs, target - trusted)
            || (hash1 == hash2 && r1 == r2 && SameContents(hs, gs, target - trusted))
  {
    hide DecodeAll, SomeCollide, AllComparable, SameContents, MerkleRoot, ChainOf, IsPow2, StateRoots, DataRoots,
         Masked, NoWrap;
    var n := target - trusted;
    if !SomeCollide(c, hs, gs, n) {
      RangesAgree(c, trusted, target, hs, gs, xs, ys);
      SameRoots(c, xs, ys, n);
    }
  }

  // ----- where padding matters

  /** Changing a byte behind the content of a header that is not covered keeps a witness accepted. The
      target's hash and the data root stay, and the state root changes, or nodes of the trees
      collide. */
  lemma {:induction false} TamperedAccepted(c: Crypto, jobs: nat, trusted: U32, trustedHash: Bytes32, target: U32,
                                            headers: seq<EncodedHeader>, r: Commitment, k: nat)
    requires IsPow2(jobs) && jobs <= 0x800_0000 && |headers| == 8 * jobs && trusted < target
    requires SubchainResult(c, jobs, trusted, trustedHash, target, headers) == Some(r)
    requires k < |headers| && k < target - trusted && !FieldsCovered(headers[k])
    ensures var other := SubchainResult(c, jobs, trusted, trustedHash, target, headers[k := Tampered(headers[k])]);
            && other.Some? && other.value == r.(stateRoot := other.value.stateRoot)
            && (other.value.stateRoot != r.stateRoot
                || StateLeavesCollide(c, headers, headers[k := Tampered(headers[k])], target - trusted))
  {
    AcceptedWitness(c, jobs, trusted, trustedHash, target, headers, r);
    var gs, n := headers[k := Tampered(headers[k])], target - trusted;
    TamperedDecodes(c, headers, k);
    SubchainExact(c, jobs, trusted, trustedHash, target, gs);
    hide *;
    OtherOutcome(c, jobs, trusted, trustedHash, target, DecodeAll(c, headers).value, DecodeAll(c, gs).value, r, k);
    CollidingLeaves(c, headers, gs, n);
  }

  lemma {:induction false} CollidingLeaves(c: Crypto, hs: seq<EncodedHeader>, gs: seq<EncodedHeader>, n: nat)
    requires |hs| == |gs| && IsPow2(|hs|) && DecodeAll(c, hs).Some? && DecodeAll(c, gs).Some?
    ensures NodesCollide(c, Masked(StateRoots(DecodeAll(c, hs).value), n),
                         Masked(StateRoots(DecodeAll(c, gs).value), n)) ==>
              StateLeavesCollide(c, hs, gs, n)
  {
  }

  lemma {:induction false} OtherOutcome(c: Crypto, jobs: nat, trusted: U32, trustedHash: Bytes32, target: U32,
                                        xs: seq<Block>, ys: seq<Block>, r: Commitment, k: nat)
    requires |xs| == |ys| == 8 * jobs && IsPow2(|xs|) && trusted < target && k < target - trusted
    requires Returns(c, jobs, trusted, trustedHash, target, xs, r) && OtherStateRoot(xs, ys, k)
    ensures var out, n := ChainOutcome(c, jobs, trusted, trustedHash, target, ys), target - trusted;
            && out.Some? && out.value == r.(stateRoot := out.value.stateRoot)
            && (out.value.stateRoot != r.stateRoot
                || NodesCollide(c, Masked(StateRoots(xs), n), Masked(StateRoots(ys), n)))
  {
    hide MerkleRoot, NodesCollide, IsPow2, ChainOf, StateRoots, DataRoots, Masked;
    SameLinks(xs, ys, trusted + 1, target - trusted);
    OtherLeaf(c, xs, ys, target - trusted, k);
  }

  lemma {:induction false} TamperedDecodes(c: Crypto, headers: seq<EncodedHeader>, k: nat)
    requires k < |headers| && !FieldsCovered(headers[k]) && DecodeAll(c, headers).Some?
    ensures var gs := headers[k := Tampered(headers[k])];
            DecodeAll(c, gs).Some? && OtherStateRoot(DecodeAll(c, headers).value, DecodeAll(c, gs).value, k)
  {
    TamperedDiffers(c, headers[k]);
    hide DecodeHeader, FieldsCovered, Tampered, SameHashed;
    var gs := headers[k := Tampered(headers[k])];
    assert forall i | 0 <= i < |gs| :: i != k ==> gs[i] == headers[i];
  }

  /** The blocks differ in the state root of block k, and in nothing else. */
  ghost predicate OtherStateRoot(xs: seq<Block>, ys: seq<Block>, k: nat) {
    && k < |xs| == |ys|
    && (forall i | 0 <= i < |xs| :: ys[i] == if i == k then xs[k].(stateRoot := ys[k].stateRoot) else xs[i])
    && ys[k].stateRoot != xs[k].stateRoot
  }

  lemma {:induction false} OtherLeaf(c: Crypto, xs: seq<Block>, ys: seq<Block>, n: nat, k: nat)
    requires OtherStateRoot(xs, ys, k) && k < n && IsPow2(|xs|)
    ensures DataRoots(ys) == DataRoots(xs)
    ensures var x, y := Masked(StateRoots(xs), n), Masked(StateRoots(ys), n);
            MerkleRoot(c, x) != MerkleRoot(c, y) || NodesCollide(c, x, y)
  {
    hide MerkleRoot, NodesCollide, IsPow2;
    var x, y := Masked(StateRoots(xs), n), Masked(StateRoots(ys), n);
    assert x[k] != y[k];
    RootBinds(c, x, y);
  }

  lemma {:induction false} SameLinks(xs: seq<Block>, ys: seq<Block>, start: nat, n: nat)
    requires n <= |xs| == |ys| && ChainOf(xs, start, n)
    requires forall i | 0 <= i < |xs| :: ys[i] == xs[i].(stateRoot := ys[i].stateRoot)
    ensures ChainOf(ys, start, n)
  {
    forall i | 0 <= i < n
      ensures InPlace(ys, start, i)
    {
      assert InPlace(xs, start, i);
    }
  }

  /** Nodes of the state root trees of two witnesses collide. */
  ghost predicate StateLeavesCollide(c: Crypto, hs: seq<EncodedHeader>, gs: seq<EncodedHeader>, n: nat) {
    && |hs| == |gs| && IsPow2(|hs|) && DecodeAll(c, hs).Some? && DecodeAll(c, gs).Some?
    && NodesCollide(c, Masked(StateRoots(DecodeAll(c, hs).value), n), Masked(StateRoots(DecodeAll(c, gs).value), n))
  }

  /** Such a witness: block 1 of size 40 after a zero hash. */
  lemma {:induction false} ShortWitness(c: Crypto) returns (headers: seq<EncodedHeader>)
    ensures IsPow2(2) && |headers| == 16 && !FieldsCovered(headers[0])
    ensures SubchainResult(c, 2, 0, ZERO32, 1, headers).Some?
  {
    assert IsPow2(1);
    headers := [SHORT_HEADER] + seq<EncodedHeader>(15, _ => EMPTY_HEADER);
    ShortHeaderDecodes(c);
    EmptyHeaderDecodes(c);
    SubchainExact(c, 2, 0, ZERO32, 1, headers);
    hide SubchainResult, DecodeHeader, FieldsCovered, MerkleRoot, IsPow2, SHORT_HEADER, EMPTY_HEADER;
    assert forall i | 0 < i < 16 :: headers[i] == EMPTY_HEADER;
    ShortAccepted(DecodeAll(c, headers).value);
  }

  lemma {:induction false} ShortAccepted(blocks: seq<Block>)
    requires |blocks| == 16 && blocks[0].number == 1 && blocks[0].parentHash == ZERO32
    ensures Accepted(2, 0, ZERO32, 1, blocks)
  {
    assert InPlace(blocks, 1, 0);
  }
}
