/** The subchain verifier when the target is not above the trusted block, which the contract excludes
    and the circuit does not: what exactly it accepts then. The jobs before the block numbers wrap
    around are disabled; the ones after it may be enabled, and are joined to disabled ones. */
module SubchainWrap {
  import opened Basics
  import opened Headers
  import opened Trees
  import opened Subchain
  import opened SubchainTheorem

  // ----- segments that start with disabled jobs

  /** The segment reports n live blocks, which follow after `dead` disabled ones; roots aside. */
  ghost predicate Reports(s: Segment, blocks: seq<Block>, dead: nat, n: nat)
    requires 0 < |blocks| && dead + n <= |blocks|
  {
    && s.numBlocks == n && s.startBlock == blocks[0].number && s.startParent == blocks[0].parentHash
    && s.endBlock == (if n == 0 then 0 else blocks[dead + n - 1].number)
    && s.endHeaderHash == (if n == 0 then ZERO32 else blocks[dead + n - 1].hash)
  }

  /** A block that a join accepts after disabled ones: they report the end block zero and the
      zero hash. */
  predicate FollowsNothing(b: Block) {
    b.number == 1 && b.parentHash == ZERO32
  }

  /** Wherever a right half with live blocks is joined to a disabled left half, its first block
      follows nothing; that block may itself be disabled. */
  ghost predicate Bridged(blocks: seq<Block>, dead: nat)
    requires IsPow2(|blocks|) && dead < |blocks|
    decreases |blocks|
  {
    if dead == 0 then true
    else
      var h := |blocks| / 2;
      if dead < h then Bridged(blocks[..h], dead)
      else FollowsNothing(blocks[h]) && Bridged(blocks[h..], dead - h)
  }

  /** What the reduction makes of disabled jobs followed by jobs from block number `start` on. */
  ghost predicate Reduced(r: Option<Segment>, blocks: seq<Block>, dead: nat, start: nat, target: U32)
    requires IsPow2(|blocks|) && dead <= |blocks|
  {
    var n := Clamp(start, target, |blocks| - dead);
    && (r.Some? <==> ChainOf(blocks[dead..], start, n) && (n > 0 ==> Bridged(blocks, dead)))
    && (r.Some? ==> Reports(r.value, blocks, dead, n))
  }

  /** Both halves of a chain of live blocks. */
  lemma {:induction false} LiveHalves(a: seq<Block>, b: seq<Block>, dead: nat, start: nat, m: nat, n: nat)
    requires dead < |a| && m <= |a| - dead && n <= |b| && (n > 0 ==> m == |a| - dead) && 0 < |b|
    requires start + (|a| - dead) < U32_BOUND
    ensures ChainOf((a + b)[dead..], start, m + n) <==>
            && ChainOf(a[dead..], start, m)
            && ChainOf(b, start + (|a| - dead), n)
            && (n > 0 ==> a[dead + m - 1].hash == b[0].parentHash && a[dead + m - 1].number == Sub32(b[0].number, 1))
  {
    assert (a + b)[dead..] == a[dead..] + b;
    JoinCondition(a[dead..], b, start, m, n);
  }

  /** Joining a half that is partly live to one that is live throughout. */
  lemma {:induction false} JoinLive(c: Crypto, a: seq<Block>, b: seq<Block>, dead: nat, start: nat, target: U32,
                                    l: Option<Segment>, r: Option<Segment>)
    requires |a| == |b| && IsPow2(|a|) && IsPow2(|a + b|) && dead < |a| && start + (|a| - dead) < U32_BOUND
    requires Reduced(l, a, dead, start, target) && Reduced(r, b, 0, start + (|a| - dead), target)
    ensures Reduced(JoinOptions(c, l, r), a + b, dead, start, target)
  {
    hide ChainOf, Bridged, IsPow2, Clamp, Reports, JoinOptions, Sub32;
    var m, n := Clamp(start, target, |a| - dead), Clamp(start + (|a| - dead), target, |b|);
    ClampSum(start, target, |a| - dead, |b|);
    assert b[0..] == b;
    NothingDead(b);
    LiveHalves(a, b, dead, start, m, n);
    BridgedLeft(a, b, dead);
    JoinedReports(c, a, b, dead, m, n, l, r);
  }

  lemma {:induction false} ClampSum(start: nat, target: U32, k: nat, l: nat)
    requires k > 0
    ensures Clamp(start, target, k + l) == Clamp(start, target, k) + Clamp(start + k, target, l)
    ensures Clamp(start + k, target, l) > 0 ==> Clamp(start, target, k) == k
  {
  }

  lemma {:induction false} NothingDead(blocks: seq<Block>)
    requires IsPow2(|blocks|)
    ensures Bridged(blocks, 0)
  {
  }

  lemma {:induction false} BridgedLeft(a: seq<Block>, b: seq<Block>, dead: nat)
    requires |a| == |b| && IsPow2(|a|) && IsPow2(|a + b|) && dead < |a|
    ensures Bridged(a + b, dead) <==> Bridged(a, dead)
  {
    assert (a + b)[..|a|] == a;
  }

  /** The join itself, on halves that report. */
  lemma {:induction false} JoinedReports(c: Crypto, a: seq<Block>, b: seq<Block>, dead: nat, m: nat, n: nat,
                                         l: Option<Segment>, r: Option<Segment>)
    requires 0 < |a| == |b| && dead + m <= |a| && n <= |b| && (n > 0 ==> 0 < m == |a| - dead)
    requires (l.Some? ==> Reports(l.value, a, dead, m)) && (r.Some? ==> Reports(r.value, b, 0, n))
    ensures var j := JoinOptions(c, l, r);
            && (j.Some? <==> l.Some? && r.Some?
                             && (n > 0 ==>
                                   && a[dead + m - 1].hash == b[0].parentHash
                                   && a[dead + m - 1].number == Sub32(b[0].number, 1)))
            && (j.Some? ==> Reports(j.value, a + b, dead, m + n))
  {
    assert (a + b)[0] == a[0];
    assert n == 0 && m > 0 ==> (a + b)[dead + m - 1] == a[dead + m - 1];
    assert n > 0 ==> (a + b)[dead + m + n - 1] == b[n - 1];
  }

  /** Joining a disabled half to one that is disabled or partly live. */
  lemma {:induction false} JoinDead(c: Crypto, a: seq<Block>, b: seq<Block>, dead: nat, start: nat, target: U32,
                                    l: Option<Segment>, r: Option<Segment>)
    requires |a| == |b| && IsPow2(|a|) && IsPow2(|a + b|) && dead <= |b|
    requires Reduced(l, a, |a|, start, target) && Reduced(r, b, dead, start, target)
    ensures Reduced(JoinOptions(c, l, r), a + b, |a| + dead, start, target)
  {
    var n := Clamp(start, target, |b| - dead);
    SuffixOfRight(a, b, dead);
    assert a[|a|..] == [] && ChainOf([], start, 0);
    if n > 0 {
      BridgedRight(a, b, dead);
    }
    hide ChainOf, Bridged, IsPow2, Clamp;
    JoinedAfterDead(c, a, b, dead, n, l, r);
  }

  lemma {:induction false} SuffixOfRight(a: seq<Block>, b: seq<Block>, dead: nat)
    requires dead <= |b|
    ensures (a + b)[|a| + dead..] == b[dead..]
  {
  }

  lemma {:induction false} BridgedRight(a: seq<Block>, b: seq<Block>, dead: nat)
    requires |a| == |b| && IsPow2(|a|) && IsPow2(|a + b|) && dead < |b|
    ensures Bridged(a + b, |a| + dead) <==> FollowsNothing(b[0]) && Bridged(b, dead)
  {
    assert (a + b)[|a|..] == b;
  }

  /** The join itself, when nothing on the left is live. */
  lemma {:induction false} JoinedAfterDead(c: Crypto, a: seq<Block>, b: seq<Block>, dead: nat, n: nat,
                                           l: Option<Segment>, r: Option<Segment>)
    requires 0 < |a| == |b| && dead + n <= |b|
    requires l.Some? && Reports(l.value, a, |a|, 0) && (r.Some? ==> Reports(r.value, b, dead, n))
    ensures var j := JoinOptions(c, l, r);
            && (j.Some? <==> r.Some? && (n > 0 ==> FollowsNothing(b[0])))
            && (j.Some? ==> Reports(j.value, a + b, |a| + dead, n))
  {
    assert (a + b)[0] == a[0];
    assert n > 0 ==> (a + b)[|a| + dead + n - 1] == b[dead + n - 1];
  }

  /** A job that is disabled. */
  ghost predicate DeadJob(r: Option<Segment>, chunk: seq<Block>)
    requires |chunk| == 8
  {
    r.Some? && Reports(r.value, chunk, 8, 0)
  }

  /** Job j, when the first w jobs are disabled and job w starts from block number `start`. */
  ghost predicate JobAt(c: Crypto, segments: seq<Option<Segment>>, blocks: seq<Block>, w: nat, start: nat, target: U32,
                        j: nat)
    requires |blocks| == 8 * |segments| && j < |segments|
  {
    if j < w then DeadJob(segments[j], blocks[8 * j..8 * j + 8])
    else segments[j] == Summaries(c, target)(blocks[8 * j..8 * j + 8], start + 8 * (j - w))
  }

  ghost predicate JobsAfterDead(c: Crypto, segments: seq<Option<Segment>>, blocks: seq<Block>, w: nat, start: nat,
                                target: U32)
    requires |blocks| == 8 * |segments|
  {
    forall j | 0 <= j < |segments| :: JobAt(c, segments, blocks, w, start, target, j)
  }

  /** The jobs of the left half. */
  lemma {:induction false} JobsOfLeft(c: Crypto, segments: seq<Option<Segment>>, blocks: seq<Block>, w: nat, start: nat,
                                      target: U32, h: nat, v: nat)
    requires |blocks| == 8 * |segments| && h <= |segments| && JobsAfterDead(c, segments, blocks, w, start, target)
    requires v == if w < h then w else h
    ensures JobsAfterDead(c, segments[..h], blocks[..8 * h], v, start, target)
  {
    hide DeadJob, Summaries;
    forall j | 0 <= j < h
      ensures JobAt(c, segments[..h], blocks[..8 * h], v, start, target, j)
    {
      assert JobAt(c, segments, blocks, w, start, target, j);
      assert blocks[..8 * h][8 * j..8 * j + 8] == blocks[8 * j..8 * j + 8];
    }
  }

  lemma {:induction false} JobOfRight(c: Crypto, segments: seq<Option<Segment>>, blocks: seq<Block>, w: nat, start: nat,
                                      target: U32, h: nat, j: nat, v: nat, from: nat)
    requires |blocks| == 8 * |segments| && h <= |segments| && j < |segments| - h
    requires JobAt(c, segments, blocks, w, start, target, h + j)
    requires if w < h then v == 0 && from == start + 8 * (h - w) else v == w - h && from == start
    ensures JobAt(c, segments[h..], blocks[8 * h..], v, from, target, j)
  {
    hide DeadJob, Summaries;
    assert blocks[8 * h..][8 * j..8 * j + 8] == blocks[8 * (h + j)..8 * (h + j) + 8];
    assert segments[h..][j] == segments[h + j];
  }

  /** The jobs of the right half. */
  lemma {:induction false} JobsOfRight(c: Crypto, segments: seq<Option<Segment>>, blocks: seq<Block>, w: nat,
                                       start: nat, target: U32, h: nat, v: nat, from: nat)
    requires |blocks| == 8 * |segments| && h <= |segments| && JobsAfterDead(c, segments, blocks, w, start, target)
    requires if w < h then v == 0 && from == start + 8 * (h - w) else v == w - h && from == start
    ensures JobsAfterDead(c, segments[h..], blocks[8 * h..], v, from, target)
  {
    hide JobAt;
    forall j | 0 <= j < |segments| - h
      ensures JobAt(c, segments[h..], blocks[8 * h..], v, from, target, j)
    {
      JobOfRight(c, segments, blocks, w, start, target, h, j, v, from);
    }
  }

  lemma {:induction false} OneJob(c: Crypto, segments: seq<Option<Segment>>, blocks: seq<Block>, w: nat, start: nat,
                                  target: U32)
    requires |segments| == 1 && |blocks| == 8 && w <= 1 && JobsAfterDead(c, segments, blocks, w, start, target)
    ensures IsPow2(8) && Reduced(TreeFold(JoinOp(c), segments), blocks, 8 * w, start, target)
  {
    BatchIsPow2();
    assert blocks[8 * 0..8 * 0 + 8] == blocks && blocks[0..] == blocks;
    assert JobAt(c, segments, blocks, w, start, target, 0);
    hide MerkleRoot, JobsAfterDead;
    if w == 1 {
      assert blocks[8..] == [] && ChainOf([], start, 0);
    }
  }

  lemma {:induction false} JoinHalves(c: Crypto, a: seq<Block>, b: seq<Block>, dead: nat, start: nat, target: U32,
                                      l: Option<Segment>, r: Option<Segment>)
    requires |a| == |b| && IsPow2(|a|) && IsPow2(|a + b|) && dead <= |a + b| && start + |a + b| < U32_BOUND
    requires Reduced(l, a, if dead < |a| then dead else |a|, start, target)
    requires if dead < |a| then Reduced(r, b, 0, start + (|a| - dead), target)
             else Reduced(r, b, dead - |a|, start, target)
    ensures Reduced(JoinOptions(c, l, r), a + b, dead, start, target)
  {
    hide Reduced, IsPow2, JoinOptions;
    if dead < |a| {
      JoinLive(c, a, b, dead, start, target, l, r);
    } else {
      JoinDead(c, a, b, dead - |a|, start, target, l, r);
    }
  }

  lemma {:induction false} FoldStep(c: Crypto, segments: seq<Option<Segment>>, blocks: seq<Block>, w: nat, start: nat,
                                    target: U32, h: nat, v: nat, w': nat, from: nat)
    requires IsPow2(|segments|) && |segments| == 2 * h > 1 && |blocks| == 8 * |segments|
    requires w <= |segments| && start + |blocks| < U32_BOUND
    requires v == (if w < h then w else h)
    requires if w < h then w' == 0 && from == start + 8 * (h - w) else w' == w - h && from == start
    requires IsPow2(h) && IsPow2(8 * h)
    requires Reduced(TreeFold(JoinOp(c), segments[..h]), blocks[..8 * h], 8 * v, start, target)
    requires Reduced(TreeFold(JoinOp(c), segments[h..]), blocks[8 * h..], 8 * w', from, target)
    ensures IsPow2(|blocks|) && Reduced(TreeFold(JoinOp(c), segments), blocks, 8 * w, start, target)
  {
    hide *;
    FoldSplits(JoinOp(c), segments, h);
    JoinOpAt(c, TreeFold(JoinOp(c), segments[..h]), TreeFold(JoinOp(c), segments[h..]));
    EightTimesPow2(|segments|);
    var a, b := blocks[..8 * h], blocks[8 * h..];
    assert blocks == a + b;
    JoinHalves(c, a, b, 8 * w, start, target, TreeFold(JoinOp(c), segments[..h]), TreeFold(JoinOp(c), segments[h..]));
  }

  /** The reduction of disabled jobs followed by others. */
  lemma {:induction false} FoldAfterDead(c: Crypto, segments: seq<Option<Segment>>, blocks: seq<Block>, w: nat,
                                         start: nat, target: U32)
    requires IsPow2(|segments|) && |blocks| == 8 * |segments| && w <= |segments| && start + |blocks| < U32_BOUND
    requires JobsAfterDead(c, segments, blocks, w, start, target)
    ensures IsPow2(|blocks|) && Reduced(TreeFold(JoinOp(c), segments), blocks, 8 * w, start, target)
    decreases |segments|
  {
    hide JobsAfterDead, Reduced, TreeFold, JoinOp;
    if |segments| == 1 {
      OneJob(c, segments, blocks, w, start, target);
    } else {
      var h := |segments| / 2;
      assert IsPow2(h) && |segments| == 2 * h;
      EightTimesPow2(h);
      hide IsPow2;
      var v, w' := if w < h then w else h, if w < h then 0 else w - h;
      var from := if w < h then start + 8 * (h - w) else start;
      JobsOfLeft(c, segments, blocks, w, start, target, h, v);
      JobsOfRight(c, segments, blocks, w, start, target, h, w', from);
      FoldAfterDead(c, segments[..h], blocks[..8 * h], v, start, target);
      FoldAfterDead(c, segments[h..], blocks[8 * h..], w', from, target);
      FoldStep(c, segments, blocks, w, start, target, h, v, w', from);
    }
  }

  // ----- the verifier

  /** How many jobs start before the block numbers wrap around. */
  function JobsBeforeWrap(jobs: nat, trusted: U32): (w: nat)
    ensures w <= jobs
    ensures forall j | 0 <= j < jobs :: trusted + 8 * j + 1 < U32_BOUND <==> j < w
  {
    Min(jobs, (U32_BOUND - trusted - 1 + 7) / 8)
  }

  /** The block number that the first job after the wrap-around starts from. */
  function WrappedStart(trusted: U32): (start: nat)
    ensures start < 8
  {
    trusted + 8 * ((U32_BOUND - trusted - 1 + 7) / 8) + 1 - U32_BOUND
  }

  /** Without wrap-around no job is enabled. */
  lemma {:induction false} NoWrapNoLiveJob(jobs: nat, trusted: U32)
    requires 0 < jobs && NoWrap(jobs, trusted)
    ensures JobsBeforeWrap(jobs, trusted) == jobs
  {
    assert trusted + 8 * (jobs - 1) + 1 < U32_BOUND;
  }

  lemma {:induction false} JobsAreAfterDead(c: Crypto, jobs: nat, trusted: U32, target: U32, blocks: seq<Block>)
    requires |blocks| == 8 * jobs && jobs <= 0x800_0000 && target <= trusted
    ensures JobsAfterDead(c, JobResults(c, trusted, target, blocks, jobs), blocks, JobsBeforeWrap(jobs, trusted),
                          WrappedStart(trusted), target)
  {
    hide BatchResult, Summaries, DeadJob;
    var segments, w, start := JobResults(c, trusted, target, blocks, jobs), JobsBeforeWrap(jobs, trusted),
        WrappedStart(trusted);
    forall j | 0 <= j < jobs
      ensures JobAt(c, segments, blocks, w, start, target, j)
    {
      assert segments[j] == JobResult(c, trusted, target, blocks, j);
      if j < w {
        JobWorksOn(c, trusted, target, blocks, j, blocks[8 * j..8 * j + 8], trusted + 8 * j + 1);
        DisabledIsDead(c, blocks[8 * j..8 * j + 8], trusted + 8 * j + 1, target);
      } else {
        WrappedJob(c, jobs, trusted, target, blocks, j);
      }
    }
  }

  lemma {:induction false} WrappedJob(c: Crypto, jobs: nat, trusted: U32, target: U32, blocks: seq<Block>, j: nat)
    requires |blocks| == 8 * jobs && jobs <= 0x800_0000 && JobsBeforeWrap(jobs, trusted) <= j < jobs
    ensures JobResult(c, trusted, target, blocks, j) ==
            Summaries(c, target)(blocks[8 * j..8 * j + 8],
                                 WrappedStart(trusted) + 8 * (j - JobsBeforeWrap(jobs, trusted)))
  {
    hide BatchResult, Summary;
    var chunk, start := blocks[8 * j..8 * j + 8], WrappedStart(trusted) + 8 * (j - JobsBeforeWrap(jobs, trusted));
    assert start == trusted + 8 * j + 1 - U32_BOUND;
    JobWorksOn(c, trusted, target, blocks, j, chunk, start);
    BatchIsSummary(c, chunk, start, Add32(start, 7), target);
  }

  lemma {:induction false} DisabledIsDead(c: Crypto, chunk: seq<Block>, start: U32, target: U32)
    requires |chunk| == 8 && target < start
    ensures DeadJob(BatchResult(c, chunk, start, Add32(start, 7), target), chunk)
  {
    hide MerkleRoot;
    BatchIsSummary(c, chunk, start, Add32(start, 7), target);
    assert ChainOf(chunk, start, 0);
  }

  /** What is accepted when the target is not above the trusted block. */
  ghost predicate AcceptedBelow(jobs: nat, trusted: U32, trustedHash: Bytes32, target: U32, blocks: seq<Block>)
    requires |blocks| == 8 * jobs && IsPow2(|blocks|)
  {
    var dead, start := 8 * JobsBeforeWrap(jobs, trusted), WrappedStart(trusted);
    blocks[0].parentHash == trustedHash && LiveAccepted(blocks, dead, start, target)
  }

  /** Of blocks of which the first ones are in disabled jobs: either no job is enabled, or there is a chain
      to the target that follows nothing. */
  ghost predicate LiveAccepted(blocks: seq<Block>, dead: nat, start: nat, target: U32)
    requires IsPow2(|blocks|) && dead <= |blocks|
  {
    if dead == |blocks| || target < start then target == 0
    else
      && target - start < |blocks| - dead
      && ChainOf(blocks[dead..], start, target - start + 1)
      && Bridged(blocks, dead)
  }

  /** The bound trusted < target is left to the caller. Without it, the verifier accepts target 0 when
      no job is enabled, whatever the headers are apart from the first one's parent hash, and returns
      the zero hash. When the block numbers wrap around and jobs are enabled after that, it
      accepts a chain from their first block number to the target, if the first blocks of the halves
      joined to disabled ones follow nothing, and it returns the target's hash. */
  lemma {:induction false} TargetNotAboveTrusted(c: Crypto, jobs: nat, trusted: U32, trustedHash: Bytes32, target: U32,
                                                 blocks: seq<Block>)
    requires IsPow2(jobs) && jobs <= 0x800_0000 && |blocks| == 8 * jobs && target <= trusted
    ensures IsPow2(|blocks|)
    ensures var r := BlocksResult(c, jobs, trusted, trustedHash, target, blocks);
            var dead, start := 8 * JobsBeforeWrap(jobs, trusted), WrappedStart(trusted);
            && (r.Some? <==> AcceptedBelow(jobs, trusted, trustedHash, target, blocks))
            && (r.Some? ==> r.value.targetHeaderHash ==
                            if dead == |blocks| || target < start then ZERO32 else blocks[dead + (target - start)].hash)
            && (NoWrap(jobs, trusted) ==>
                  (r.Some? <==> target == 0 && blocks[0].parentHash == trustedHash)
                    && (r.Some? ==> r.value.targetHeaderHash == ZERO32))
  {
    hide *;
    var dead, start := 8 * JobsBeforeWrap(jobs, trusted), WrappedStart(trusted);
    JobsReduced(c, jobs, trusted, target, blocks);
    BelowConcluded(c, jobs, trusted, trustedHash, target, blocks, dead, start);
    BelowMeans(jobs, trusted, trustedHash, target, blocks);
    if NoWrap(jobs, trusted) {
      JobsArePositive(jobs);
      NoWrapNoLiveJob(jobs, trusted);
      NothingLive(blocks, start, target);
    }
  }

  lemma {:induction false} JobsArePositive(jobs: nat)
    requires IsPow2(jobs)
    ensures jobs > 0
  {
  }

  lemma {:induction false} BelowMeans(jobs: nat, trusted: U32, trustedHash: Bytes32, target: U32, blocks: seq<Block>)
    requires |blocks| == 8 * jobs && IsPow2(|blocks|)
    ensures AcceptedBelow(jobs, trusted, trustedHash, target, blocks) <==>
              && blocks[0].parentHash == trustedHash
              && LiveAccepted(blocks, 8 * JobsBeforeWrap(jobs, trusted), WrappedStart(trusted), target)
  {
    hide LiveAccepted, JobsBeforeWrap, WrappedStart, IsPow2;
  }

  lemma {:induction false} BelowConcluded(c: Crypto, jobs: nat, trusted: U32, trustedHash: Bytes32, target: U32,
                                          blocks: seq<Block>, dead: nat, start: nat)
    requires IsPow2(jobs) && |blocks| == 8 * jobs <= 0x4000_0000 && IsPow2(|blocks|) && dead <= |blocks|
    requires Reduced(LevelFold(JoinOp(c), JobResults(c, trusted, target, blocks, jobs)), blocks, dead, start, target)
    ensures var r := BlocksResult(c, jobs, trusted, trustedHash, target, blocks);
            && (r.Some? <==> blocks[0].parentHash == trustedHash && LiveAccepted(blocks, dead, start, target))
            && (r.Some? ==> dead == |blocks| || target < start || dead + (target - start) < |blocks|)
            && (r.Some? ==> r.value.targetHeaderHash ==
                            if dead == |blocks| || target < start then ZERO32 else blocks[dead + (target - start)].hash)
  {
    hide JobResults, JoinOp, LevelFold, Reduced, Conclude, IsPow2, ChainOf, Bridged;
    ConcludeReduced(trustedHash, target, blocks, dead, start,
                    LevelFold(JoinOp(c), JobResults(c, trusted, target, blocks, jobs)));
  }

  lemma {:induction false} NothingLive(blocks: seq<Block>, start: nat, target: U32)
    requires IsPow2(|blocks|)
    ensures LiveAccepted(blocks, |blocks|, start, target) <==> target == 0
  {
  }

  lemma {:induction false} JobsReduced(c: Crypto, jobs: nat, trusted: U32, target: U32, blocks: seq<Block>)
    requires IsPow2(jobs) && jobs <= 0x800_0000 && |blocks| == 8 * jobs && target <= trusted
    ensures IsPow2(|blocks|)
    ensures Reduced(LevelFold(JoinOp(c), JobResults(c, trusted, target, blocks, jobs)), blocks,
                    8 * JobsBeforeWrap(jobs, trusted), WrappedStart(trusted), target)
  {
    hide JobsAfterDead, Reduced, LevelFold, TreeFold, JoinOp, IsPow2, JobsBeforeWrap, WrappedStart, JobResult;
    JobsAreAfterDead(c, jobs, trusted, target, blocks);
    var segments := JobResults(c, trusted, target, blocks, jobs);
    LevelFoldIsTreeFold(JoinOp(c), segments);
    FoldAfterDead(c, segments, blocks, JobsBeforeWrap(jobs, trusted), WrappedStart(trusted), target);
  }

  lemma {:induction false} ConcludeReduced(trustedHash: Bytes32, target: U32, blocks: seq<Block>, dead: nat, start: nat,
                                           root: Option<Segment>)
    requires IsPow2(|blocks|) && dead <= |blocks| && Reduced(root, blocks, dead, start, target)
    ensures var r := Conclude(trustedHash, target, root);
            && (r.Some? <==> blocks[0].parentHash == trustedHash && LiveAccepted(blocks, dead, start, target))
            && (r.Some? ==> r.value.targetHeaderHash ==
                            if dead == |blocks| || target < start then ZERO32 else blocks[dead + (target - start)].hash)
  {
    hide Bridged, IsPow2;
    var n := Clamp(start, target, |blocks| - dead);
    if n == 0 {
      assert ChainOf(blocks[dead..], start, 0);
    } else if ChainOf(blocks[dead..], start, n) {
      LastInPlace(blocks[dead..], start, n);
      assert blocks[dead..][n - 1] == blocks[dead + n - 1];
    }
  }

  /** An input with wrap-around: two jobs, trusted block 2^32 - 8, target 1. The second job's first block is
      accepted as the target. */
  lemma {:induction false} WrappedTarget(c: Crypto, trustedHash: Bytes32, blocks: seq<Block>)
    requires |blocks| == 16 && blocks[0].parentHash == trustedHash
    requires blocks[8].number == 1 && blocks[8].parentHash == ZERO32
    ensures IsPow2(2)
    ensures var r := BlocksResult(c, 2, U32_BOUND - 8, trustedHash, 1, blocks);
            r.Some? && r.value.targetHeaderHash == blocks[8].hash
  {
    var trusted := U32_BOUND - 8;
    assert JobsBeforeWrap(2, trusted) == 1 && WrappedStart(trusted) == 1;
    assert IsPow2(16);
    assert blocks[8..][0] == blocks[8] && InPlace(blocks[8..], 1, 0);
    assert Bridged(blocks, 8) by {
      assert Bridged(blocks[8..], 0);
    }
    hide Bridged, BlocksResult;
    TargetNotAboveTrusted(c, 2, trusted, trustedHash, 1, blocks);
  }
}
