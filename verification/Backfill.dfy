/** The back-fill script (bin/fill_block_range.rs): ranges of at most 256 blocks from the
    contract's latest block to an end block, and what the contract makes of them. */
module Backfill {
  import opened Basics
  import opened Headers
  import opened Subchain
  import opened SubchainTheorem
  import opened Fetcher
  import opened Authorities
  import opened Contract
  import opened Safety

  /** Range k of the data covers blocks start + 256k + 1, ... , with the chain's own hash and roots. */
  ghost predicate RangeFilled(c: Crypto, chain: Chain, d: BlockRangeData, start: nat, end: nat, k: nat)
    requires |d.startBlocks| == |d.endBlocks| == |d.headerHashes| == |d.dataRoots| == |d.stateRoots|
    requires k < |d.startBlocks|
  {
    && start + 256 * k < end
    && d.startBlocks[k] == start + 256 * k
    && d.endBlocks[k] == Min(start + 256 * k + 256, end)
    && d.headerHashes[k] == HeaderHash(c, chain(d.endBlocks[k]))
    && Roots(d.stateRoots[k], d.dataRoots[k]) == RangeRoots(c, chain, d.startBlocks[k], d.endBlocks[k])
  }

  /** The data tiles start..end with the chain's ranges. */
  ghost predicate Filled(c: Crypto, chain: Chain, d: BlockRangeData, start: nat, end: nat) {
    && |d.startBlocks| == |d.endBlocks| == |d.headerHashes| == |d.dataRoots| == |d.stateRoots|
    && (forall k | 0 <= k < |d.startBlocks| :: RangeFilled(c, chain, d, start, end, k))
    && end <= start + 256 * |d.startBlocks|
  }

  /** Neither the sum that ends range k nor the cursor of its fetch overflows. */
  ghost predicate RangeFits(start: nat, end: nat, k: nat) {
    start + 256 * k < end ==>
      start + 256 * k + 256 < U32_BOUND && CursorFits(start + 256 * k + 1, Min(start + 256 * k + 256, end))
  }

  /** `get_block_range_data`; the end set is read from the chain. */
  method GetBlockRangeData(c: Crypto, chain: Chain, start: U32, end: U32, endSetId: U64, endKeys: seq<Bytes32>)
    returns (d: BlockRangeData)
    requires (forall k: nat :: RangeFits(start, end, k)) && endKeys != []
    ensures Filled(c, chain, d, start, end)
    ensures start >= end ==> d.startBlocks == []
    ensures d.endSetId == endSetId && d.endSetHash == AuthoritySetHash(c, endKeys)
  {
    hide RangeRoots, HeaderHash, AuthoritySetHash, CursorFits;
    var startBlocks: seq<U32>, endBlocks: seq<U32> := [], [];
    var headerHashes: seq<Bytes32>, dataRoots: seq<Bytes32>, stateRoots: seq<Bytes32> := [], [], [];
    var i: nat := start;
    while i < end
      invariant |startBlocks| == |endBlocks| == |headerHashes| == |dataRoots| == |stateRoots|
      invariant i == start + 256 * |startBlocks|
      invariant start >= end ==> startBlocks == []
      invariant forall k | 0 <= k < |startBlocks| ::
                  RangeFilled(c, chain,
                              BlockRangeData(startBlocks, endBlocks, headerHashes, dataRoots, stateRoots, 0, ZERO32),
                              start, end, k)
    {
      assert RangeFits(start, end, |startBlocks|);
      var rangeEnd: U32 := Min(i + 256, end);
      var roots := GetMerkleRootCommitments(c, chain, i, rangeEnd);
      ghost var before := BlockRangeData(startBlocks, endBlocks, headerHashes, dataRoots, stateRoots, 0, ZERO32);
      startBlocks := startBlocks + [i];
      endBlocks := endBlocks + [rangeEnd];
      headerHashes := headerHashes + [HeaderHash(c, chain(rangeEnd))];
      dataRoots := dataRoots + [roots.value.dataRoot];
      stateRoots := stateRoots + [roots.value.stateRoot];
      i := i + 256;
      ghost var after := BlockRangeData(startBlocks, endBlocks, headerHashes, dataRoots, stateRoots, 0, ZERO32);
      forall k | 0 <= k < |startBlocks|
        ensures RangeFilled(c, chain, after, start, end, k)
      {
        assert k < |before.startBlocks| ==> RangeFilled(c, chain, before, start, end, k);
      }
    }
    var endSetHash := ComputeAuthoritySetHash(c, endKeys);
    d := BlockRangeData(startBlocks, endBlocks, headerHashes, dataRoots, stateRoots, endSetId, endSetHash);
    ghost var e := BlockRangeData(startBlocks, endBlocks, headerHashes, dataRoots, stateRoots, 0, ZERO32);
    forall k | 0 <= k < |startBlocks|
      ensures RangeFilled(c, chain, d, start, end, k)
    {
      assert RangeFilled(c, chain, e, start, end, k);
    }
  }

  /** The tiling in numbers: as few ranges as 256 blocks each allow, all full but the last. */
  lemma {:induction false} FilledInNumbers(c: Crypto, chain: Chain, d: BlockRangeData, start: U32, end: U32)
    requires Filled(c, chain, d, start, end) && start <= end
    ensures var n := |d.startBlocks|;
            && n == (end - start + 255) / 256
            && |d.endBlocks| == |d.headerHashes| == |d.dataRoots| == |d.stateRoots| == n
            && forall k | 0 <= k < n ::
                 && d.startBlocks[k] == start + 256 * k
                 && d.endBlocks[k] == (if k == n - 1 then end else start + 256 * k + 256)
                 && d.headerHashes[k] == HeaderHash(c, chain(d.endBlocks[k]))
                 && Roots(d.stateRoots[k], d.dataRoots[k]) == RangeRoots(c, chain, d.startBlocks[k], d.endBlocks[k])
  {
    hide HeaderHash, RangeRoots;
    var n := |d.startBlocks|;
    assert n > 0 ==> RangeFilled(c, chain, d, start, end, n - 1);
    forall k | 0 <= k < n
      ensures d.startBlocks[k] == start + 256 * k
      ensures d.endBlocks[k] == (if k == n - 1 then end else start + 256 * k + 256)
      ensures d.headerHashes[k] == HeaderHash(c, chain(d.endBlocks[k]))
      ensures Roots(d.stateRoots[k], d.dataRoots[k]) == RangeRoots(c, chain, d.startBlocks[k], d.endBlocks[k])
    {
      assert RangeFilled(c, chain, d, start, end, k);
    }
  }

  /** The contract accepts the data, and ends up at the end block. */
  lemma {:induction false} BackfillAccepted(c: Crypto, chain: Chain, s: State, d: BlockRangeData, end: U32)
    requires Filled(c, chain, d, s.latestBlock, end) && s.latestBlock < end
    ensures SameLengths(d) && Contiguous(d, s.latestBlock) && d.endBlocks[|d.endBlocks| - 1] == end
    ensures BackfillStep(s, d, true).outcome == Done && BackfillStep(s, d, true).state.latestBlock == end
  {
    hide RangeRoots, HeaderHash;
    var n := |d.startBlocks|;
    assert RangeFilled(c, chain, d, s.latestBlock, end, 0);
    assert RangeFilled(c, chain, d, s.latestBlock, end, n - 1);
    forall i | 0 <= i < n - 1
      ensures d.endBlocks[i] == d.startBlocks[i + 1]
    {
      assert RangeFilled(c, chain, d, s.latestBlock, end, i) && RangeFilled(c, chain, d, s.latestBlock, end, i + 1);
    }
  }

  /** The blocks from + 1, ..., to of a chain. */
  ghost function ChainBlocks(c: Crypto, chain: Chain, from: nat, to: nat): (r: seq<Block>)
    requires from <= to
    ensures |r| == to - from && forall i | 0 <= i < to - from :: r[i] == BlockOf(c, chain(from + 1 + i))
  {
    seq(to - from, i requires 0 <= i < to - from => BlockOf(c, chain(from + 1 + i)))
  }

  lemma {:induction false} RootsOfChainBlocks(c: Crypto, chain: Chain, from: U32, to: U32)
    requires from <= to <= from + MAX_NUM_HEADERS
    ensures RangeRoots(c, chain, from, to) ==
            Roots(RangeRoot(c, StateRoots(ChainBlocks(c, chain, from, to))),
                  RangeRoot(c, DataRoots(ChainBlocks(c, chain, from, to))))
  {
    hide RangeRoot, HeaderHash;
    var headers, blocks := Slice(chain, from + 1, to + 1), ChainBlocks(c, chain, from, to);
    assert HeaderStateRoots(headers) == StateRoots(blocks) && HeaderDataRoots(headers) == DataRoots(blocks);
  }

  lemma {:induction false} SubChain(c: Crypto, chain: Chain, lo: nat, from: nat, to: nat, hi: nat)
    requires ValidChain(c, chain, lo, hi) && lo <= from <= to <= hi
    ensures ValidChain(c, chain, from, to)
  {
  }

  /** What an honest range contributes: a chain from the block it starts at, ending in the target. */
  lemma {:induction false} HonestBlocks(c: Crypto, chain: Chain, from: U32, to: U32)
    requires from < to <= from + MAX_NUM_HEADERS && ValidChain(c, chain, from, to)
    ensures var added := ChainBlocks(c, chain, from, to);
            && ChainOf(added, from + 1, |added|)
            && added[0].parentHash == HeaderHash(c, chain(from))
            && added[|added| - 1].hash == HeaderHash(c, chain(to))
            && RangeRoots(c, chain, from, to) == Roots(RangeRoot(c, StateRoots(added)), RangeRoot(c, DataRoots(added)))
  {
    var added := ChainBlocks(c, chain, from, to);
    ChainInPlace(c, chain, from, to, added);
    RootsOfChainBlocks(c, chain, from, to);
    hide RangeRoots, RangeRoot, ChainOf, HeaderHash;
    assert added[|added| - 1] == BlockOf(c, chain(from + 1 + (|added| - 1)));
  }

  /** Storing one honest range after the latest block. */
  lemma {:induction false} HonestRangeKeepsSafe(c: Crypto, g: Genesis, s: State, blocks: seq<Block>, cuts: seq<U32>,
                                                chain: Chain, target: U32, hash: Bytes32, stateRoot: Bytes32,
                                                dataRoot: Bytes32, added: seq<Block>)
    requires Safe(c, g, s, blocks, cuts) && s.latestBlock < target <= s.latestBlock + MAX_NUM_HEADERS
    requires ValidChain(c, chain, s.latestBlock, target) && added == ChainBlocks(c, chain, s.latestBlock, target)
    requires HashAt(g, blocks, s.latestBlock) == HeaderHash(c, chain(s.latestBlock))
    requires hash == HeaderHash(c, chain(target))
    requires Roots(stateRoot, dataRoot) == RangeRoots(c, chain, s.latestBlock, target)
    ensures Safe(c, g, StoreRange(s, s.latestBlock, target, hash, stateRoot, dataRoot).(latestBlock := target),
                 blocks + added, cuts + [target])
  {
    hide HashAt, Safe, RangeRoots, RangeRoot, HeaderHash, ChainOf, ValidChain, ChainBlocks, StateRoots, DataRoots,
         StoreRange;
    HonestBlocks(c, chain, s.latestBlock, target);
    AppendKeepsSafe(c, g, s, blocks, cuts, added, target, hash, stateRoot, dataRoot);
  }

  lemma {:induction false} HashAtEnd(g: Genesis, blocks: seq<Block>, added: seq<Block>)
    requires added != []
    ensures HashAt(g, blocks + added, g.height + |blocks| + |added|) == added[|added| - 1].hash
  {
  }

  lemma {:induction false} ChainBlocksConcat(c: Crypto, chain: Chain, a: nat, b: nat, d: nat)
    requires a <= b <= d
    ensures ChainBlocks(c, chain, a, d) == ChainBlocks(c, chain, a, b) + ChainBlocks(c, chain, b, d)
  {
    hide HeaderHash;
  }

  /** The state after n ranges, as if the latest block moved along. */
  ghost function Partly(s: State, d: BlockRangeData, n: nat): State
    requires SameLengths(d) && n <= |d.startBlocks|
  {
    StoreRanges(s, d, n).(latestBlock := if n == 0 then s.latestBlock else d.endBlocks[n - 1])
  }

  /** State t is safe and covers the chain's blocks from `from` to its latest block. */
  ghost predicate Covers(c: Crypto, g: Genesis, chain: Chain, blocks: seq<Block>, from: nat, t: State, cuts: seq<U32>) {
    && g.height + |blocks| == from <= t.latestBlock
    && Safe(c, g, t, blocks + ChainBlocks(c, chain, from, t.latestBlock), cuts)
    && HashAt(g, blocks + ChainBlocks(c, chain, from, t.latestBlock), t.latestBlock) ==
       HeaderHash(c, chain(t.latestBlock))
  }

  lemma {:induction false} CoversItself(c: Crypto, g: Genesis, chain: Chain, blocks: seq<Block>, s: State,
                                        cuts: seq<U32>)
    requires Safe(c, g, s, blocks, cuts) && s.latestBlock == g.height + |blocks|
    requires HashAt(g, blocks, s.latestBlock) == HeaderHash(c, chain(s.latestBlock))
    ensures Covers(c, g, chain, blocks, s.latestBlock, s, cuts)
  {
    hide Safe, HashAt, HeaderHash;
    assert blocks + ChainBlocks(c, chain, s.latestBlock, s.latestBlock) == blocks;
  }

  lemma {:induction false} PartlySafe(c: Crypto, g: Genesis, s: State, blocks: seq<Block>, cuts: seq<U32>, chain: Chain,
                                      d: BlockRangeData, end: U32, n: nat)
    requires Filled(c, chain, d, s.latestBlock, end) && SameLengths(d) && n <= |d.startBlocks|
    requires ValidChain(c, chain, s.latestBlock, end) && Covers(c, g, chain, blocks, s.latestBlock, s, cuts)
    ensures Covers(c, g, chain, blocks, s.latestBlock, Partly(s, d, n), cuts + d.endBlocks[..n])
  {
    hide Covers, Filled, RangeFilled, ValidChain, AfterRange;
    if n == 0 {
      assert cuts + d.endBlocks[..0] == cuts;
    } else {
      hide Partly;
      PartlySafe(c, g, s, blocks, cuts, chain, d, end, n - 1);
      NextRange(c, chain, s, d, end, n - 1);
      NextRangeSafe(c, g, s.latestBlock, Partly(s, d, n - 1), blocks, cuts, chain, d, end, n - 1);
    }
  }

  /** Range k starts where the ranges before it end. */
  lemma {:induction false} NextRange(c: Crypto, chain: Chain, s: State, d: BlockRangeData, end: U32, k: nat)
    requires Filled(c, chain, d, s.latestBlock, end) && SameLengths(d) && k < |d.startBlocks|
    ensures var p := Partly(s, d, k);
            && RangeFilled(c, chain, d, s.latestBlock, end, k)
            && p.latestBlock == d.startBlocks[k]
            && Partly(s, d, k + 1) == AfterRange(p, d, k)
  {
    hide HeaderHash, RangeRoots;
    assert RangeFilled(c, chain, d, s.latestBlock, end, k);
    assert k > 0 ==> RangeFilled(c, chain, d, s.latestBlock, end, k - 1);
  }

  ghost function AfterRange(p: State, d: BlockRangeData, k: nat): State
    requires SameLengths(d) && k < |d.startBlocks|
  {
    StoreRange(p, p.latestBlock, d.endBlocks[k], d.headerHashes[k], d.stateRoots[k], d.dataRoots[k])
    .(latestBlock := d.endBlocks[k])
  }

  lemma {:induction false} NextRangeSafe(c: Crypto, g: Genesis, from: U32, p: State, blocks: seq<Block>, cuts: seq<U32>,
                                         chain: Chain, d: BlockRangeData, end: U32, k: nat)
    requires SameLengths(d) && k < |d.startBlocks| && ValidChain(c, chain, from, end)
    requires RangeFilled(c, chain, d, from, end, k) && p.latestBlock == d.startBlocks[k]
    requires Covers(c, g, chain, blocks, from, p, cuts + d.endBlocks[..k])
    ensures Covers(c, g, chain, blocks, from, AfterRange(p, d, k), cuts + d.endBlocks[..k + 1])
  {
    var to := d.endBlocks[k];
    SubChain(c, chain, from, p.latestBlock, to, end);
    CoverMore(c, g, from, p, blocks, cuts + d.endBlocks[..k], chain, to, d.headerHashes[k], d.stateRoots[k],
              d.dataRoots[k]);
    hide Covers;
    PrefixNext(cuts, d.endBlocks, k);
  }

  lemma {:induction false} CoverMore(c: Crypto, g: Genesis, from: U32, p: State, blocks: seq<Block>, cuts: seq<U32>,
                                     chain: Chain, to: U32, hash: Bytes32, stateRoot: Bytes32, dataRoot: Bytes32)
    requires from <= p.latestBlock && Covers(c, g, chain, blocks, from, p, cuts)
    requires ValidChain(c, chain, p.latestBlock, to)
    requires p.latestBlock < to <= p.latestBlock + MAX_NUM_HEADERS && hash == HeaderHash(c, chain(to))
    requires Roots(stateRoot, dataRoot) == RangeRoots(c, chain, p.latestBlock, to)
    ensures Covers(c, g, chain, blocks, from,
                   StoreRange(p, p.latestBlock, to, hash, stateRoot, dataRoot).(latestBlock := to), cuts + [to])
  {
    var t := StoreRange(p, p.latestBlock, to, hash, stateRoot, dataRoot).(latestBlock := to);
    var prior, added := blocks + ChainBlocks(c, chain, from, p.latestBlock), ChainBlocks(c, chain, p.latestBlock, to);
    CoversMeans(c, g, chain, blocks, from, p, cuts, prior);
    CoveredConcat(c, chain, blocks, from, p.latestBlock, to);
    hide Covers, Safe, HeaderHash, RangeRoots, HashAt, ValidChain, ChainBlocks, StoreRange;
    HonestRangeKeepsSafe(c, g, p, prior, cuts, chain, to, hash, stateRoot, dataRoot, added);
    HonestBlocks(c, chain, p.latestBlock, to);
    SafeLength(c, g, p, prior, cuts);
    HashAtEnd(g, prior, added);
    CoversMeans(c, g, chain, blocks, from, t, cuts + [to], prior + added);
  }

  lemma {:induction false} CoveredConcat(c: Crypto, chain: Chain, blocks: seq<Block>, a: nat, b: nat, d: nat)
    requires a <= b <= d
    ensures blocks + ChainBlocks(c, chain, a, d) == (blocks + ChainBlocks(c, chain, a, b)) + ChainBlocks(c, chain, b, d)
  {
    ChainBlocksConcat(c, chain, a, b, d);
    hide ChainBlocks;
  }

  lemma {:induction false} CoversMeans(c: Crypto, g: Genesis, chain: Chain, blocks: seq<Block>, from: nat, t: State,
                                       cuts: seq<U32>, all: seq<Block>)
    requires from <= t.latestBlock && all == blocks + ChainBlocks(c, chain, from, t.latestBlock)
    ensures Covers(c, g, chain, blocks, from, t, cuts) <==>
            && g.height + |blocks| == from
            && Safe(c, g, t, all, cuts)
            && HashAt(g, all, t.latestBlock) == HeaderHash(c, chain(t.latestBlock))
  {
    hide Safe, HashAt, HeaderHash;
  }

  /** Back-filling from a chain whose block at the latest height has the hash the contract holds
      keeps the contract safe: afterwards the chain's blocks up to the end are covered, every
      range under its own hash and roots. */
  lemma {:induction false} BackfillKeepsSafe(c: Crypto, g: Genesis, s: State, blocks: seq<Block>, cuts: seq<U32>,
                                             chain: Chain, d: BlockRangeData, end: U32)
    requires Safe(c, g, s, blocks, cuts) && s.latestBlock < end && Filled(c, chain, d, s.latestBlock, end)
    requires ValidChain(c, chain, s.latestBlock, end)
    requires Read(s.headerHashes, s.latestBlock) == HeaderHash(c, chain(s.latestBlock))
    ensures BackfillStep(s, d, true).outcome == Done
    ensures Safe(c, g, BackfillStep(s, d, true).state,
                 blocks + ChainBlocks(c, chain, s.latestBlock, end), cuts + d.endBlocks)
  {
    hide HeaderHash, ChainBlocks, ValidChain, Filled, Safe, Covers, Contiguous, HashAt, BackfillStep, Partly;
    BackfillAccepted(c, chain, s, d, end);
    SafeLength(c, g, s, blocks, cuts);
    LatestHash(c, g, s, blocks, cuts);
    CoversItself(c, g, chain, blocks, s, cuts);
    var n := |d.startBlocks|;
    PartlySafe(c, g, s, blocks, cuts, chain, d, end, n);
    assert d.endBlocks[..n] == d.endBlocks;
    var t := Partly(s, d, n);
    BackfillEnds(s, d, end);
    CoversMeans(c, g, chain, blocks, s.latestBlock, t, cuts + d.endBlocks,
                blocks + ChainBlocks(c, chain, s.latestBlock, end));
    AuthoritiesDoNotMatter(c, g, t, blocks + ChainBlocks(c, chain, s.latestBlock, end), cuts + d.endBlocks,
                           t.authorityHashes[d.endSetId := d.endSetHash], t.frozen);
  }

  /** What an accepted back-fill leaves behind: all its ranges, and the end set. */
  lemma {:induction false} BackfillEnds(s: State, d: BlockRangeData, end: U32)
    requires SameLengths(d) && Contiguous(d, s.latestBlock) && d.endBlocks[|d.endBlocks| - 1] == end
    ensures var t := Partly(s, d, |d.startBlocks|);
            && t.latestBlock == end
            && BackfillStep(s, d, true).state == t.(authorityHashes := t.authorityHashes[d.endSetId := d.endSetHash])
  {
    hide StoreRanges;
  }
}
