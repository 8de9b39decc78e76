/** What a run stored is what the chain says: the contract only ever sees hashes and proofs of
    arbitrary witnesses, but once one stored hash is that of a valid chain, everything stored up to
    its block is the chain's. */
module OnChain {
  import opened Basics
  import opened Headers
  import opened Subchain
  import opened SubchainTheorem
  import opened Fetcher
  import opened Justifications
  import opened HeaderRange
  import opened Contract
  import opened Safety
  import opened Backfill
  import opened Runs

  // ----- the headers behind a run

  function HeaderAt(chain: Chain, b: nat): EncodedHeader
    requires Fits(chain, b)
  {
    PadHeader(chain(b))
  }

  /** The padded headers of blocks from + 1, ..., to of a chain. */
  function ChainHeaders(chain: Chain, from: nat, to: nat): (r: seq<EncodedHeader>)
    requires from <= to && forall b | from < b <= to :: Fits(chain, b)
    ensures |r| == to - from && forall i | 0 <= i < to - from :: r[i] == HeaderAt(chain, from + 1 + i)
  {
    seq<EncodedHeader>(to - from, i requires 0 <= i < to - from => HeaderAt(chain, from + 1 + i))
  }

  /** The headers behind the blocks that a call adds: those of the proof, whatever they are, or those
      of the chain that a back-fill read. */
  ghost function Shown(s: State, a: Action): seq<EncodedHeader> {
    if StepOf(s, a).outcome != Done then []
    else
      match a
      case CommitHeaderRange(_, target, _, proof) =>
        if s.latestBlock < target <= s.latestBlock + |proof.headers|
        then proof.headers[..target - s.latestBlock] else []
      case FillBlockRange(_, _, chain, end) =>
        if s.latestBlock < end && forall b | s.latestBlock < b <= end :: Fits(chain, b)
        then ChainHeaders(chain, s.latestBlock, end) else []
      case _ => []
  }

  ghost function ShownAfter(s: State, actions: seq<Action>): seq<EncodedHeader> {
    if actions == [] then []
    else
      var before := actions[..|actions| - 1];
      ShownAfter(s, before) + Shown(StateAfter(s, before), actions[|actions| - 1])
  }

  /** The headers of a chain decode to its blocks. */
  lemma {:induction false} ChainHeadersDecode(c: Crypto, chain: Chain, from: nat, to: nat)
    requires from <= to && forall b | from < b <= to :: Fits(chain, b)
    ensures DecodeAll(c, ChainHeaders(chain, from, to)) == Some(ChainBlocks(c, chain, from, to))
  {
    hide DecodeHeader, PadHeader, EncodeHeader;
    var headers, blocks := ChainHeaders(chain, from, to), ChainBlocks(c, chain, from, to);
    forall i | 0 <= i < to - from
      ensures DecodeHeader(c, headers[i]) == Some(blocks[i])
    {
      assert headers[i] == HeaderAt(chain, from + 1 + i);
      HeaderRoundTrip(c, chain(from + 1 + i));
    }
    assert DecodeAll(c, headers).Some?;
    assert DecodeAll(c, headers).value == blocks;
  }

  lemma {:induction false} ShownDecodes(c: Crypto, s: State, a: Action)
    requires Backed(c, s, a)
    ensures DecodeAll(c, Shown(s, a)) == Some(Gain(c, s, a))
  {
    hide DecodeAll, Justified, Filled, HeaderHash;
    MapJobsArePow2();
    assert DecodeAll(c, []) == Some([]) by { NothingDecodes(c); }
    if StepOf(s, a).outcome == Done {
      match a
      case CommitHeaderRange(_, target, _, proof) =>
        CommitDecodes(c, s, a);
      case FillBlockRange(_, _, chain, end) =>
        ChainFits(c, chain, s.latestBlock, end);
        ChainHeadersDecode(c, chain, s.latestBlock, end);
      case _ =>
    }
  }

  lemma {:induction false} NothingDecodes(c: Crypto)
    ensures DecodeAll(c, []) == Some([])
  {
  }

  lemma {:induction false} CommitDecodes(c: Crypto, s: State, a: Action)
    requires Backed(c, s, a) && a.CommitHeaderRange? && StepOf(s, a).outcome == Done
    ensures DecodeAll(c, Shown(s, a)) == Some(Gain(c, s, a))
  {
    hide DecodeHeader, DecodeAll, HeaderRangeResult, Continues, StoreRange;
    VerifiedRange(c, RangeInput(s, a.setId, a.target), a.proof, a.verified.value);
    DecodeChunk(c, a.proof.headers, 0, a.target - s.latestBlock);
    var n := a.target - s.latestBlock;
    assert a.proof.headers[0..n] == a.proof.headers[..n];
    assert DecodeAll(c, a.proof.headers).value[0..n] == DecodeAll(c, a.proof.headers).value[..n];
  }

  /** The headers behind a run decode to the blocks it made known. */
  lemma {:induction false} RunDecodes(c: Crypto, s: State, actions: seq<Action>)
    requires BackedRun(c, s, actions)
    ensures DecodeAll(c, ShownAfter(s, actions)) == Some(BlocksAfter(c, s, actions))
  {
    hide Backed, DecodeAll, Shown, Gain, StateAfter;
    if actions == [] {
      NothingDecodes(c);
    } else {
      var before, last := actions[..|actions| - 1], actions[|actions| - 1];
      RunDecodes(c, s, before);
      ShownDecodes(c, StateAfter(s, before), last);
      DecodeConcat(c, ShownAfter(s, before), Shown(StateAfter(s, before), last),
                   BlocksAfter(c, s, before), Gain(c, StateAfter(s, before), last));
    }
  }

  // ----- agreement with a chain

  /** A header behind blocks height + 1, ..., top collides with the chain's. */
  ghost predicate ShownCollide(c: Crypto, headers: seq<EncodedHeader>, chain: Chain, height: nat, top: nat)
    requires height <= top <= height + |headers| && forall b | height < b <= top :: Fits(chain, b)
  {
    SomeCollide(c, headers, ChainHeaders(chain, height, top), top - height)
  }

  lemma {:induction false} ChainCovered(chain: Chain, from: nat, to: nat)
    requires from <= to && forall b | from < b <= to :: Fits(chain, b)
    ensures forall i | 0 <= i < to - from :: FieldsCovered(ChainHeaders(chain, from, to)[i])
  {
    hide EncodeHeader, PadHeader, FieldsCovered;
    forall i | 0 <= i < to - from
      ensures FieldsCovered(ChainHeaders(chain, from, to)[i])
    {
      assert ChainHeaders(chain, from, to)[i] == HeaderAt(chain, from + 1 + i);
      ChainHeaderCovered(chain(from + 1 + i));
    }
  }

  /** Blocks that follow on from a genesis block are a chain. */
  lemma {:induction false} OneChainOf(g: Genesis, blocks: seq<Block>, n: nat)
    requires OneChain(g, blocks) && n <= |blocks|
    ensures ChainOf(blocks[..n], g.height + 1, n)
  {
    var start := g.height + 1;
    forall i | 0 <= i < n
      ensures InPlace(blocks[..n], start, i)
    {
      assert Follows(g, blocks, i);
    }
  }

  /** What backward agreement needs of the chain's side. */
  lemma {:induction false} ChainReady(c: Crypto, chain: Chain, height: U32, top: U32)
    requires height < top && ValidChain(c, chain, height, top) && forall b | height < b <= top :: Fits(chain, b)
    ensures var gs, ys := ChainHeaders(chain, height, top), ChainBlocks(c, chain, height, top);
            && DecodeAll(c, gs) == Some(ys) && ChainOf(ys, height + 1, top - height)
            && ys[top - height - 1].hash == HeaderHash(c, chain(top))
            && forall k | 0 <= k < top - height :: FieldsCovered(gs[k])
  {
    hide DecodeAll, DecodeHeader, HeaderHash, FieldsCovered, ChainHeaders, ChainBlocks, ChainOf, ValidChain, Fits;
    ChainHeadersDecode(c, chain, height, top);
    ChainCovered(chain, height, top);
    var n, ys := top - height, ChainBlocks(c, chain, height, top);
    ChainInPlace(c, chain, height, top, ys);
    assert ys[n - 1] == BlockOf(c, chain(height + 1 + (n - 1)));
  }

  lemma {:induction false} CoveredComparable(hs: seq<EncodedHeader>, gs: seq<EncodedHeader>, n: nat)
    requires |hs| == |gs| == n && forall k | 0 <= k < n :: FieldsCovered(gs[k])
    ensures AllComparable(hs, gs, n)
  {
    hide FieldsCovered;
  }

  /** Backwards along the parent links, from the hash of the last block: the blocks are the chain's. */
  lemma {:induction false} LinkedAgree(c: Crypto, xs: seq<Block>, headers: seq<EncodedHeader>, chain: Chain,
                                       height: U32, top: U32)
    requires height < top && |xs| == |headers| == top - height && DecodeAll(c, headers) == Some(xs)
    requires ChainOf(xs, height + 1, |xs|) && ValidChain(c, chain, height, top)
    requires xs[|xs| - 1].hash == HeaderHash(c, chain(top))
    requires forall b | height < b <= top :: Fits(chain, b)
    requires !SomeCollide(c, headers, ChainHeaders(chain, height, top), |xs|)
    ensures xs == ChainBlocks(c, chain, height, top)
  {
    hide *;
    ChainReady(c, chain, height, top);
    var gs, ys, n := ChainHeaders(chain, height, top), ChainBlocks(c, chain, height, top), top - height;
    CoveredComparable(headers, gs, n);
    forall i | 0 <= i < n
      ensures xs[i] == ys[i]
    {
      ChainsAgree(c, headers, gs, xs, ys, height + 1, n, i);
    }
  }

  /** The first n blocks of a run, with their headers. */
  lemma {:induction false} FirstBlocks(c: Crypto, g: Genesis, blocks: seq<Block>, headers: seq<EncodedHeader>, n: nat)
    requires OneChain(g, blocks) && DecodeAll(c, headers) == Some(blocks) && 0 < n <= |blocks|
    ensures |headers| == |blocks| && DecodeAll(c, headers[..n]) == Some(blocks[..n])
    ensures ChainOf(blocks[..n], g.height + 1, n)
    ensures blocks[..n][n - 1].hash == HashAt(g, blocks, g.height + n)
  {
    hide DecodeAll, DecodeHeader, OneChain, ChainOf;
    OneChainOf(g, blocks, n);
    DecodeChunk(c, headers, 0, n);
    assert headers[0..n] == headers[..n] && blocks[0..n] == blocks[..n];
  }

  lemma {:induction false} BlocksAgree(c: Crypto, g: Genesis, blocks: seq<Block>, headers: seq<EncodedHeader>,
                                       chain: Chain, top: U32)
    requires OneChain(g, blocks) && DecodeAll(c, headers) == Some(blocks)
    requires g.height < top <= g.height + |blocks| && ValidChain(c, chain, g.height, top)
    requires HashAt(g, blocks, top) == HeaderHash(c, chain(top))
    ensures forall b | g.height < b <= top :: Fits(chain, b)
    ensures !ShownCollide(c, headers, chain, g.height, top) ==>
              blocks[..top - g.height] == ChainBlocks(c, chain, g.height, top)
  {
    hide *;
    ChainFits(c, chain, g.height, top);
    var n := top - g.height;
    FirstBlocks(c, g, blocks, headers, n);
    if !ShownCollide(c, headers, chain, g.height, top) {
      NotShown(c, headers, chain, g.height, top);
      LinkedAgree(c, blocks[..n], headers[..n], chain, g.height, top);
    }
  }

  lemma {:induction false} NotShown(c: Crypto, headers: seq<EncodedHeader>, chain: Chain, height: nat, top: nat)
    requires height <= top <= height + |headers| && forall b | height < b <= top :: Fits(chain, b)
    requires !ShownCollide(c, headers, chain, height, top)
    ensures !SomeCollide(c, headers[..top - height], ChainHeaders(chain, height, top), top - height)
  {
    hide SomeCollide, Fits;
    FirstCollide(c, headers, ChainHeaders(chain, height, top), top - height);
  }

  lemma {:induction false} FirstCollide(c: Crypto, hs: seq<EncodedHeader>, gs: seq<EncodedHeader>, n: nat)
    requires n <= |hs| && n <= |gs|
    ensures SomeCollide(c, hs[..n], gs, n) <==> SomeCollide(c, hs, gs, n)
  {
    hide HeadersCollide;
    assert forall k | 0 <= k < n :: hs[..n][k] == hs[k];
  }

  // ----- what is stored

  /** Every hash stored for a block up to top is the chain's. */
  ghost predicate HashesOfChain(c: Crypto, chain: Chain, s: State, top: nat) {
    forall number | number in s.headerHashes && number <= top :: s.headerHashes[number] == HeaderHash(c, chain(number))
  }

  /** Both commitments of a range are the chain's own roots of it. */
  ghost predicate RootsOfChain(c: Crypto, chain: Chain, s: State, key: RangeKey) {
    && key.0 <= key.1 <= key.0 + MAX_NUM_HEADERS && key in s.stateRoots && key in s.dataRoots
    && Roots(s.stateRoots[key], s.dataRoots[key]) == RangeRoots(c, chain, key.0, key.1)
  }

  ghost predicate StoresChain(c: Crypto, chain: Chain, s: State, top: nat) {
    HashesOfChain(c, chain, s, top) && forall key | key in s.dataRoots && key.1 <= top :: RootsOfChain(c, chain, s, key)
  }

  lemma {:induction false} SafeChain(c: Crypto, g: Genesis, s: State, blocks: seq<Block>, cuts: seq<U32>)
    requires Safe(c, g, s, blocks, cuts)
    ensures OneChain(g, blocks)
  {
    hide OneChain;
  }

  lemma {:induction false} StoredHash(c: Crypto, g: Genesis, s: State, blocks: seq<Block>, cuts: seq<U32>, number: U32)
    requires Safe(c, g, s, blocks, cuts) && number in s.headerHashes
    ensures g.height <= number <= s.latestBlock && s.latestBlock == g.height + |blocks|
    ensures s.headerHashes[number] == HashAt(g, blocks, number)
  {
    hide CutRanges, OneChain;
    var k :| 0 <= k < |cuts| && cuts[k] == number;
    assert HashStored(g, s, blocks, cuts[k]);
    CutsWithin(g, cuts, s.latestBlock, k);
  }

  lemma {:induction false} HashAgrees(c: Crypto, g: Genesis, blocks: seq<Block>, chain: Chain, top: U32, number: nat)
    requires OneChain(g, blocks) && g.height <= number <= top <= g.height + |blocks|
    requires ValidChain(c, chain, g.height, top)
    requires HashAt(g, blocks, top) == HeaderHash(c, chain(top))
    requires blocks[..top - g.height] == ChainBlocks(c, chain, g.height, top)
    ensures HashAt(g, blocks, number) == HeaderHash(c, chain(number))
  {
    hide HeaderHash, ValidChain, OneChain;
    var n := top - g.height;
    if g.height < number {
      OwnBlock(c, g, blocks, chain, n, number - g.height - 1);
    } else if number < top {
      OwnBlock(c, g, blocks, chain, n, 0);
      FirstParent(c, g, blocks, chain, top);
    }
  }

  lemma {:induction false} OwnBlock(c: Crypto, g: Genesis, blocks: seq<Block>, chain: Chain, n: nat, i: nat)
    requires i < n <= |blocks| && blocks[..n] == ChainBlocks(c, chain, g.height, g.height + n)
    ensures blocks[i] == BlockOf(c, chain(g.height + 1 + i))
  {
    hide ChainBlocks, HeaderHash;
    assert blocks[i] == blocks[..n][i] == ChainBlocks(c, chain, g.height, g.height + n)[i];
  }

  /** The chain's first block after the genesis block names the genesis hash. */
  lemma {:induction false} FirstParent(c: Crypto, g: Genesis, blocks: seq<Block>, chain: Chain, top: U32)
    requires OneChain(g, blocks) && blocks != [] && g.height < top && ValidChain(c, chain, g.height, top)
    requires blocks[0].parentHash == chain(g.height + 1).parentHash
    ensures g.hash == HeaderHash(c, chain(g.height))
  {
    hide HeaderHash;
    assert Follows(g, blocks, 0) && ExtendsParent(c, chain, g.height + 1);
  }

  lemma {:induction false} HashesAgree(c: Crypto, g: Genesis, s: State, blocks: seq<Block>, cuts: seq<U32>,
                                       chain: Chain, top: U32)
    requires Safe(c, g, s, blocks, cuts) && g.height <= top <= s.latestBlock && ValidChain(c, chain, g.height, top)
    requires HashAt(g, blocks, top) == HeaderHash(c, chain(top))
    requires blocks[..top - g.height] == ChainBlocks(c, chain, g.height, top)
    ensures HashesOfChain(c, chain, s, top)
  {
    SafeChain(c, g, s, blocks, cuts);
    SafeLength(c, g, s, blocks, cuts);
    hide HeaderHash, Safe, ChainBlocks, ValidChain, HashAt, OneChain;
    forall number | number in s.headerHashes && number <= top
      ensures s.headerHashes[number] == HeaderHash(c, chain(number))
    {
      StoredHash(c, g, s, blocks, cuts, number);
      HashAgrees(c, g, blocks, chain, top, number);
    }
  }

  lemma {:induction false} RootsAgree(c: Crypto, g: Genesis, s: State, blocks: seq<Block>, chain: Chain, top: U32,
                                      key: RangeKey)
    requires RangeAttested(c, g, s, blocks, key) && key.1 <= top <= s.latestBlock
    requires blocks[..top - g.height] == ChainBlocks(c, chain, g.height, top)
    ensures RootsOfChain(c, chain, s, key)
  {
    hide HeaderHash, RangeRoot, RangeRoots, Attests;
    var slice, own := Between(g, blocks, key.0, key.1), ChainBlocks(c, chain, key.0, key.1);
    forall i | 0 <= i < key.1 - key.0
      ensures slice[i] == own[i]
    {
      assert slice[i] == blocks[..top - g.height][key.0 - g.height + i];
    }
    assert slice == own;
    RootsOfChainBlocks(c, chain, key.0, key.1);
  }

  lemma {:induction false} SafeStoresChain(c: Crypto, g: Genesis, s: State, blocks: seq<Block>, cuts: seq<U32>,
                                           chain: Chain, top: U32)
    requires Safe(c, g, s, blocks, cuts) && g.height <= top <= s.latestBlock && ValidChain(c, chain, g.height, top)
    requires HashAt(g, blocks, top) == HeaderHash(c, chain(top))
    requires blocks[..top - g.height] == ChainBlocks(c, chain, g.height, top)
    ensures StoresChain(c, chain, s, top)
  {
    HashesAgree(c, g, s, blocks, cuts, chain, top);
    RangeIsAttested(c, g, s, blocks, cuts);
    hide Safe, ValidChain, HashesOfChain, RangeAttested, RootsOfChain, ChainBlocks, HashAt;
    forall key | key in s.dataRoots && key.1 <= top
      ensures RootsOfChain(c, chain, s, key)
    {
      RootsAgree(c, g, s, blocks, chain, top, key);
    }
  }

  /** After any sequence of backed calls, on whatever witnesses: if the hash stored for one block is that
      of a valid chain, then every hash stored up to this block is the chain's, every pair of
      commitments stored up to it consists of the roots that the off-chain code computes for the
      range, or a header behind the run collides with the chain's. */
  lemma {:induction false} StoredIsChains(c: Crypto, g: Genesis, setId: U64, setHash: Bytes32, actions: seq<Action>,
                                          chain: Chain, top: U32)
    requires BackedRun(c, Initialized(g.height, g.hash, setId, setHash), actions)
    requires var t := StateAfter(Initialized(g.height, g.hash, setId, setHash), actions);
             top in t.headerHashes && t.headerHashes[top] == HeaderHash(c, chain(top))
    requires ValidChain(c, chain, g.height, top)
    ensures forall b | g.height < b <= top :: Fits(chain, b)
    ensures var s := Initialized(g.height, g.hash, setId, setHash);
            && g.height <= top <= g.height + |ShownAfter(s, actions)|
            && (ShownCollide(c, ShownAfter(s, actions), chain, g.height, top)
                || StoresChain(c, chain, StateAfter(s, actions), top))
  {
    var s := Initialized(g.height, g.hash, setId, setHash);
    var t, blocks, cuts := StateAfter(s, actions), BlocksAfter(c, s, actions), CutsAfter(s, actions);
    RunSafe(c, g, setId, setHash, actions);
    RunDecodes(c, s, actions);
    ChainFits(c, chain, g.height, top);
    hide Safe, ValidChain, BackedRun, StateAfter, BlocksAfter, CutsAfter, ShownAfter, ShownCollide, StoresChain, HashAt,
         HeaderHash, Initialized, DecodeHeader, OneChain;
    StoredHash(c, g, t, blocks, cuts, top);
    assert OneChain(g, blocks) by { SafeChain(c, g, t, blocks, cuts); }
    if top == g.height {
      assert blocks[..0] == ChainBlocks(c, chain, g.height, top);
    } else {
      BlocksAgree(c, g, blocks, ShownAfter(s, actions), chain, top);
    }
    if !ShownCollide(c, ShownAfter(s, actions), chain, g.height, top) {
      SafeStoresChain(c, g, t, blocks, cuts, chain, top);
    }
  }
}
