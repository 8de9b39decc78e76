/** Safety of whole contract runs: what the circuits' guarantees and the contract's bookkeeping
    add up to. */
module Safety {
  import opened Basics
  import opened Headers
  import opened Subchain
  import opened SubchainTheorem
  import opened Fetcher
  import opened Contract

  // ----- the invariant

  /** The block a light client starts from. */
  datatype Genesis = Genesis(height: U32, hash: Bytes32)

  /** The hash of block `number`, if the blocks follow on from the genesis block. */
  ghost function HashAt(g: Genesis, blocks: seq<Block>, number: nat): Bytes32
    requires g.height <= number <= g.height + |blocks|
  {
    if number == g.height then g.hash else blocks[number - g.height - 1].hash
  }

  ghost predicate Follows(g: Genesis, blocks: seq<Block>, i: nat)
    requires i < |blocks|
  {
    blocks[i].number == g.height + 1 + i && blocks[i].parentHash == HashAt(g, blocks, g.height + i)
  }

  /** One linked chain from the genesis block. */
  ghost predicate OneChain(g: Genesis, blocks: seq<Block>) {
    forall i | 0 <= i < |blocks| :: Follows(g, blocks, i)
  }

  /** Cut k ends no later than cut k + 1, at most 256 blocks before it. */
  ghost predicate CutStep(cuts: seq<U32>, k: nat)
    requires k + 1 < |cuts|
  {
    cuts[k] < cuts[k + 1] <= cuts[k] + MAX_NUM_HEADERS
  }

  /** The committed ranges tile the blocks from the genesis height to the latest block. */
  ghost predicate Tiles(g: Genesis, cuts: seq<U32>, latest: U32) {
    && |cuts| > 0 && cuts[0] == g.height && cuts[|cuts| - 1] == latest
    && forall k | 0 <= k < |cuts| - 1 :: CutStep(cuts, k)
  }

  /** Blocks from + 1, ..., to. */
  ghost function Between(g: Genesis, blocks: seq<Block>, from: nat, to: nat): seq<Block>
    requires g.height <= from <= to <= g.height + |blocks|
  {
    blocks[from - g.height..to - g.height]
  }

  /** Everything stored for a range is about exactly its slice of the chain. */
  ghost predicate RangeStored(c: Crypto, g: Genesis, s: State, blocks: seq<Block>, from: U32, to: U32) {
    && g.height <= from <= to <= g.height + |blocks| && to <= from + MAX_NUM_HEADERS
    && var slice := Between(g, blocks, from, to);
    && (from, to) in s.dataRoots && (from, to) in s.stateRoots && (from, to) in s.rangeStarts
    && s.dataRoots[(from, to)] == RangeRoot(c, DataRoots(slice))
    && s.stateRoots[(from, to)] == RangeRoot(c, StateRoots(slice))
    && s.rangeStarts[(from, to)] == from
  }

  ghost predicate IsRange(cuts: seq<U32>, key: RangeKey) {
    exists k :: 0 <= k < |cuts| - 1 && cuts[k] == key.0 && cuts[k + 1] == key.1
  }

  /** The header hash stored for a block is the chain's. */
  ghost predicate HashStored(g: Genesis, s: State, blocks: seq<Block>, number: U32) {
    && g.height <= number <= g.height + |blocks|
    && number in s.headerHashes && s.headerHashes[number] == HashAt(g, blocks, number)
  }

  ghost predicate Safe(c: Crypto, g: Genesis, s: State, blocks: seq<Block>, cuts: seq<U32>) {
    && Tiles(g, cuts, s.latestBlock)
    && s.latestBlock == g.height + |blocks|
    && OneChain(g, blocks)
    && CutHashes(g, s, blocks, cuts)
    && CutRanges(c, g, s, blocks, cuts)
    && OnlyRanges(s, cuts)
  }

  /** Every cut has the chain's hash. */
  ghost predicate CutHashes(g: Genesis, s: State, blocks: seq<Block>, cuts: seq<U32>) {
    forall k | 0 <= k < |cuts| :: HashStored(g, s, blocks, cuts[k])
  }

  /** Every range between neighbouring cuts is stored. */
  ghost predicate CutRanges(c: Crypto, g: Genesis, s: State, blocks: seq<Block>, cuts: seq<U32>) {
    forall k | 0 <= k < |cuts| - 1 :: RangeStored(c, g, s, blocks, cuts[k], cuts[k + 1])
  }

  /** No hash or root is stored for any other block or range. */
  ghost predicate OnlyRanges(s: State, cuts: seq<U32>) {
    && (forall key :: key in s.dataRoots <==> IsRange(cuts, key))
    && (forall key :: key in s.stateRoots <==> IsRange(cuts, key))
    && (forall number :: number in s.headerHashes <==> number in cuts)
  }

  lemma {:induction false} InitiallySafe(c: Crypto, g: Genesis, setId: U64, setHash: Bytes32)
    ensures Safe(c, g, Initialized(g.height, g.hash, setId, setHash), [], [g.height])
  {
  }

  // ----- appending a range

  lemma {:induction false} CutsRise(g: Genesis, cuts: seq<U32>, latest: U32, i: nat, j: nat)
    requires Tiles(g, cuts, latest) && i <= j < |cuts|
    ensures cuts[i] <= cuts[j] && (i < j ==> cuts[i] < cuts[j])
    decreases j - i
  {
    if i == j {
    } else {
      CutsRise(g, cuts, latest, i, j - 1);
      assert CutStep(cuts, j - 1);
    }
  }

  lemma {:induction false} CutsWithin(g: Genesis, cuts: seq<U32>, latest: U32, i: nat)
    requires Tiles(g, cuts, latest) && i < |cuts|
    ensures g.height <= cuts[i] <= latest && (i < |cuts| - 1 ==> cuts[i] < latest)
  {
    CutsRise(g, cuts, latest, 0, i);
    CutsRise(g, cuts, latest, i, |cuts| - 1);
  }

  /** New blocks that are a chain from the latest hash extend the chain. */
  lemma {:induction false} ChainExtended(g: Genesis, blocks: seq<Block>, added: seq<Block>)
    requires OneChain(g, blocks) && |added| > 0
    requires ChainOf(added, g.height + |blocks| + 1, |added|)
    requires added[0].parentHash == HashAt(g, blocks, g.height + |blocks|)
    ensures OneChain(g, blocks + added)
  {
    var all, start := blocks + added, g.height + |blocks| + 1;
    forall i | 0 <= i < |all|
      ensures Follows(g, all, i)
    {
      if i < |blocks| {
        assert Follows(g, blocks, i);
      } else {
        assert InPlace(added, start, i - |blocks|);
      }
    }
  }

  lemma {:induction false} TilesExtended(g: Genesis, cuts: seq<U32>, latest: U32, target: U32)
    requires Tiles(g, cuts, latest) && latest < target <= latest + MAX_NUM_HEADERS
    ensures Tiles(g, cuts + [target], target)
  {
    var all := cuts + [target];
    forall k | 0 <= k < |all| - 1
      ensures CutStep(all, k)
    {
      assert k < |cuts| - 1 ==> CutStep(cuts, k);
    }
  }

  lemma {:induction false} RangesExtended(cuts: seq<U32>, latest: U32, target: U32, key: RangeKey)
    requires |cuts| > 0 && cuts[|cuts| - 1] == latest
    ensures IsRange(cuts + [target], key) <==> IsRange(cuts, key) || key == (latest, target)
  {
    var all := cuts + [target];
    if IsRange(all, key) {
      var k :| 0 <= k < |all| - 1 && all[k] == key.0 && all[k + 1] == key.1;
      assert k < |cuts| - 1 ==> cuts[k] == key.0 && cuts[k + 1] == key.1;
    }
    if IsRange(cuts, key) {
      var k :| 0 <= k < |cuts| - 1 && cuts[k] == key.0 && cuts[k + 1] == key.1;
      assert all[k] == key.0 && all[k + 1] == key.1;
    }
    assert all[|cuts| - 1] == latest && all[|cuts| - 1 + 1] == target;
  }

  /** An old range still stands after a new one is stored at the end. */
  lemma {:induction false} OldRangeStands(c: Crypto, g: Genesis, s: State, blocks: seq<Block>, added: seq<Block>,
                                          from: U32, to: U32, latest: U32, target: U32, hash: Bytes32, sr: Bytes32,
                                          dr: Bytes32)
    requires RangeStored(c, g, s, blocks, from, to) && from < latest
    ensures RangeStored(c, g, StoreRange(s, latest, target, hash, sr, dr).(latestBlock := target), blocks + added,
                        from, to)
  {
    hide RangeRoot;
    assert Between(g, blocks + added, from, to) == Between(g, blocks, from, to);
  }

  lemma {:induction false} NewRangeStored(c: Crypto, g: Genesis, s: State, blocks: seq<Block>, added: seq<Block>,
                                          latest: U32, target: U32, hash: Bytes32, sr: Bytes32, dr: Bytes32)
    requires latest == g.height + |blocks| && target == latest + |added| && 0 < |added| <= MAX_NUM_HEADERS
    requires sr == RangeRoot(c, StateRoots(added)) && dr == RangeRoot(c, DataRoots(added))
    ensures RangeStored(c, g, StoreRange(s, latest, target, hash, sr, dr).(latestBlock := target), blocks + added,
                        latest, target)
  {
    hide RangeRoot;
    assert Between(g, blocks + added, latest, target) == added;
  }

  /** Storing a range of new blocks that continue the chain, under its own hash and roots, and
      moving the latest block to its end keeps the contract safe. */
  lemma {:induction false} AppendKeepsSafe(c: Crypto, g: Genesis, s: State, blocks: seq<Block>, cuts: seq<U32>,
                                           added: seq<Block>, target: U32, hash: Bytes32, sr: Bytes32, dr: Bytes32)
    requires Safe(c, g, s, blocks, cuts) && 0 < |added| <= MAX_NUM_HEADERS && target == s.latestBlock + |added|
    requires ChainOf(added, s.latestBlock + 1, |added|)
    requires added[0].parentHash == HashAt(g, blocks, s.latestBlock)
    requires hash == added[|added| - 1].hash && sr == RangeRoot(c, StateRoots(added))
    requires dr == RangeRoot(c, DataRoots(added))
    ensures Safe(c, g, StoreRange(s, s.latestBlock, target, hash, sr, dr).(latestBlock := target), blocks + added,
                 cuts + [target])
  {
    var latest := s.latestBlock;
    var t := StoreRange(s, latest, target, hash, sr, dr).(latestBlock := target);
    ChainExtended(g, blocks, added);
    TilesExtended(g, cuts, latest, target);
    HashesExtended(g, s, blocks, cuts, added, target, hash, sr, dr);
    RangesKept(c, g, s, blocks, cuts, added, target, hash, sr, dr);
    KeysExtended(s, cuts, target, hash, sr, dr);
    hide RangeRoot, OneChain, Tiles, CutHashes, CutRanges, OnlyRanges, ChainOf;
    assert t.latestBlock == g.height + |blocks + added|;
  }

  lemma {:induction false} HashesExtended(g: Genesis, s: State, blocks: seq<Block>, cuts: seq<U32>, added: seq<Block>,
                                          target: U32, hash: Bytes32, sr: Bytes32, dr: Bytes32)
    requires Tiles(g, cuts, s.latestBlock) && CutHashes(g, s, blocks, cuts) && s.latestBlock == g.height + |blocks|
    requires |added| > 0 && target == s.latestBlock + |added| && hash == added[|added| - 1].hash
    ensures CutHashes(g, StoreRange(s, s.latestBlock, target, hash, sr, dr).(latestBlock := target), blocks + added,
                      cuts + [target])
  {
    var t, all := StoreRange(s, s.latestBlock, target, hash, sr, dr).(latestBlock := target), cuts + [target];
    forall k | 0 <= k < |all|
      ensures HashStored(g, t, blocks + added, all[k])
    {
      if k < |cuts| {
        CutsWithin(g, cuts, s.latestBlock, k);
        assert HashStored(g, s, blocks, cuts[k]);
      }
    }
  }

  lemma {:induction false} RangesKept(c: Crypto, g: Genesis, s: State, blocks: seq<Block>, cuts: seq<U32>,
                                      added: seq<Block>, target: U32, hash: Bytes32, sr: Bytes32, dr: Bytes32)
    requires Tiles(g, cuts, s.latestBlock) && CutRanges(c, g, s, blocks, cuts) && s.latestBlock == g.height + |blocks|
    requires 0 < |added| <= MAX_NUM_HEADERS && target == s.latestBlock + |added|
    requires sr == RangeRoot(c, StateRoots(added)) && dr == RangeRoot(c, DataRoots(added))
    ensures CutRanges(c, g, StoreRange(s, s.latestBlock, target, hash, sr, dr).(latestBlock := target), blocks + added,
                      cuts + [target])
  {
    hide RangeRoot, RangeStored;
    var latest, all := s.latestBlock, cuts + [target];
    var t := StoreRange(s, latest, target, hash, sr, dr).(latestBlock := target);
    forall k | 0 <= k < |all| - 1
      ensures RangeStored(c, g, t, blocks + added, all[k], all[k + 1])
    {
      if k < |cuts| - 1 {
        CutsWithin(g, cuts, latest, k);
        assert RangeStored(c, g, s, blocks, cuts[k], cuts[k + 1]);
        OldRangeStands(c, g, s, blocks, added, cuts[k], cuts[k + 1], latest, target, hash, sr, dr);
      } else {
        NewRangeStored(c, g, s, blocks, added, latest, target, hash, sr, dr);
      }
    }
  }

  lemma {:induction false} KeysExtended(s: State, cuts: seq<U32>, target: U32, hash: Bytes32, sr: Bytes32, dr: Bytes32)
    requires |cuts| > 0 && cuts[|cuts| - 1] == s.latestBlock && OnlyRanges(s, cuts)
    ensures OnlyRanges(StoreRange(s, s.latestBlock, target, hash, sr, dr).(latestBlock := target), cuts + [target])
  {
    hide IsRange;
    forall key: RangeKey
      ensures IsRange(cuts + [target], key) <==> IsRange(cuts, key) || key == (s.latestBlock, target)
    {
      RangesExtended(cuts, s.latestBlock, target, key);
    }
  }

  lemma {:induction false} SafeLength(c: Crypto, g: Genesis, s: State, blocks: seq<Block>, cuts: seq<U32>)
    requires Safe(c, g, s, blocks, cuts)
    ensures s.latestBlock == g.height + |blocks|
  {
  }

  /** The hash stored for the latest block is the chain's. */
  lemma {:induction false} LatestHash(c: Crypto, g: Genesis, s: State, blocks: seq<Block>, cuts: seq<U32>)
    requires Safe(c, g, s, blocks, cuts)
    ensures Read(s.headerHashes, s.latestBlock) == HashAt(g, blocks, s.latestBlock)
  {
    assert HashStored(g, s, blocks, cuts[|cuts| - 1]);
  }

  /** Neither the authority sets nor the frozen flag matter to the chain and its ranges. */
  lemma {:induction false} AuthoritiesDoNotMatter(c: Crypto, g: Genesis, s: State, blocks: seq<Block>, cuts: seq<U32>,
                                                  hashes: map<U64, Bytes32>, frozen: bool)
    requires Safe(c, g, s, blocks, cuts)
    ensures Safe(c, g, s.(authorityHashes := hashes, frozen := frozen), blocks, cuts)
  {
    hide RangeRoot, OneChain, Tiles, IsRange, HashAt, OnlyRanges;
    var t := s.(authorityHashes := hashes, frozen := frozen);
    forall k | 0 <= k < |cuts|
      ensures HashStored(g, t, blocks, cuts[k])
    {
      assert HashStored(g, s, blocks, cuts[k]);
    }
    forall k | 0 <= k < |cuts| - 1
      ensures RangeStored(c, g, t, blocks, cuts[k], cuts[k + 1])
    {
      assert RangeStored(c, g, s, blocks, cuts[k], cuts[k + 1]);
    }
    SameRanges(s, t, cuts);
  }

  lemma {:induction false} SameRanges(s: State, t: State, cuts: seq<U32>)
    requires t.dataRoots == s.dataRoots && t.stateRoots == s.stateRoots && t.headerHashes == s.headerHashes
    ensures OnlyRanges(t, cuts) <==> OnlyRanges(s, cuts)
  {
  }
}
