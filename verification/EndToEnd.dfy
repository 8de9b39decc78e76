/** The whole system at work: an honest network, the operator, the off-chain code, the circuits and
    the contract together. */
module EndToEnd {
  import opened Basics
  import opened Headers
  import opened Subchain
  import opened Fetcher
  import opened Authorities
  import opened Justifications
  import opened Indexer
  import opened Rotation
  import opened HeaderRotate
  import opened HeaderRange
  import opened Epochs
  import opened Operator
  import opened Contract
  import opened Backfill
  import opened Runs
  import opened OnChain
  import opened Service
  import opened Completeness

  // ----- the network

  /** The chain, its set ids, the keys of each set, and the precommits received for each block with
      their round. */
  datatype Network = Network(
    chain: Chain, setId: History, keys: nat -> seq<Bytes32>, votes: nat -> seq<Signer>, round: nat -> U64)

  /** More than two thirds of the set in force after the block before voted for block b. */
  ghost predicate Attested(c: Crypto, net: Network, b: nat) {
    b > 0 &&
    var id := net.setId(b - 1);
    HonestVotes(c, net.keys(id), net.votes(b), Precommit(HeaderHash(c, net.chain(b)), b, net.round(b), id))
  }

  /** The header of an epoch end announces the keys of the set that begins there. */
  ghost predicate Heralded(c: Crypto, net: Network, e: nat) {
    var keys := net.keys(net.setId(e));
    Rotatable(net.chain(e), keys) && AuthoritySetHash(c, keys) != ZERO32
  }

  /** Blocks that the operator may ask for: multiples of its interval and epoch ends. */
  ghost predicate Requestable(net: Network, interval: nat, b: nat) {
    Multiple(interval, b) || EpochEnd(net.setId, b)
  }

  ghost predicate Multiple(interval: nat, b: nat) {
    exists q: nat :: b == interval * q
  }

  /** From block lo to the head: a valid chain with nonzero hashes, of which the blocks that may be asked
      for are attested, and the epoch ends herald the next set. */
  ghost predicate HonestNetwork(c: Crypto, net: Network, lo: nat, head: U32, interval: nat)
    requires interval >= 1
  {
    && Readable(net.setId, head) && ValidChain(c, net.chain, lo, head)
    && (forall b | lo < b <= head :: HeaderHash(c, net.chain(b)) != ZERO32)
    && (forall b | lo < b <= head && Requestable(net, interval, b) :: Attested(c, net, b))
    && (forall e | lo < e <= head && EpochEnd(net.setId, e) :: Heralded(c, net, e))
  }

  ghost predicate SetStored(c: Crypto, net: Network, s: State, id: U64) {
    net.keys(id) != [] && Read(s.authorityHashes, id) == AuthoritySetHash(c, net.keys(id))
  }

  /** Everything that the contract stores is what the network says. */
  ghost predicate Tracks(c: Crypto, net: Network, s: State) {
    && StoresChain(c, net.chain, s, U32_BOUND) && s.latestBlock in s.headerHashes
    && forall id: U64 | Read(s.authorityHashes, id) != ZERO32 :: SetStored(c, net, s, id)
  }

  lemma {:induction false} InitiallyTracks(c: Crypto, net: Network, genesis: U32)
    requires net.setId(genesis) < U64_BOUND && net.keys(net.setId(genesis)) != []
    ensures var id := net.setId(genesis);
            Tracks(c, net, Initialized(genesis, HeaderHash(c, net.chain(genesis)), id,
                                       AuthoritySetHash(c, net.keys(id))))
  {
    hide HeaderHash, AuthoritySetHash;
  }

  // ----- what is asked for

  lemma {:induction false} RoundedDown(m: nat, interval: nat)
    requires interval >= 1
    ensures Multiple(interval, m - m % interval)
  {
    assert m - m % interval == interval * (m / interval);
  }

  /** The target of a range request is a multiple of the interval or an epoch end. */
  lemma {:induction false} TargetRequestable(net: Network, head: U32, view: View, interval: nat, commitmentMax: nat)
    requires ValidHistory(net.setId, head) && 1 <= view.latest <= head && interval >= 1
    requires PassOf(net.setId, head, view, interval, commitmentMax).range.Some?
    ensures Requestable(net, interval, PassOf(net.setId, head, view, interval, commitmentMax).range.value.target)
  {
    var max, r := BlockToRequest(head, view.latest, interval, commitmentMax),
        PassOf(net.setId, head, view, interval, commitmentMax).range.value;
    RoundedDown(Min(head, commitmentMax + view.latest), interval);
    assert r.target == StepTo(net.setId, head, max, r.setId);
    var last := LastJustified(net.setId, head, r.setId);
    LastJustifiedFound(net.setId, head, r.setId);
    hide LastJustified;
    if last != 0 {
      FoundIsEpochEnd(net.setId, head, r.setId, last);
    }
  }

  /** The blocks that a pass asks for are attested: the target of its range, and the epoch end of its
      rotation, which heralds the next set. */
  ghost predicate PassAttested(c: Crypto, net: Network, head: U32, view: View, interval: nat, commitmentMax: nat)
    requires 1 <= view.latest && 1 <= head && interval >= 1
  {
    var p := PassOf(net.setId, head, view, interval, commitmentMax);
    && (p.range.Some? ==>
          Attested(c, net, p.range.value.target) && HeaderHash(c, net.chain(p.range.value.target)) != ZERO32)
    && (p.rotate.Some? ==>
          var e := LastJustified(net.setId, head, p.rotate.value);
          Attested(c, net, e) && Heralded(c, net, e))
  }

  /** What a range request asks the prover for. */
  lemma {:induction false} RangeCanBeProved(c: Crypto, net: Network, head: U32, s: State, interval: nat,
                                            commitmentMax: nat)
    requires interval >= 1 && ValidHistory(net.setId, head) && 1 <= s.latestBlock <= head
    requires Serviceable(net.setId, ViewOf(s)) && Tracks(c, net, s) && commitmentMax <= MAX_NUM_HEADERS
    requires PassAttested(c, net, head, ViewOf(s), interval, commitmentMax)
    requires PassOf(net.setId, head, ViewOf(s), interval, commitmentMax).range.Some?
    ensures var r := PassOf(net.setId, head, ViewOf(s), interval, commitmentMax).range.value;
            && r.trusted == s.latestBlock < r.target <= Min(head, s.latestBlock + MAX_NUM_HEADERS)
            && r.setId < U64_BOUND && net.keys(r.setId) != []
            && RangeInput(s, r.setId, r.target) ==
               HeaderRangeInput(s.latestBlock, HeaderHash(c, net.chain(s.latestBlock)),
                                r.setId, AuthoritySetHash(c, net.keys(r.setId)), r.target)
            && HonestVotes(c, net.keys(r.setId), net.votes(r.target),
                           Precommit(HeaderHash(c, net.chain(r.target)), r.target, net.round(r.target), r.setId))
            && HeaderHash(c, net.chain(r.target)) != ZERO32
  {
    RangeSafe(net.setId, head, ViewOf(s), interval, commitmentMax);
    RequestsAreBacked(net.setId, head, ViewOf(s), interval, commitmentMax);
    hide PassOf, HonestVotes, HeaderHash, AuthoritySetHash, ValidHistory, Heralded, LastJustified;
    var r := PassOf(net.setId, head, ViewOf(s), interval, commitmentMax).range.value;
    assert net.setId(r.target - 1) == r.setId;
    KnownSet(c, net, s, r.setId);
  }

  /** The epoch end that the search finds for a rotate request. */
  lemma {:induction false} RotationBlock(setId: History, head: U32, view: View, interval: nat, commitmentMax: nat)
    requires ValidHistory(setId, head) && 1 <= view.latest <= head && interval >= 1
    requires PassOf(setId, head, view, interval, commitmentMax).rotate.Some?
    ensures var id := PassOf(setId, head, view, interval, commitmentMax).rotate.value;
            var e := LastJustified(setId, head, id);
            view.latest <= e <= head && EpochEnd(setId, e) && setId(e) == id + 1 && setId(e - 1) == id
  {
    RotateMeans(setId, head, view);
    var id := PassOf(setId, head, view, interval, commitmentMax).rotate.value;
    assert id == setId(view.latest - 1);
    QuietUntil(setId, head, view.latest - 1, id);
    LastJustifiedFound(setId, head, id);
    hide LastJustified, PassOf, ValidHistory;
    assert exists e :: view.latest <= e < head && EpochEnd(setId, e) && setId(e) == id + 1;
  }

  /** What a rotate request asks the prover for. */
  lemma {:induction false} RotationCanBeProved(c: Crypto, net: Network, lo: nat, head: U32, s: State, interval: nat,
                                               commitmentMax: nat)
    requires interval >= 1 && Readable(net.setId, head) && ValidChain(c, net.chain, lo, head)
    requires lo < s.latestBlock <= head
    requires Serviceable(net.setId, ViewOf(s)) && Tracks(c, net, s)
    requires PassAttested(c, net, head, ViewOf(s), interval, commitmentMax)
    requires PassOf(net.setId, head, ViewOf(s), interval, commitmentMax).rotate.Some?
    ensures var id := PassOf(net.setId, head, ViewOf(s), interval, commitmentMax).rotate.value;
            var e := LastJustified(net.setId, head, id);
            && id + 2 < U64_BOUND && net.keys(id) != []
            && Read(s.authorityHashes, id) == AuthoritySetHash(c, net.keys(id))
            && net.chain(e).number == e && EpochEnd(net.setId, e) && Rotatable(net.chain(e), net.keys(id + 1))
            && net.keys(id + 1) != [] && AuthoritySetHash(c, net.keys(id + 1)) != ZERO32
            && HonestVotes(c, net.keys(id), net.votes(e), Precommit(HeaderHash(c, net.chain(e)), e, net.round(e), id))
  {
    RequestsAreBacked(net.setId, head, ViewOf(s), interval, commitmentMax);
    RotationBlock(net.setId, head, ViewOf(s), interval, commitmentMax);
    hide LastJustified, PassOf, Serviceable, ValidHistory, ValidChain, HonestVotes, HeaderHash, AuthoritySetHash;
    var id := PassOf(net.setId, head, ViewOf(s), interval, commitmentMax).rotate.value;
    var e := LastJustified(net.setId, head, id);
    assert Heralded(c, net, e);
    NumberOf(c, net.chain, lo, e, head);
    KnownSet(c, net, s, id);
  }

  lemma {:induction false} NumberOf(c: Crypto, chain: Chain, lo: nat, b: nat, hi: nat)
    requires ValidChain(c, chain, lo, hi) && lo < b <= hi
    ensures chain(b).number == b
  {
    assert Fits(chain, b);
  }

  /** An honest network attests what a pass asks for. */
  lemma {:induction false} NetworkAttests(c: Crypto, net: Network, lo: nat, head: U32, view: View, interval: nat,
                                          commitmentMax: nat)
    requires interval >= 1 && HonestNetwork(c, net, lo, head, interval) && lo < view.latest <= head
    ensures PassAttested(c, net, head, view, interval, commitmentMax)
  {
    hide Attested, Heralded, HeaderHash, ValidChain, ValidHistory;
    var p := PassOf(net.setId, head, view, interval, commitmentMax);
    if p.range.Some? {
      RangeSafe(net.setId, head, view, interval, commitmentMax);
      TargetRequestable(net, head, view, interval, commitmentMax);
    }
    if p.rotate.Some? {
      RotationBlock(net.setId, head, view, interval, commitmentMax);
      assert Requestable(net, interval, LastJustified(net.setId, head, p.rotate.value));
    }
    hide PassOf, Requestable, LastJustified;
  }

  lemma {:induction false} KnownSet(c: Crypto, net: Network, s: State, id: nat)
    requires Tracks(c, net, s) && id in ViewOf(s).known
    ensures id < U64_BOUND && SetStored(c, net, s, id)
  {
    hide AuthoritySetHash, StoresChain;
  }

  // ----- a pass and its answers

  /** The answers to a pass: outputs of the circuits on witnesses, for every request. */
  ghost predicate HonestAnswer(c: Crypto, net: Network, s: State, a: Answer, interval: nat, commitmentMax: nat)
    requires interval >= 1 && 1 <= s.latestBlock && 1 <= a.head
  {
    var p := PassOf(net.setId, a.head, ViewOf(s), interval, commitmentMax);
    && (p.rotate.Some? ==> RotationAnswered(c, net, s, a, p.rotate.value))
    && (p.range.Some? ==> RangeAnswered(c, net, s, a, p.range.value))
    && NonZeroAnswer(a)
  }

  ghost predicate RotationAnswered(c: Crypto, net: Network, s: State, a: Answer, id: nat) {
    && id + 1 < U64_BOUND && net.keys(id + 1) != []
    && a.newHash == Some(AuthoritySetHash(c, net.keys(id + 1)))
    && RotateResult(c, id, Read(s.authorityHashes, id), a.rotation, a.justification) == a.newHash
  }

  ghost predicate RangeAnswered(c: Crypto, net: Network, s: State, a: Answer, r: HeaderRangeRequest) {
    && r.setId < U64_BOUND && s.latestBlock <= r.target <= s.latestBlock + MAX_NUM_HEADERS
    && var roots := RangeRoots(c, net.chain, s.latestBlock, r.target);
    && a.verified == Some(Commitment(HeaderHash(c, net.chain(r.target)), roots.stateRoot, roots.dataRoot))
    && HeaderRangeResult(c, RangeInput(s, r.setId, r.target), a.proof) == a.verified
  }

  method ProveRequestedRange(c: Crypto, net: Network, s: State, r: HeaderRangeRequest, ghost lo: nat, ghost head: U32)
    returns (verified: Option<Commitment>, proof: HeaderRangeProof)
    requires ValidChain(c, net.chain, lo, head) && 2 * head + 1 < U32_BOUND && lo <= s.latestBlock
    requires s.latestBlock < r.target <= Min(head, s.latestBlock + MAX_NUM_HEADERS)
    requires r.setId < U64_BOUND && net.keys(r.setId) != []
    requires RangeInput(s, r.setId, r.target) ==
             HeaderRangeInput(s.latestBlock, HeaderHash(c, net.chain(s.latestBlock)), r.setId,
                              AuthoritySetHash(c, net.keys(r.setId)), r.target)
    requires HonestVotes(c, net.keys(r.setId), net.votes(r.target),
                         Precommit(HeaderHash(c, net.chain(r.target)), r.target, net.round(r.target), r.setId))
    ensures var roots := RangeRoots(c, net.chain, s.latestBlock, r.target);
            verified == Some(Commitment(HeaderHash(c, net.chain(r.target)), roots.stateRoot, roots.dataRoot))
    ensures HeaderRangeResult(c, RangeInput(s, r.setId, r.target), proof) == verified
  {
    SubChain(c, net.chain, lo, s.latestBlock, r.target, head);
    CursorsFit(s.latestBlock, r.target, MAP_JOBS);
    hide ValidChain, HonestVotes, HeaderHash, HeaderRangeResult, RangeRoots, AuthoritySetHash, HintCursorsFit;
    verified, proof := ProveHeaderRange(c, net.chain, s.latestBlock, r.target, r.setId, net.round(r.target),
                                        net.keys(r.setId), net.votes(r.target));
  }

  method ProveRequestedRotation(c: Crypto, net: Network, s: State, id: U64, head: U32)
    returns (newHash: Option<Bytes32>, rotation: RotateWitness, justification: Justification)
    requires ValidHistory(net.setId, head) && 2 * head + 1 < U32_BOUND && id + 2 < U64_BOUND && net.keys(id) != []
    requires var e := LastJustified(net.setId, head, id);
             && net.chain(e).number == e && EpochEnd(net.setId, e) && Rotatable(net.chain(e), net.keys(id + 1))
             && HonestVotes(c, net.keys(id), net.votes(e),
                            Precommit(HeaderHash(c, net.chain(e)), e, net.round(e), id))
    requires Read(s.authorityHashes, id) == AuthoritySetHash(c, net.keys(id))
    ensures net.keys(id + 1) != [] && newHash == Some(AuthoritySetHash(c, net.keys(id + 1)))
    ensures RotateResult(c, id, Read(s.authorityHashes, id), rotation, justification) == newHash
  {
    hide ValidHistory, LastJustified, FoundLast, EpochEnd, Rotatable, HonestVotes, HeaderHash, AuthoritySetHash,
         RotateResult;
    var e := LastJustifiedBlock(net.setId, head, id);
    newHash, rotation, justification :=
      ProveRotation(c, net.setId, net.chain(e), net.keys(id + 1), id, net.round(e), net.keys(id), net.votes(e));
  }

  /** When the blocks that a pass asks for are attested, every request can be answered: the off-chain
      code finds witnesses on which the circuits return the next set's commitment, and the target's
      hash with the off-chain roots. */
  method AnswerPass(c: Crypto, net: Network, s: State, head: U32, interval: U32, commitmentMax: U32, ghost lo: nat)
    returns (p: Requests, a: Answer)
    requires interval >= 1 && Readable(net.setId, head) && ValidChain(c, net.chain, lo, head)
    requires lo < s.latestBlock <= head
    requires Serviceable(net.setId, ViewOf(s)) && Tracks(c, net, s) && commitmentMax <= MAX_NUM_HEADERS
    requires PassAttested(c, net, head, ViewOf(s), interval, commitmentMax)
    ensures p == PassOf(net.setId, head, ViewOf(s), interval, commitmentMax)
    ensures a.head == head && (a.newHash.Some? <==> p.rotate.Some?) && (a.verified.Some? <==> p.range.Some?)
    ensures HonestAnswer(c, net, s, a, interval, commitmentMax)
  {
    hide PassOf, HonestVotes, HeaderHash, AuthoritySetHash, RangeRoots, HeaderRangeResult, RotateResult, Rotatable,
         Serviceable, Tracks, ValidChain, PassAttested, LastJustified, EpochEnd, RotateIsDue, RangeIsDue;
    p := RunPass(net.setId, head, ViewOf(s), interval, commitmentMax);
    var newHash: Option<Bytes32>, rotation: RotateWitness, justification: Justification :=
      None, RotateData(0, EMPTY_HEADER, 0, 0, seq(MAX_AUTHORITY_SET_SIZE, _ => ZERO32)), EMPTY_JUSTIFICATION;
    if p.rotate.Some? {
      RotationCanBeProved(c, net, lo, head, s, interval, commitmentMax);
      newHash, rotation, justification := ProveRequestedRotation(c, net, s, p.rotate.value, head);
    }
    var verified: Option<Commitment>, proof: HeaderRangeProof := None,
        ProofData(seq<EncodedHeader>(256, _ => EMPTY_HEADER), EMPTY_JUSTIFICATION);
    if p.range.Some? {
      RangeCanBeProved(c, net, head, s, interval, commitmentMax);
      verified, proof := ProveRequestedRange(c, net, s, p.range.value, lo, head);
    }
    a := Answer(head, newHash, rotation, justification, verified, proof);
  }

  // ----- the calls that follow

  lemma {:induction false} RotateTracks(c: Crypto, net: Network, s: State, id: U64, newHash: Bytes32)
    requires Tracks(c, net, s) && id + 1 < U64_BOUND && net.keys(id + 1) != []
    requires newHash == AuthoritySetHash(c, net.keys(id + 1))
    ensures Tracks(c, net, RotateStep(s, id, Some(newHash)).state)
  {
    hide AuthoritySetHash, HeaderHash, RangeRoots;
    var t := RotateStep(s, id, Some(newHash)).state;
    forall key | key in t.dataRoots && key.1 <= U32_BOUND
      ensures RootsOfChain(c, net.chain, t, key)
    {
      assert RootsOfChain(c, net.chain, s, key);
    }
    forall k: U64 | Read(t.authorityHashes, k) != ZERO32
      ensures SetStored(c, net, t, k)
    {
      assert k != id + 1 ==> SetStored(c, net, s, k);
    }
  }

  lemma {:induction false} CommitTracks(c: Crypto, net: Network, s: State, id: U64, target: U32, out: Commitment)
    requires Tracks(c, net, s) && s.latestBlock <= target <= s.latestBlock + MAX_NUM_HEADERS
    requires out.targetHeaderHash == HeaderHash(c, net.chain(target))
    requires Roots(out.stateRoot, out.dataRoot) == RangeRoots(c, net.chain, s.latestBlock, target)
    ensures Tracks(c, net, CommitStep(s, id, target, Some(out)).state)
  {
    hide AuthoritySetHash, HeaderHash, RangeRoots;
    var t := CommitStep(s, id, target, Some(out)).state;
    forall key | key in t.dataRoots && key.1 <= U32_BOUND
      ensures RootsOfChain(c, net.chain, t, key)
    {
      assert key in s.dataRoots ==> RootsOfChain(c, net.chain, s, key);
    }
    forall k: U64 | Read(t.authorityHashes, k) != ZERO32
      ensures SetStored(c, net, t, k)
    {
      assert SetStored(c, net, s, k);
    }
  }

  lemma {:induction false} BackedOne(c: Crypto, s: State, a: Action)
    requires Backed(c, s, a)
    ensures BackedRun(c, s, [a])
  {
    hide Backed;
    assert [a][..0] == [] && StateAfter(s, []) == s && BackedRun(c, s, []);
  }

  lemma {:induction false} BackedConcat(c: Crypto, s: State, xs: seq<Action>, ys: seq<Action>)
    requires BackedRun(c, s, xs) && BackedRun(c, StateAfter(s, xs), ys)
    ensures BackedRun(c, s, xs + ys)
  {
    hide Backed, StateAfter;
    if ys == [] {
      assert xs + ys == xs;
    } else {
      var before := ys[..|ys| - 1];
      BackedConcat(c, s, xs, before);
      assert (xs + ys)[..|xs + ys| - 1] == xs + before;
      StateAfterConcat(s, xs, before);
    }
  }

  /** The rotation of an honestly answered pass. */
  lemma {:induction false} RotationServed(c: Crypto, net: Network, s: State, a: Answer, request: Option<nat>)
    requires Tracks(c, net, s) && AllDone(s, RotateCall(request, a))
    requires request.Some? ==> RotationAnswered(c, net, s, a, request.value)
    ensures BackedRun(c, s, RotateCall(request, a)) && Tracks(c, net, StateAfter(s, RotateCall(request, a)))
  {
    hide Tracks, RotateResult, AuthoritySetHash;
    var calls := RotateCall(request, a);
    if calls == [] {
      assert StateAfter(s, []) == s;
    } else {
      BackedOne(c, s, calls[0]);
      OneCall(s, calls[0]);
      RotateTracks(c, net, s, request.value, a.newHash.value);
    }
  }

  /** Its range, on the state after the rotation. */
  lemma {:induction false} RangeServed(c: Crypto, net: Network, s: State, t: State, a: Answer,
                                       request: Option<HeaderRangeRequest>)
    requires Tracks(c, net, t) && t.latestBlock == s.latestBlock && AllDone(t, RangeCall(request, a))
    requires request.Some? ==> RangeAnswered(c, net, s, a, request.value)
                               && RangeInput(t, request.value.setId, request.value.target) ==
                                  RangeInput(s, request.value.setId, request.value.target)
    ensures BackedRun(c, t, RangeCall(request, a)) && Tracks(c, net, StateAfter(t, RangeCall(request, a)))
  {
    hide Tracks, HeaderRangeResult, RangeRoots, HeaderHash;
    var calls := RangeCall(request, a);
    if calls == [] {
      assert StateAfter(t, []) == t;
    } else {
      BackedOne(c, t, calls[0]);
      OneCall(t, calls[0]);
      CommitTracks(c, net, t, request.value.setId, request.value.target, a.verified.value);
    }
  }

  /** A round on an honest network: its calls are backed by the circuits, go through, keep the
      contract on track, and serve every request. */
  lemma {:induction false} HonestRound(c: Crypto, net: Network, s: State, a: Answer, interval: nat, commitmentMax: nat)
    requires ValidHistory(net.setId, a.head) && IdsFit(net.setId, a.head) && 1 <= s.latestBlock <= a.head
    requires interval >= 1
    requires Ready(net.setId, s) && Tracks(c, net, s) && HonestAnswer(c, net, s, a, interval, commitmentMax)
    ensures var calls := RoundCalls(net.setId, s, a, interval, commitmentMax);
            var t := StateAfter(s, calls);
            && BackedRun(c, s, calls) && AllDone(s, calls) && Ready(net.setId, t) && Tracks(c, net, t)
            && ViewOf(t) == AfterRound(net.setId, ViewOf(s), Round(a.head, true, true), interval, commitmentMax)
  {
    var p := PassOf(net.setId, a.head, ViewOf(s), interval, commitmentMax);
    RoundServed(net.setId, s, a, interval, commitmentMax);
    RotateCallServed(net.setId, s, a, interval, commitmentMax);
    var t := StateAfter(s, RotateCall(p.rotate, a));
    RangeCallServed(net.setId, s, t, a, interval, commitmentMax);
    AllAnswered(c, net, s, a, interval, commitmentMax);
    hide PassOf, RotateCall, RangeCall, StateAfter, AllDone, Ready, Tracks, BackedRun, ViewOf, AfterRound,
         RotationAnswered, RangeAnswered, ValidHistory, IdsFit;
    RotationServed(c, net, s, a, p.rotate);
    RangeServed(c, net, s, t, a, p.range);
    StateAfterConcat(s, RotateCall(p.rotate, a), RangeCall(p.range, a));
    BackedConcat(c, s, RotateCall(p.rotate, a), RangeCall(p.range, a));
  }

  lemma {:induction false} AllAnswered(c: Crypto, net: Network, s: State, a: Answer, interval: nat, commitmentMax: nat)
    requires interval >= 1 && 1 <= s.latestBlock && 1 <= a.head && HonestAnswer(c, net, s, a, interval, commitmentMax)
    ensures AfterRound(net.setId, ViewOf(s), RoundOf(a), interval, commitmentMax) ==
            AfterRound(net.setId, ViewOf(s), Round(a.head, true, true), interval, commitmentMax)
  {
    hide PassOf, RotateResult, HeaderRangeResult;
  }

  // ----- the loop

  /** The state after an answered rotation, and after an answered range. */
  lemma {:induction false} AfterRotateCall(s: State, id: U64, a: Answer)
    requires a.newHash.Some?
    ensures StateAfter(s, RotateCall(Some(id), a)) == RotateStep(s, id, a.newHash).state
    ensures AllDone(s, RotateCall(Some(id), a)) ==> RotateStep(s, id, a.newHash).outcome == Done
  {
    OneCall(s, RotateSet(id, a.newHash, a.rotation, a.justification));
    hide RotateStep;
  }

  lemma {:induction false} AfterRangeCall(s: State, r: HeaderRangeRequest, a: Answer)
    requires r.setId < U64_BOUND && a.verified.Some?
    ensures StateAfter(s, RangeCall(Some(r), a)) == CommitStep(s, r.setId, r.target, a.verified).state
    ensures AllDone(s, RangeCall(Some(r), a)) ==> CommitStep(s, r.setId, r.target, a.verified).outcome == Done
  {
    OneCall(s, CommitHeaderRange(r.setId, r.target, a.verified, a.proof));
    hide CommitStep;
  }

  lemma {:induction false} NoCall(s: State, a: Answer)
    ensures StateAfter(s, RotateCall(None, a)) == s && StateAfter(s, RangeCall(None, a)) == s
  {
  }

  /** Submits the requests of a pass, and delivers the gateway's answers: each for the input that the
      contract handed out. */
  method Deliver(setId: History, contract: VectorX, p: Requests, a: Answer, ghost interval: nat,
                 ghost commitmentMax: nat)
    returns (allDone: bool)
    requires ValidHistory(setId, a.head) && IdsFit(setId, a.head) && 1 <= contract.latestBlock <= a.head
    requires interval >= 1
    requires Ready(setId, contract.Storage()) && NonZeroAnswer(a)
    requires p == PassOf(setId, a.head, ViewOf(contract.Storage()), interval, commitmentMax)
    requires (p.rotate.Some? <==> a.newHash.Some?) && (p.range.Some? <==> a.verified.Some?)
    requires p.rotate.Some? ==>
               && p.rotate.value + 1 < U64_BOUND
               && RequestRotateOutcome(contract.Storage(), p.rotate.value) == Done
    requires p.range.Some? ==>
               && p.range.value.setId < U64_BOUND
               && RequestHeaderRangeOutcome(contract.Storage(), p.range.value.setId, p.range.value.target) == Done
    modifies contract
    ensures allDone
    ensures contract.Storage() ==
            StateAfter(old(contract.Storage()), RoundCalls(setId, old(contract.Storage()), a, interval, commitmentMax))
  {
    ghost var s := contract.Storage();
    RotateCallServed(setId, s, a, interval, commitmentMax);
    ghost var t := StateAfter(s, RotateCall(p.rotate, a));
    RangeCallServed(setId, s, t, a, interval, commitmentMax);
    StateAfterConcat(s, RotateCall(p.rotate, a), RangeCall(p.range, a));
    NoCall(s, a);
    NoCall(t, a);
    hide PassOf, RotateCall, RangeCall, StateAfter, AllDone, Ready, ViewOf, AfterRound, ValidHistory, IdsFit,
         RotateStep, CommitStep, RequestRotateOutcome, RequestHeaderRangeOutcome;
    allDone := true;
    var rotateInput: Option<(U64, Bytes32)>, rangeInput: Option<HeaderRangeInput> := None, None;
    if p.rotate.Some? {
      var submitted;
      submitted, rotateInput := contract.RequestRotate(p.rotate.value);
      allDone := allDone && submitted == Done;
    }
    if p.range.Some? {
      var submitted;
      submitted, rangeInput := contract.RequestHeaderRange(p.range.value.setId, p.range.value.target);
      allDone := allDone && submitted == Done;
    }
    if p.rotate.Some? {
      AfterRotateCall(s, p.rotate.value, a);
      var outcome := contract.Rotate(
        p.rotate.value, (id: U64, hash: Bytes32) => if rotateInput == Some((id, hash)) then a.newHash else None);
      allDone := allDone && outcome == Done;
    }
    assert contract.Storage() == t;
    if p.range.Some? {
      AfterRangeCall(t, p.range.value, a);
      var outcome := contract.CommitHeaderRange(
        p.range.value.setId, p.range.value.target,
        (input: HeaderRangeInput) => if rangeInput == Some(input) then a.verified else None);
      allDone := allDone && outcome == Done;
    }
  }

  /** One pass of the operator's loop against the contract, answered from an honest network. */
  method ServePass(c: Crypto, net: Network, contract: VectorX, head: U32, interval: U32, commitmentMax: U32,
                   ghost lo: nat)
    returns (allDone: bool, ghost calls: seq<Action>)
    requires 1 <= interval && commitmentMax <= MAX_NUM_HEADERS
    requires HonestNetwork(c, net, lo, head, interval) && lo < contract.latestBlock <= head
    requires Ready(net.setId, contract.Storage()) && Tracks(c, net, contract.Storage())
    modifies contract
    ensures allDone && Progressed(c, net, old(contract.Storage()), calls, contract.Storage())
    ensures ViewOf(contract.Storage()) ==
            AfterRound(net.setId, ViewOf(old(contract.Storage())), Round(head, true, true), interval, commitmentMax)
  {
    ghost var s := contract.Storage();
    NetworkAttests(c, net, lo, head, ViewOf(s), interval, commitmentMax);
    var p, a := AnswerPass(c, net, contract.Storage(), head, interval, commitmentMax, lo);
    RequestsAccepted(net.setId, s, head, interval, commitmentMax);
    HonestRound(c, net, s, a, interval, commitmentMax);
    calls := RoundCalls(net.setId, s, a, interval, commitmentMax);
    hide PassOf, StateAfter, AllDone, Ready, Tracks, ViewOf, AfterRound, RoundCalls, HonestAnswer, ValidChain,
         RequestRotateOutcome, RequestHeaderRangeOutcome, BackedRun, PassAttested;
    allDone := Deliver(net.setId, contract, p, a, interval, commitmentMax);
  }

  /** The calls lead from s to t, each backed by the circuits and successful, and t is on track. */
  ghost predicate Progressed(c: Crypto, net: Network, s: State, calls: seq<Action>, t: State) {
    && BackedRun(c, s, calls) && AllDone(s, calls) && t == StateAfter(s, calls)
    && Ready(net.setId, t) && Tracks(c, net, t)
  }

  lemma {:induction false} ProgressedFurther(c: Crypto, net: Network, s: State, xs: seq<Action>, t: State,
                                             ys: seq<Action>, u: State)
    requires Progressed(c, net, s, xs, t) && Progressed(c, net, t, ys, u)
    ensures Progressed(c, net, s, xs + ys, u)
  {
    hide StateAfter, AllDone, Ready, Tracks, BackedRun;
    BackedConcat(c, s, xs, ys);
    AllDoneConcat(s, xs, ys);
    StateAfterConcat(s, xs, ys);
  }

  /** The system catches up: on an honest network, from a contract that is ready and stores the
      network's hashes, the operator's passes, answered by the off-chain code and the circuits, bring
      the contract within one interval of the head, after finitely many passes. Every call on the way
      is backed by the circuits and goes through, and everything stored is the chain's. */
  method Operate(c: Crypto, net: Network, contract: VectorX, head: U32, interval: U32, commitmentMax: U32,
                 ghost lo: nat)
    returns (allDone: bool, ghost calls: seq<Action>)
    requires 1 <= interval <= commitmentMax <= MAX_NUM_HEADERS
    requires HonestNetwork(c, net, lo, head, interval) && lo < contract.latestBlock <= head
    requires Ready(net.setId, contract.Storage()) && Tracks(c, net, contract.Storage())
    modifies contract
    ensures allDone && Progressed(c, net, old(contract.Storage()), calls, contract.Storage())
    ensures contract.latestBlock <= head < contract.latestBlock + interval
  {
    hide PassOf, StateAfter, AllDone, Serviceable, Tracks, AfterRound, HonestNetwork, Progressed, BackedRun;
    ghost var s := contract.Storage();
    allDone, calls := true, [];
    Unmoved(c, net, s);
    while contract.latestBlock + interval <= head
      invariant allDone && lo < contract.latestBlock <= head && Ready(net.setId, contract.Storage())
      invariant Tracks(c, net, contract.Storage())
      invariant Progressed(c, net, s, calls, contract.Storage())
      decreases 2 * head + 1 - Potential(net.setId, head, ViewOf(contract.Storage()), interval, commitmentMax)
    {
      ghost var t := contract.Storage();
      HistoryOf(c, net, lo, head, interval);
      RoundProgress(net.setId, head, ViewOf(t), interval, commitmentMax);
      RoundKeepsServiceable(net.setId, ViewOf(t), Round(head, true, true), interval, commitmentMax);
      var done; ghost var more;
      done, more := ServePass(c, net, contract, head, interval, commitmentMax, lo);
      ProgressedFurther(c, net, s, calls, t, more, contract.Storage());
      ProgressMeans(c, net, t, more, contract.Storage());
      allDone, calls := allDone && done, calls + more;
    }
  }

  lemma {:induction false} Unmoved(c: Crypto, net: Network, s: State)
    requires Ready(net.setId, s) && Tracks(c, net, s)
    ensures Progressed(c, net, s, [], s)
  {
    hide Tracks, Ready;
  }

  lemma {:induction false} HistoryOf(c: Crypto, net: Network, lo: nat, head: U32, interval: nat)
    requires interval >= 1 && HonestNetwork(c, net, lo, head, interval)
    ensures ValidHistory(net.setId, head)
  {
    hide ValidHistory, ValidChain;
  }

  lemma {:induction false} ProgressMeans(c: Crypto, net: Network, s: State, calls: seq<Action>, t: State)
    requires Progressed(c, net, s, calls, t)
    ensures Ready(net.setId, t) && Tracks(c, net, t)
  {
    hide Ready, Tracks;
  }

  /** From deployment at a genesis block of the network. */
  method Launch(c: Crypto, net: Network, genesis: U32, head: U32, interval: U32, commitmentMax: U32)
    returns (contract: VectorX, allDone: bool, ghost calls: seq<Action>)
    requires 1 <= interval <= commitmentMax <= MAX_NUM_HEADERS
    requires 1 <= genesis <= head && HonestNetwork(c, net, genesis - 1, head, interval)
    requires net.keys(net.setId(genesis)) != [] && AuthoritySetHash(c, net.keys(net.setId(genesis))) != ZERO32
    ensures net.setId(genesis) < U64_BOUND
    ensures var id := net.setId(genesis);
            allDone && Progressed(c, net,
                                  Initialized(genesis, HeaderHash(c, net.chain(genesis)), id,
                                              AuthoritySetHash(c, net.keys(id))),
                                  calls, contract.Storage())
    ensures contract.latestBlock <= head < contract.latestBlock + interval
  {
    var id := net.setId(genesis);
    InitiallyTracks(c, net, genesis);
    InitiallyReady(net.setId, genesis, HeaderHash(c, net.chain(genesis)), AuthoritySetHash(c, net.keys(id)));
    hide HonestNetwork, HeaderHash, AuthoritySetHash, Ready, Tracks, Progressed;
    contract := new VectorX(genesis, HeaderHash(c, net.chain(genesis)), id, AuthoritySetHash(c, net.keys(id)));
    allDone, calls := Operate(c, net, contract, head, interval, commitmentMax, genesis - 1);
  }
}
