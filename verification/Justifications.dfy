/** GRANDPA justifications: the signed precommit message and its two readers
    (circuits/builder/decoder.rs, circuits/input/mod.rs), and the circuit's checks
    (circuits/builder/justification.rs). */
module Justifications {
  import opened Basics
  import opened Compact
  import opened Authorities

  const MAX_AUTHORITY_SET_SIZE: nat := 300
  const ENCODED_PRECOMMIT_LENGTH: nat := 53

  // ----- the precommit message

  datatype Precommit = Precommit(blockHash: Bytes32, blockNumber: nat, round: nat, authoritySetId: nat)

  /** The message the authorities sign. */
  function EncodePrecommit(p: Precommit): (b: Bytes)
    ensures |b| == ENCODED_PRECOMMIT_LENGTH
  {
    [1] + p.blockHash + LE(p.blockNumber, 4) + LE(p.round, 8) + LE(p.authoritySetId, 8)
  }

  /** The circuit's `decode_precommit`: numbers are reversed, then read big-endian. */
  function DecodePrecommit(b: Bytes): Option<Precommit>
    requires |b| == ENCODED_PRECOMMIT_LENGTH
  {
    if b[0] != 1 then None
    else Some(Precommit(b[1..33], FromBE(Reversed(b[33..37])), FromBE(Reversed(b[37..45])),
                        FromBE(Reversed(b[45..53]))))
  }

  /** The off-chain `decode_precommit` reads little-endian; None stands for its panics. */
  function ReadPrecommit(b: Bytes): Option<Precommit> {
    if |b| < ENCODED_PRECOMMIT_LENGTH || b[0] != 1 then None
    else Some(Precommit(b[1..33], FromLE(b[33..37]), FromLE(b[37..45]), FromLE(b[45..53])))
  }

  lemma {:induction false} PrecommitReadersAgree(b: Bytes)
    requires |b| == ENCODED_PRECOMMIT_LENGTH
    ensures DecodePrecommit(b) == ReadPrecommit(b)
  {
    ReversedBEIsLE(b[33..37]);
    ReversedBEIsLE(b[37..45]);
    ReversedBEIsLE(b[45..53]);
  }

  ghost predicate InRange(p: Precommit) {
    p.blockNumber < U32_BOUND && p.round < U64_BOUND && p.authoritySetId < U64_BOUND
  }

  lemma {:induction false} WordSizes()
    ensures Pow256(4) == U32_BOUND && Pow256(8) == U64_BOUND
  {
    assert Pow256(2) == 0x1_0000 && Pow256(4) == U32_BOUND;
    assert Pow256(6) == 0x1_0000_0000_0000;
  }

  lemma {:induction false} MessageFields(tag: Bytes, hash: Bytes32, number: Bytes, round: Bytes, id: Bytes)
    requires |tag| == 1 && |number| == 4 && |round| == |id| == 8
    ensures var b := tag + hash + number + round + id;
            b[0] == tag[0] && b[1..33] == hash && b[33..37] == number && b[37..45] == round && b[45..53] == id
  {
  }

  lemma {:induction false} PrecommitRoundTrip(p: Precommit)
    requires InRange(p)
    ensures DecodePrecommit(EncodePrecommit(p)) == Some(p)
  {
    PrecommitReadersAgree(EncodePrecommit(p));
    WordSizes();
    FromLEInvertsLE(p.blockNumber, 4);
    FromLEInvertsLE(p.round, 8);
    FromLEInvertsLE(p.authoritySetId, 8);
    hide LE, FromLE, Pow256, DecodePrecommit;
    MessageFields([1], p.blockHash, LE(p.blockNumber, 4), LE(p.round, 8), LE(p.authoritySetId, 8));
  }

  /** The decoded fields determine the whole message. */
  lemma {:induction false} PrecommitDetermined(b: Bytes)
    requires |b| == ENCODED_PRECOMMIT_LENGTH && DecodePrecommit(b).Some?
    ensures var p := DecodePrecommit(b).value; InRange(p) && b == EncodePrecommit(p)
  {
    PrecommitReadersAgree(b);
    WordSizes();
    LEInvertsFromLE(b[33..37]);
    LEInvertsFromLE(b[37..45]);
    LEInvertsFromLE(b[45..53]);
    assert b == [b[0]] + b[1..33] + b[33..37] + b[37..45] + b[45..53];
  }

  /** Which bytes are which: a tag of one, 32 bytes of hash, then the block number, the round and the set
      id, for the message that is encoded and for both readers. */
  lemma {:induction false} PrecommitInBytes(b: Bytes, p: Precommit)
    ensures |b| == 53 ==>
              (ReadPrecommit(b) == Some(p) <==>
               b[0] == 1 && p.blockHash == b[1..33] && p.blockNumber == Word(b[33], b[34], b[35], b[36])
               && p.round == LongWord(b[37..45]) && p.authoritySetId == LongWord(b[45..53]))
    ensures |b| == 53 ==> DecodePrecommit(b) == ReadPrecommit(b)
    ensures |b| == 53 && InRange(p) ==> (b == EncodePrecommit(p) <==> ReadPrecommit(b) == Some(p))
    ensures |b| < 53 ==> ReadPrecommit(b) == None
  {
    if |b| == 53 {
      PrecommitReadersAgree(b);
      WordInNumbers(b[33..37]);
      WordInNumbers(b[37..45]);
      WordInNumbers(b[45..53]);
      if InRange(p) {
        PrecommitRoundTrip(p);
        if ReadPrecommit(b) == Some(p) {
          PrecommitDetermined(b);
        }
      }
      hide FromLE, Word, EncodePrecommit, DecodePrecommit;
    }
  }

  /** Eight digits to the base of 256, lowest first. */
  function LongWord(b: Bytes): nat
    requires |b| == 8
  {
    Word(b[0], b[1], b[2], b[3]) + 4294967296 * Word(b[4], b[5], b[6], b[7])
  }

  // ----- counting signatures

  function CountTrue(signed: seq<bool>): (n: nat)
    ensures n <= |signed|
  {
    if signed == [] then 0 else CountTrue(signed[..|signed| - 1]) + if signed[|signed| - 1] then 1 else 0
  }

  lemma {:induction false} CountConcat(a: seq<bool>, b: seq<bool>)
    ensures CountTrue(a + b) == CountTrue(a) + CountTrue(b)
  {
    if b == [] {
      assert a + b == a;
    } else {
      CountConcat(a, b[..|b| - 1]);
      assert (a + b)[..|a + b| - 1] == a + b[..|b| - 1];
    }
  }

  lemma {:induction false} CountNone(signed: seq<bool>)
    requires forall i | 0 <= i < |signed| :: !signed[i]
    ensures CountTrue(signed) == 0
  {
    if signed == [] {
    } else {
      CountNone(signed[..|signed| - 1]);
    }
  }

  /** The count is the number of marked positions. */
  lemma {:induction false} CountIsNumber(signed: seq<bool>)
    ensures CountTrue(signed) == |set i | 0 <= i < |signed| && signed[i]|
  {
    if signed == [] {
    } else {
      var m := |signed| - 1;
      var before, marked := set i | 0 <= i < m && signed[..m][i], set i | 0 <= i < |signed| && signed[i];
      CountIsNumber(signed[..m]);
      assert marked == if signed[m] then before + {m} else before;
    }
  }

  /** `verify_voting_threshold`. */
  method VerifyVotingThreshold(numActive: U32, signed: seq<bool>, numerator: U32, denominator: U32) returns (ok: bool)
    requires |signed| < U32_BOUND
    ensures ok <==> Mul32(CountTrue(signed), denominator) > Mul32(numActive, numerator)
  {
    var numSigned: U32 := 0;
    for i := 0 to |signed|
      invariant numSigned == CountTrue(signed[..i])
    {
      assert signed[..i + 1][..i] == signed[..i];
      numSigned := Add32(numSigned, if signed[i] then 1 else 0);
    }
    assert signed[..|signed|] == signed;
    ok := Mul32(numSigned, denominator) > Mul32(numActive, numerator);
  }

  // ----- the circuit's check

  datatype JustificationData = JustificationData(
    precommit: Bytes, signed: seq<bool>, signatures: seq<Bytes>, pubkeys: seq<Bytes32>, numAuthorities: U32)

  /** The untrusted witness: arrays padded to the largest authority set. */
  type Justification = j: JustificationData |
      && |j.precommit| == ENCODED_PRECOMMIT_LENGTH
      && |j.signed| == |j.signatures| == |j.pubkeys| == MAX_AUTHORITY_SET_SIZE
    witness EMPTY_JUSTIFICATION

  const EMPTY_JUSTIFICATION: JustificationData := JustificationData(
    Zeros(ENCODED_PRECOMMIT_LENGTH), seq<bool>(MAX_AUTHORITY_SET_SIZE, _ => false),
    seq<Bytes>(MAX_AUTHORITY_SET_SIZE, _ => []), seq<Bytes32>(MAX_AUTHORITY_SET_SIZE, _ => ZERO32), 0)

  /** How many keys are committed to: the array's length, if the number is beyond it. */
  function NumCommitted(j: Justification): (m: nat)
    ensures m <= MAX_AUTHORITY_SET_SIZE
  {
    Min(j.numAuthorities, MAX_AUTHORITY_SET_SIZE)
  }

  /** The keys a witness commits to. */
  function CommittedKeys(j: Justification): (keys: seq<Bytes32>)
    ensures |keys| == NumCommitted(j)
  {
    j.pubkeys[..NumCommitted(j)]
  }

  /** When `verify_simple_justification` passes. */
  ghost predicate Justified(c: Crypto, block: U32, hash: Bytes32, setId: U64, setHash: Bytes32, j: Justification) {
    && j.numAuthorities > 0
    && AuthoritySetHash(c, CommittedKeys(j)) == setHash
    && DecodePrecommit(j.precommit).Some?
    && DecodePrecommit(j.precommit).value.blockNumber == block
    && DecodePrecommit(j.precommit).value.authoritySetId == setId
    && DecodePrecommit(j.precommit).value.blockHash == hash
    && (forall i | 0 <= i < MAX_AUTHORITY_SET_SIZE && j.signed[i] ::
        c.ed25519(j.pubkeys[i], j.precommit, j.signatures[i]))
    && Mul32(CountTrue(j.signed), 3) > Mul32(j.numAuthorities, 2)
  }

  method VerifySimpleJustification(c: Crypto, block: U32, hash: Bytes32, setId: U64, setHash: Bytes32, j: Justification)
    returns (ok: bool)
    ensures ok <==> Justified(c, block, hash, setId, setHash, j)
  {
    var commitment := ComputeAuthoritySetCommitment(c, j.numAuthorities, j.pubkeys);
    if commitment != Some(setHash) {
      return false;
    }
    var p := DecodePrecommit(j.precommit);
    if p.None? || p.value.blockNumber != block || p.value.authoritySetId != setId || p.value.blockHash != hash {
      return false;
    }
    // The conditional batch verification of signatures: one message, checked where `signed` is set.
    if exists i | 0 <= i < MAX_AUTHORITY_SET_SIZE && j.signed[i] ::
      !c.ed25519(j.pubkeys[i], j.precommit, j.signatures[i]) {
      return false;
    }
    ok := VerifyVotingThreshold(j.numAuthorities, j.signed, 2, 3);
  }

  /** The check in bytes and numbers: who is committed to, which bytes of the message name the block, the
      hash and the set, whose signatures are checked, and the threshold modulo 2^32. */
  lemma {:induction false} JustifiedInBytes(c: Crypto, block: U32, hash: Bytes32, setId: U64, setHash: Bytes32,
                                            j: Justification)
    ensures |j.precommit| == 53 && |j.signed| == |j.signatures| == |j.pubkeys| == 300
    ensures Justified(c, block, hash, setId, setHash, j) <==>
              var m := j.precommit;
              && j.numAuthorities != 0
              && AuthoritySetHash(c, j.pubkeys[..Min(j.numAuthorities, 300)]) == setHash
              && m[0] == 1 && m[1..33] == hash && Word(m[33], m[34], m[35], m[36]) == block
              && LongWord(m[45..53]) == setId
              && (forall i | 0 <= i < 300 && j.signed[i] :: c.ed25519(j.pubkeys[i], m, j.signatures[i]))
              && |set i | 0 <= i < 300 && j.signed[i]| * 3 % 4294967296 > j.numAuthorities * 2 % 4294967296
  {
    var m := j.precommit;
    var p := Precommit(m[1..33], Word(m[33], m[34], m[35], m[36]), LongWord(m[37..45]), LongWord(m[45..53]));
    PrecommitInBytes(m, p);
    CountIsNumber(j.signed);
    hide AuthoritySetHash, DecodePrecommit, CountTrue, Word, LongWord, EncodePrecommit;
    assert m[0] == 1 ==> ReadPrecommit(m) == Some(p);
  }

  // ----- what a passed check means

  /** Nobody is marked as signing beyond the authorities: what the padding ensures, and the
      circuit does not check. */
  ghost predicate NoPaddingSigned(j: Justification) {
    forall i | j.numAuthorities <= i < MAX_AUTHORITY_SET_SIZE :: !j.signed[i]
  }

  /** The shape of every justification the padding produces, and a little more: beyond the array,
      numbers are harmless as long as twice the number does not wrap around. */
  ghost predicate Shaped(j: Justification) {
    j.numAuthorities < 0x8000_0000 && NoPaddingSigned(j)
  }

  /** More than two thirds of the committed authorities validly signed the message. */
  ghost predicate QuorumSigned(c: Crypto, j: Justification, message: Bytes) {
    && 3 * CountTrue(j.signed[..NumCommitted(j)]) > 2 * NumCommitted(j)
    && forall i | 0 <= i < NumCommitted(j) && j.signed[i] :: c.ed25519(j.pubkeys[i], message, j.signatures[i])
  }

  /** They signed, in some round, for this block, hash and authority set. */
  ghost predicate SignedFor(c: Crypto, block: U32, hash: Bytes32, setId: U64, j: Justification) {
    exists round: U64 :: QuorumSigned(c, j, EncodePrecommit(Precommit(hash, block, round, setId)))
  }

  lemma {:induction false} MarkedSplit(j: Justification)
    ensures CountTrue(j.signed) == CountTrue(j.signed[..NumCommitted(j)]) + CountTrue(j.signed[NumCommitted(j)..])
  {
    assert j.signed == j.signed[..NumCommitted(j)] + j.signed[NumCommitted(j)..];
    CountConcat(j.signed[..NumCommitted(j)], j.signed[NumCommitted(j)..]);
  }

  lemma {:induction false} AuthoritiesSigned(j: Justification)
    requires NoPaddingSigned(j)
    ensures CountTrue(j.signed) == CountTrue(j.signed[..NumCommitted(j)])
  {
    MarkedSplit(j);
    CountNone(j.signed[NumCommitted(j)..]);
  }

  /** Below 2^31 the products of the threshold do not wrap around. */
  lemma {:induction false} ThresholdMet(j: Justification)
    requires j.numAuthorities < 0x8000_0000
    ensures Mul32(CountTrue(j.signed), 3) > Mul32(j.numAuthorities, 2) <==>
              3 * CountTrue(j.signed) > 2 * j.numAuthorities
  {
    hide CountTrue;
  }

  /** The message checked is the one for the block, the hash and the authority set. */
  lemma {:induction false} JustifiedMessage(c: Crypto, block: U32, hash: Bytes32, setId: U64, setHash: Bytes32,
                                            j: Justification)
    returns (round: U64)
    requires Justified(c, block, hash, setId, setHash, j)
    ensures j.precommit == EncodePrecommit(Precommit(hash, block, round, setId))
  {
    hide AuthoritySetHash, EncodePrecommit, DecodePrecommit, CountTrue;
    PrecommitDetermined(j.precommit);
    round := DecodePrecommit(j.precommit).value.round;
  }

  /** The votes of a witness shaped as the padding shapes it. */
  lemma {:induction false} JustifiedVotes(c: Crypto, block: U32, hash: Bytes32, setId: U64, setHash: Bytes32,
                                          j: Justification)
    requires Justified(c, block, hash, setId, setHash, j) && Shaped(j)
    ensures CommittedKeys(j) != [] && AuthoritySetHash(c, CommittedKeys(j)) == setHash
    ensures QuorumSigned(c, j, j.precommit)
  {
    AuthoritiesSigned(j);
    ThresholdMet(j);
    hide DecodePrecommit, AuthoritySetHash, CountTrue, NoPaddingSigned, Mul32;
  }

  /** What a passed check means, for such a witness: more than two thirds of the committed
      authorities validly signed the very message for this block. */
  lemma {:induction false} JustifiedMeans(c: Crypto, block: U32, hash: Bytes32, setId: U64, setHash: Bytes32,
                                          j: Justification)
    requires Justified(c, block, hash, setId, setHash, j) && Shaped(j)
    ensures CommittedKeys(j) != [] && AuthoritySetHash(c, CommittedKeys(j)) == setHash
    ensures SignedFor(c, block, hash, setId, j)
  {
    var round := JustifiedMessage(c, block, hash, setId, setHash, j);
    JustifiedVotes(c, block, hash, setId, setHash, j);
    hide Justified, QuorumSigned, EncodePrecommit, AuthoritySetHash, CommittedKeys;
    assert QuorumSigned(c, j, EncodePrecommit(Precommit(hash, block, round, setId)));
  }

  /** The votes that the padding may add without replacing those of committed authorities: for a
      number that fits the array, fewer positions are marked in the padding than in excess of the
      threshold. Beyond the array nothing is padding; there twice the number has to stay clear of
      2^32, or the marked positions have to be a quorum of the array. */
  predicate EnoughMarked(j: Justification) {
    var n := j.numAuthorities;
    if n <= MAX_AUTHORITY_SET_SIZE then 3 * CountTrue(j.signed[n..]) < 3 * CountTrue(j.signed) - 2 * n
    else n < 0x8000_0000 || 3 * CountTrue(j.signed) > 2 * MAX_AUTHORITY_SET_SIZE
  }

  /** In general, for every number of authorities, the committed authorities are a quorum exactly
      then. */
  lemma {:induction false} QuorumExact(c: Crypto, block: U32, hash: Bytes32, setId: U64, setHash: Bytes32,
                                       j: Justification)
    requires Justified(c, block, hash, setId, setHash, j)
    ensures SignedFor(c, block, hash, setId, j) <==> EnoughMarked(j)
    ensures SignedFor(c, block, hash, setId, j) <==> 3 * CountTrue(j.signed[..NumCommitted(j)]) > 2 * NumCommitted(j)
  {
    var round := JustifiedMessage(c, block, hash, setId, setHash, j);
    MarkedSplit(j);
    assert j.signed[..|j.signed|] == j.signed;
    hide EncodePrecommit, DecodePrecommit, AuthoritySetHash, CountTrue;
    var message := EncodePrecommit(Precommit(hash, block, round, setId));
    if 3 * CountTrue(j.signed[..NumCommitted(j)]) > 2 * NumCommitted(j) {
      assert QuorumSigned(c, j, message);
    }
  }

  /** The bound on the number is needed: for the number 2^31 the threshold wraps around to zero, so one
      signature passes for all the keys of the array. */
  lemma {:induction false} NumberWraps(c: Crypto, keys: seq<Bytes32>, sig: Bytes, p: Precommit)
    returns (j: Justification)
    requires |keys| == MAX_AUTHORITY_SET_SIZE && InRange(p) && c.ed25519(keys[0], EncodePrecommit(p), sig)
    ensures CommittedKeys(j) == keys && NoPaddingSigned(j) && CountTrue(j.signed) == 1
    ensures Justified(c, p.blockNumber, p.blockHash, p.authoritySetId, AuthoritySetHash(c, keys), j)
    ensures !SignedFor(c, p.blockNumber, p.blockHash, p.authoritySetId, j)
  {
    PrecommitRoundTrip(p);
    hide EncodePrecommit, DecodePrecommit, AuthoritySetHash, SignedFor;
    var signed := [true] + seq<bool>(MAX_AUTHORITY_SET_SIZE - 1, _ => false);
    CountConcat([true], signed[1..]);
    CountNone(signed[1..]);
    assert signed == [true] + signed[1..] && [true][..0] == [] && CountTrue([true]) == 1;
    j := JustificationData(EncodePrecommit(p), signed, seq<Bytes>(MAX_AUTHORITY_SET_SIZE, _ => sig), keys, 0x8000_0000);
    assert CommittedKeys(j) == keys;
    QuorumExact(c, p.blockNumber, p.blockHash, p.authoritySetId, AuthoritySetHash(c, keys), j);
  }

  /** That nobody is marked in the padding is needed: for a set of one authority, the signature of
      a key in the padding passes the check. */
  lemma {:induction false} PaddingCounted(c: Crypto, key: Bytes32, other: Bytes32, sig: Bytes, p: Precommit)
    returns (j: Justification)
    requires InRange(p) && c.ed25519(other, EncodePrecommit(p), sig)
    ensures j.numAuthorities == 1 && CommittedKeys(j) == [key]
    ensures Justified(c, p.blockNumber, p.blockHash, p.authoritySetId, AuthoritySetHash(c, [key]), j)
    ensures !j.signed[0] && !SignedFor(c, p.blockNumber, p.blockHash, p.authoritySetId, j)
  {
    PrecommitRoundTrip(p);
    hide EncodePrecommit, DecodePrecommit, AuthoritySetHash;
    var signed := [false, true] + seq<bool>(MAX_AUTHORITY_SET_SIZE - 2, _ => false);
    CountConcat([false, true], signed[2..]);
    CountNone(signed[2..]);
    assert signed == [false, true] + signed[2..];
    assert [false, true][..1] == [false] && [false][..0] == [] && CountTrue([false, true]) == 1;
    j := JustificationData(EncodePrecommit(p), signed, seq<Bytes>(MAX_AUTHORITY_SET_SIZE, _ => sig),
                           [key] + seq<Bytes32>(MAX_AUTHORITY_SET_SIZE - 1, _ => other), 1);
    assert CommittedKeys(j) == [key];
    assert j.signed[..1] == [false] && CountTrue([false]) == 0;
  }

  // ----- quorum intersection

  function Both(a: seq<bool>, b: seq<bool>): (r: seq<bool>)
    requires |a| == |b|
    ensures |r| == |a| && forall i | 0 <= i < |a| :: r[i] == (a[i] && b[i])
  {
    seq(|a|, i requires 0 <= i < |a| => a[i] && b[i])
  }

  lemma {:induction false} Overlap(a: seq<bool>, b: seq<bool>)
    requires |a| == |b|
    ensures CountTrue(a) + CountTrue(b) <= |a| + CountTrue(Both(a, b))
  {
    if a == [] {
    } else {
      var m := |a| - 1;
      Overlap(a[..m], b[..m]);
      assert Both(a, b)[..m] == Both(a[..m], b[..m]);
    }
  }

  /** Two quorums of marked positions share more than a third of the positions. */
  lemma {:induction false} QuorumsIntersect(n: nat, a: seq<bool>, b: seq<bool>)
    requires |a| == |b| == n && 3 * CountTrue(a) > 2 * n && 3 * CountTrue(b) > 2 * n
    ensures 3 * CountTrue(Both(a, b)) > n
  {
    Overlap(a, b);
  }

  /** The same keys were committed to in both, and more than a third of them validly signed both
      messages. */
  ghost predicate BothSigned(c: Crypto, j: Justification, k: Justification) {
    && CommittedKeys(j) == CommittedKeys(k)
    && var m := NumCommitted(j);
    && m == NumCommitted(k)
    && 3 * CountTrue(Both(j.signed[..m], k.signed[..m])) > m
    && forall i | 0 <= i < m && j.signed[i] && k.signed[i] ::
         c.ed25519(j.pubkeys[i], j.precommit, j.signatures[i]) && c.ed25519(j.pubkeys[i], k.precommit, k.signatures[i])
  }

  lemma {:induction false} QuorumsShare(c: Crypto, j: Justification, k: Justification)
    requires CommittedKeys(j) == CommittedKeys(k)
    requires QuorumSigned(c, j, j.precommit) && QuorumSigned(c, k, k.precommit)
    ensures BothSigned(c, j, k)
  {
    var m, keys := NumCommitted(j), CommittedKeys(j);
    assert m == NumCommitted(k);
    hide CountTrue, NumCommitted;
    QuorumsIntersect(m, j.signed[..m], k.signed[..m]);
    forall i | 0 <= i < m
      ensures j.pubkeys[i] == k.pubkeys[i]
    {
      assert j.pubkeys[i] == keys[i] == k.pubkeys[i];
    }
  }

  lemma {:induction false} MessagesDiffer(c: Crypto, block: U32, hash: Bytes32, setId: U64, setHash: Bytes32,
                                          j: Justification, block': U32, hash': Bytes32, setId': U64, setHash': Bytes32,
                                          k: Justification)
    requires Justified(c, block, hash, setId, setHash, j) && Justified(c, block', hash', setId', setHash', k)
    ensures (block, hash, setId) != (block', hash', setId') ==> j.precommit != k.precommit
  {
    hide AuthoritySetHash, DecodePrecommit, CountTrue, CommittedKeys;
  }

  /** Accountable safety: two justifications of the padding's shape, accepted under one authority set
      hash, share more than a third of the authorities as signers of both messages, or inputs hashed
      for the commitments collide; for different blocks, hashes or sets the messages differ. */
  lemma {:induction false} AccountableSafety(c: Crypto, setHash: Bytes32, block: U32, hash: Bytes32, setId: U64,
                                             j: Justification, block': U32, hash': Bytes32, setId': U64,
                                             k: Justification)
    requires Justified(c, block, hash, setId, setHash, j) && Shaped(j)
    requires Justified(c, block', hash', setId', setHash, k) && Shaped(k)
    ensures CommittedKeys(j) != [] && CommittedKeys(k) != []
    ensures CommitmentsCollide(c, CommittedKeys(j), CommittedKeys(k)) || BothSigned(c, j, k)
    ensures (block, hash, setId) != (block', hash', setId') ==> j.precommit != k.precommit
  {
    JustifiedVotes(c, block, hash, setId, setHash, j);
    JustifiedVotes(c, block', hash', setId', setHash, k);
    MessagesDiffer(c, block, hash, setId, setHash, j, block', hash', setId', setHash, k);
    hide *;
    CommitmentBinds(c, CommittedKeys(j), CommittedKeys(k));
    if CommittedKeys(j) == CommittedKeys(k) {
      QuorumsShare(c, j, k);
    }
  }

  /** The shape is needed: with votes in the padding, two hashes of one block are justified under one set
      hash, and the only committed key signed neither. */
  lemma {:induction false} UnsignedFork(c: Crypto, key: Bytes32, other: Bytes32, p: Precommit, sig: Bytes, q: Precommit,
                                        sig': Bytes)
    returns (j: Justification, k: Justification)
    requires InRange(p) && c.ed25519(other, EncodePrecommit(p), sig)
    requires InRange(q) && c.ed25519(other, EncodePrecommit(q), sig')
    requires p.blockNumber == q.blockNumber && p.blockHash != q.blockHash
    ensures Justified(c, p.blockNumber, p.blockHash, p.authoritySetId, AuthoritySetHash(c, [key]), j)
    ensures Justified(c, q.blockNumber, q.blockHash, q.authoritySetId, AuthoritySetHash(c, [key]), k)
    ensures CommittedKeys(j) == CommittedKeys(k) == [key] && !j.signed[0] && !k.signed[0] && !BothSigned(c, j, k)
  {
    hide Justified, EncodePrecommit, AuthoritySetHash, SignedFor;
    j := PaddingCounted(c, key, other, sig, p);
    k := PaddingCounted(c, key, other, sig', q);
    var both := Both(j.signed[..1], k.signed[..1]);
    assert both == [false] && [false][..0] == [] && CountTrue([false]) == 0;
  }
}
