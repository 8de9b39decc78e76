/** From a stream of signed precommits to the circuit's witness: the indexer's quorum check and
    alignment (bin/indexer.rs), then the weight check and padding of
    `get_justification_from_block` (circuits/input/mod.rs). */
module Indexer {
  import opened Basics
  import opened Authorities
  import opened Justifications

  /** Stands in for the library's dummy signature. */
  const DUMMY_SIGNATURE: Signature := Zeros(SIGNATURE_LENGTH)
  const SIGNATURE_LENGTH: nat := 64
  type Signature = s: Bytes | |s| == SIGNATURE_LENGTH witness Zeros(64)

  /** A precommit whose signature has been verified. */
  datatype Signer = Signer(id: Bytes32, signature: Signature)

  /** What is stored; keys and signatures are byte strings of any length. */
  datatype StoredJustification = StoredJustification(
    message: Bytes, pubkeys: seq<Bytes>, signatures: seq<Bytes>, signed: seq<bool>, numAuthorities: nat)

  ghost predicate SignedBy(validators: seq<Signer>, key: Bytes32) {
    exists v :: v in validators && v.id == key
  }

  /** The last precommit received from this signer. */
  ghost predicate LastFrom(validators: seq<Signer>, v: Signer) {
    exists j | 0 <= j < |validators| ::
      validators[j] == v && forall k | j < k < |validators| :: validators[k].id != v.id
  }

  /** Position i tells, for authority i, whether it signed, and carries its last signature. */
  ghost predicate AlignedAt(authorities: seq<Bytes32>, validators: seq<Signer>, s: StoredJustification, i: nat)
    requires i < |authorities| == |s.signed| == |s.signatures|
  {
    && (s.signed[i] <==> SignedBy(validators, authorities[i]))
    && |s.signatures[i]| == SIGNATURE_LENGTH
    && (s.signed[i] ==> LastFrom(validators, Signer(authorities[i], s.signatures[i])))
    && (!s.signed[i] ==> s.signatures[i] == DUMMY_SIGNATURE)
  }

  ghost predicate Aligned(authorities: seq<Bytes32>, validators: seq<Signer>, s: StoredJustification) {
    && s.pubkeys == authorities
    && s.numAuthorities == |authorities| == |s.signed| == |s.signatures|
    && forall i | 0 <= i < |authorities| :: AlignedAt(authorities, validators, s, i)
  }

  // ----- counting voters

  ghost predicate DistinctSigners(validators: seq<Signer>) {
    forall i, j | 0 <= i < j < |validators| :: validators[i].id != validators[j].id
  }

  ghost predicate DistinctKeys(authorities: seq<Bytes32>) {
    forall i, j | 0 <= i < j < |authorities| :: authorities[i] != authorities[j]
  }

  ghost function SignerIds(validators: seq<Signer>): set<Bytes32> {
    set v | v in validators :: v.id
  }

  /** The authorities among the signers. */
  ghost function Voters(authorities: seq<Bytes32>, validators: seq<Signer>): set<Bytes32> {
    set k | k in SignerIds(validators) && k in authorities
  }

  lemma {:induction false} DistinctCount(validators: seq<Signer>)
    requires DistinctSigners(validators)
    ensures |SignerIds(validators)| == |validators|
  {
    if validators == [] {
      assert SignerIds(validators) == {};
    } else {
      var m := |validators| - 1;
      DistinctCount(validators[..m]);
      assert validators == validators[..m] + [validators[m]];
      assert SignerIds(validators) == SignerIds(validators[..m]) + {validators[m].id};
    }
  }

  /** Every signer in the authority list marks a position, and only one if the keys are distinct. */
  lemma {:induction false} PositionsMarked(authorities: seq<Bytes32>, signed: seq<bool>, ids: set<Bytes32>)
    requires |authorities| == |signed|
    requires forall i | 0 <= i < |signed| :: signed[i] <==> authorities[i] in ids
    ensures |set k | k in ids && k in authorities| <= CountTrue(signed)
    ensures DistinctKeys(authorities) ==> |set k | k in ids && k in authorities| == CountTrue(signed)
  {
    if authorities == [] {
      assert (set k | k in ids && k in authorities) == {};
    } else {
      var m := |authorities| - 1;
      PositionsMarked(authorities[..m], signed[..m], ids);
      LastKeyMarks(authorities, ids);
    }
  }

  lemma {:induction false} LastKeyMarks(authorities: seq<Bytes32>, ids: set<Bytes32>)
    requires authorities != []
    ensures var m := |authorities| - 1;
            var before, marked := set k | k in ids && k in authorities[..m], set k | k in ids && k in authorities;
            && |marked| <= |before| + (if authorities[m] in ids then 1 else 0)
            && (DistinctKeys(authorities) ==> DistinctKeys(authorities[..m])
                                              && |marked| == |before| + if authorities[m] in ids then 1 else 0)
  {
    var m := |authorities| - 1;
    var before, marked := set k | k in ids && k in authorities[..m], set k | k in ids && k in authorities;
    assert authorities == authorities[..m] + [authorities[m]];
    assert authorities[m] in authorities[..m] ==> !DistinctKeys(authorities);
    if authorities[m] in ids {
      assert marked == before + {authorities[m]};
    } else {
      assert marked == before;
    }
  }

  lemma {:induction false} VotersMarked(authorities: seq<Bytes32>, validators: seq<Signer>, s: StoredJustification)
    requires Aligned(authorities, validators, s)
    ensures |Voters(authorities, validators)| <= CountTrue(s.signed)
    ensures DistinctKeys(authorities) ==> |Voters(authorities, validators)| == CountTrue(s.signed)
  {
    var ids := SignerIds(validators);
    forall i | 0 <= i < |s.signed|
      ensures s.signed[i] <==> authorities[i] in ids
    {
      assert AlignedAt(authorities, validators, s, i);
    }
    PositionsMarked(authorities, s.signed, ids);
  }

  /** What is stored carries a quorum if and only if the authorities among the signers, each counted
      once, are more than two thirds. */
  lemma {:induction false} StoredQuorumExact(authorities: seq<Bytes32>, validators: seq<Signer>, s: StoredJustification)
    requires Aligned(authorities, validators, s) && DistinctKeys(authorities)
    ensures 3 * CountTrue(s.signed) > 2 * |authorities| <==> 3 * |Voters(authorities, validators)| > 2 * |authorities|
  {
    VotersMarked(authorities, validators, s);
  }

  // ----- the indexer

  lemma {:induction false} NextFrom(validators: seq<Signer>, i: nat, v: Signer)
    requires i < |validators|
    ensures LastFrom(validators[..i + 1], validators[i])
    ensures LastFrom(validators[..i], v) && v.id != validators[i].id ==> LastFrom(validators[..i + 1], v)
  {
    var before, more := validators[..i], validators[..i + 1];
    assert more[i] == validators[i];
    if LastFrom(before, v) && v.id != validators[i].id {
      var j :| 0 <= j < i && before[j] == v && forall k | j < k < i :: before[k].id != v.id;
      assert more[j] == v;
      assert forall k | j < k < i :: more[k] == before[k];
    }
  }

  /** The indexer on one justification; None when too few precommits are valid. So something is
      stored without a quorum exactly when there are enough precommits, but too few voters. */
  method StoreJustification(authorities: seq<Bytes32>, validators: seq<Signer>, message: Bytes)
    returns (r: Option<StoredJustification>)
    ensures r.Some? <==> |validators| > |authorities| * 2 / 3
    ensures r.Some? ==> Aligned(authorities, validators, r.value) && r.value.message == message
    ensures r.Some? && DistinctKeys(authorities) ==>
              (3 * CountTrue(r.value.signed) > 2 * |authorities| <==>
               3 * |Voters(authorities, validators)| > 2 * |authorities|)
  {
    hide CountTrue, Voters, DistinctKeys;
    var signatureOf: map<Bytes32, Signature> := map[];
    for i := 0 to |validators|
      invariant forall k :: k in signatureOf <==> SignedBy(validators[..i], k)
      invariant forall k | k in signatureOf :: LastFrom(validators[..i], Signer(k, signatureOf[k]))
    {
      assert validators[..i + 1] == validators[..i] + [validators[i]];
      forall v | LastFrom(validators[..i], v) || v == validators[i]
        ensures v == validators[i] || v.id != validators[i].id ==> LastFrom(validators[..i + 1], v)
      {
        NextFrom(validators, i, v);
      }
      signatureOf := signatureOf[validators[i].id := validators[i].signature];
    }
    assert validators[..|validators|] == validators;
    if |validators| <= |authorities| * 2 / 3 {
      return None;
    }
    var signatures: seq<Bytes> := [];
    var signed: seq<bool> := [];
    for i := 0 to |authorities|
      invariant |signed| == |signatures| == i
      invariant forall j | 0 <= j < i ::
                  |signatures[j]| == SIGNATURE_LENGTH &&
                  if authorities[j] in signatureOf then signed[j] && signatures[j] == signatureOf[authorities[j]]
                  else !signed[j] && signatures[j] == DUMMY_SIGNATURE
    {
      if authorities[i] in signatureOf {
        signatures := signatures + [signatureOf[authorities[i]]];
        signed := signed + [true];
      } else {
        signatures := signatures + [DUMMY_SIGNATURE];
        signed := signed + [false];
      }
    }
    var s := StoredJustification(message, authorities, signatures, signed, |authorities|);
    forall i | 0 <= i < |authorities|
      ensures AlignedAt(authorities, validators, s, i)
    {
    }
    if DistinctKeys(authorities) {
      StoredQuorumExact(authorities, validators, s);
    }
    r := Some(s);
  }

  // ----- padding

  /** The keys as the circuit takes them; None stands for the panic on a key of another length. */
  function LoadKeys(pubkeys: seq<Bytes>): (r: Option<seq<Bytes32>>)
    ensures r.Some? <==> forall i | 0 <= i < |pubkeys| :: |pubkeys[i]| == 32
    ensures r.Some? ==> r.value == pubkeys
  {
    if forall i | 0 <= i < |pubkeys| :: |pubkeys[i]| == 32 then Some(pubkeys) else None
  }

  /** `get_justification_from_block` on loaded data: None stands for the panics (too little
      weight, lists shorter than the number of authorities, a key or signature of another
      length), for a message the hint refuses by its length, and for arrays that would not fit the
      circuit. */
  method PadJustification(s: StoredJustification) returns (r: Option<Justification>)
    ensures r.Some? <==> && |s.message| == ENCODED_PRECOMMIT_LENGTH
                         && CountTrue(s.signed) * 3 >= s.numAuthorities * 2
                         && s.numAuthorities <= MAX_AUTHORITY_SET_SIZE
                         && s.numAuthorities <= |s.pubkeys| && s.numAuthorities <= |s.signatures|
                         && s.numAuthorities <= |s.signed|
                         && (forall i | 0 <= i < |s.pubkeys| :: |s.pubkeys[i]| == 32)
                         && (forall i | 0 <= i < s.numAuthorities :: |s.signatures[i]| == SIGNATURE_LENGTH)
    ensures r.Some? ==> var j, n := r.value, s.numAuthorities;
              && j.precommit == s.message && j.numAuthorities == n && NoPaddingSigned(j)
              && j.pubkeys[..n] == s.pubkeys[..n] && j.signatures[..n] == s.signatures[..n]
              && j.signed[..n] == s.signed[..n]
              && forall k | n <= k < MAX_AUTHORITY_SET_SIZE ::
                   j.pubkeys[k] == DUMMY_PUBLIC_KEY && j.signatures[k] == DUMMY_SIGNATURE
  {
    var n := s.numAuthorities;
    var keys := LoadKeys(s.pubkeys);
    if keys.None? {
      return None;
    }
    var weight := 0;
    for i := 0 to |s.signed|
      invariant weight == CountTrue(s.signed[..i])
    {
      assert s.signed[..i + 1][..i] == s.signed[..i];
      weight := weight + if s.signed[i] then 1 else 0;
    }
    assert s.signed[..|s.signed|] == s.signed;
    if |s.message| != ENCODED_PRECOMMIT_LENGTH || weight * 3 < n * 2 || n > |s.pubkeys| || n > |s.signatures|
      || n > |s.signed| || n > MAX_AUTHORITY_SET_SIZE {
      return None;
    }
    if exists i | 0 <= i < n :: |s.signatures[i]| != SIGNATURE_LENGTH {
      return None;
    }
    var pubkeys, signatures, signed := keys.value[..n], s.signatures[..n], s.signed[..n];
    for i := n to MAX_AUTHORITY_SET_SIZE
      invariant |pubkeys| == |signatures| == |signed| == i
      invariant pubkeys[..n] == s.pubkeys[..n] && signatures[..n] == s.signatures[..n] && signed[..n] == s.signed[..n]
      invariant forall k | n <= k < i ::
                  !signed[k] && pubkeys[k] == DUMMY_PUBLIC_KEY && signatures[k] == DUMMY_SIGNATURE
    {
      signed := signed + [false];
      pubkeys := pubkeys + [DUMMY_PUBLIC_KEY];
      signatures := signatures + [DUMMY_SIGNATURE];
    }
    r := Some(JustificationData(s.message, signed, signatures, pubkeys, n));
  }

  // ----- the pipeline

  /** In particular, if the signers are distinct and all of them authorities: then their count,
      which is what the indexer looks at, is the count of voters. */
  lemma {:induction false} StoredHasQuorum(authorities: seq<Bytes32>, validators: seq<Signer>, s: StoredJustification)
    requires |validators| > |authorities| * 2 / 3 && Aligned(authorities, validators, s)
    requires DistinctSigners(validators) && forall v | v in validators :: v.id in authorities
    ensures 3 * CountTrue(s.signed) > 2 * |authorities|
  {
    DistinctCount(validators);
    VotersMarked(authorities, validators, s);
    assert Voters(authorities, validators) == SignerIds(validators);
  }

  /** An input on which they differ: the indexer counts precommits, so one authority's precommit
      received three times is stored for a set of three. */
  lemma {:induction false} RepeatedSignerStored(a: Bytes32, b: Bytes32, d: Bytes32, sig: Signature, message: Bytes)
    requires a != b && a != d
    ensures var authorities, validators := [a, b, d], [Signer(a, sig), Signer(a, sig), Signer(a, sig)];
            var s := StoredJustification(message, authorities, [sig, DUMMY_SIGNATURE, DUMMY_SIGNATURE],
                                         [true, false, false], 3);
            && |validators| > |authorities| * 2 / 3
            && Aligned(authorities, validators, s)
            && !(3 * CountTrue(s.signed) > 2 * |authorities|)
  {
    var validators := [Signer(a, sig), Signer(a, sig), Signer(a, sig)];
    assert Signer(a, sig) in validators && SignedBy(validators, a);
    assert validators[2] == Signer(a, sig) && LastFrom(validators, Signer(a, sig));
    assert CountTrue([true, false, false]) == CountTrue([true, false, false][..2]) == CountTrue([true, false]);
    assert [true, false, false][..2] == [true, false] && [true, false][..1] == [true] && [true][..0] == [];
    assert CountTrue([true, false]) == CountTrue([true]) == 1;
  }

  /** The circuit's threshold on a padded justification is the quorum of the stored one. */
  lemma {:induction false} ThresholdAfterPadding(s: StoredJustification, j: Justification)
    requires s.numAuthorities == |s.signed| == j.numAuthorities <= MAX_AUTHORITY_SET_SIZE
    requires NoPaddingSigned(j) && j.signed[..j.numAuthorities] == s.signed
    ensures Mul32(CountTrue(j.signed), 3) > Mul32(j.numAuthorities, 2) <==>
              3 * CountTrue(s.signed) > 2 * s.numAuthorities
  {
    hide CountTrue, NoPaddingSigned;
    AuthoritiesSigned(j);
  }

  /** The off-chain weight check lets exactly two thirds through, the circuit does not: the two
      disagree exactly there. */
  lemma {:induction false} WeightCheckGap(s: StoredJustification, j: Justification)
    requires s.numAuthorities == |s.signed| == j.numAuthorities <= MAX_AUTHORITY_SET_SIZE
    requires NoPaddingSigned(j) && j.signed[..j.numAuthorities] == s.signed
    requires CountTrue(s.signed) * 3 >= s.numAuthorities * 2
    ensures !(Mul32(CountTrue(j.signed), 3) > Mul32(j.numAuthorities, 2)) <==>
              CountTrue(s.signed) * 3 == s.numAuthorities * 2
  {
    ThresholdAfterPadding(s, j);
  }

  /** An input on which they disagree: two of three authorities. */
  lemma {:induction false} TwoThirdsPad(c: Crypto, s: StoredJustification, j: Justification)
    requires s.signed == [true, true, false] && s.numAuthorities == j.numAuthorities == 3
    requires NoPaddingSigned(j) && j.signed[..3] == s.signed
    ensures CountTrue(s.signed) * 3 >= s.numAuthorities * 2
    ensures !(Mul32(CountTrue(j.signed), 3) > Mul32(j.numAuthorities, 2))
  {
    assert [true, true, false][..2] == [true, true] && [true, true][..1] == [true] && [true][..0] == [];
    assert CountTrue([true, true]) == CountTrue([true]) + 1 == 2;
    WeightCheckGap(s, j);
  }

  /** Where the signatures stand in the padded justification. */
  ghost predicate PaddedAligned(authorities: seq<Bytes32>, validators: seq<Signer>, j: Justification)
    requires |authorities| <= MAX_AUTHORITY_SET_SIZE
  {
    && CommittedKeys(j) == authorities && j.numAuthorities == |authorities| && NoPaddingSigned(j)
    && forall i | 0 <= i < |authorities| ::
         && (j.signed[i] <==> SignedBy(validators, authorities[i]))
         && |j.signatures[i]| == SIGNATURE_LENGTH
         && (j.signed[i] ==> LastFrom(validators, Signer(authorities[i], j.signatures[i])))
  }

  lemma {:induction false} PaddingKeepsAlignment(authorities: seq<Bytes32>, validators: seq<Signer>,
                                                 s: StoredJustification, j: Justification)
    requires |authorities| <= MAX_AUTHORITY_SET_SIZE && Aligned(authorities, validators, s)
    requires j.numAuthorities == |authorities| && NoPaddingSigned(j)
    requires var n := |authorities|;
             j.pubkeys[..n] == s.pubkeys[..n] && j.signatures[..n] == s.signatures[..n]
               && j.signed[..n] == s.signed[..n]
    ensures PaddedAligned(authorities, validators, j)
  {
    var n := |authorities|;
    forall i | 0 <= i < n
      ensures && (j.signed[i] <==> SignedBy(validators, authorities[i]))
              && |j.signatures[i]| == SIGNATURE_LENGTH
              && (j.signed[i] ==> LastFrom(validators, Signer(authorities[i], j.signatures[i])))
    {
      assert AlignedAt(authorities, validators, s, i);
      assert j.signed[i] == j.signed[..n][i] == s.signed[i];
      assert j.signatures[i] == j.signatures[..n][i] == s.signatures[i];
    }
    assert CommittedKeys(j) == s.pubkeys;
  }

  /** The whole pipeline from signers to the circuit, for distinct authorities: a padded
      justification comes out exactly when enough precommits were received and the voters among them
      are at least two thirds; every key and signature is at its authority's position; and the
      circuit's threshold passes exactly when the voters are more than two thirds. If all signers
      are distinct authorities, the count of precommits decides alone. */
  method IndexAndPad(authorities: seq<Bytes32>, validators: seq<Signer>, message: Bytes)
    returns (r: Option<Justification>)
    requires |authorities| <= MAX_AUTHORITY_SET_SIZE
    ensures DistinctKeys(authorities) ==>
              (r.Some? <==> && |validators| > |authorities| * 2 / 3 && |message| == ENCODED_PRECOMMIT_LENGTH
                            && 3 * |Voters(authorities, validators)| >= 2 * |authorities|)
    ensures r.Some? ==> PaddedAligned(authorities, validators, r.value) && r.value.precommit == message
    ensures r.Some? && DistinctKeys(authorities) ==>
              (Mul32(CountTrue(r.value.signed), 3) > Mul32(r.value.numAuthorities, 2)
               <==> 3 * |Voters(authorities, validators)| > 2 * |authorities|)
    ensures DistinctSigners(validators) && (forall v | v in validators :: v.id in authorities) ==>
              && (r.Some? <==> |validators| > |authorities| * 2 / 3 && |message| == ENCODED_PRECOMMIT_LENGTH)
              && (r.Some? ==> Mul32(CountTrue(r.value.signed), 3) > Mul32(r.value.numAuthorities, 2))
  {
    hide CountTrue, Voters, DistinctKeys, DistinctSigners, AlignedAt, PaddedAligned, NoPaddingSigned;
    r := None;
    var stored := StoreJustification(authorities, validators, message);
    if stored.Some? {
      var s := stored.value;
      SignaturesFit(authorities, validators, s);
      VotersMarked(authorities, validators, s);
      if DistinctSigners(validators) && forall v | v in validators :: v.id in authorities {
        StoredHasQuorum(authorities, validators, s);
      }
      r := PadJustification(s);
      if r.Some? {
        var j := r.value;
        assert j.signed[..|authorities|] == s.signed[..|authorities|] == s.signed;
        ThresholdAfterPadding(s, j);
        PaddingKeepsAlignment(authorities, validators, s, j);
      }
    }
  }

  lemma {:induction false} SignaturesFit(authorities: seq<Bytes32>, validators: seq<Signer>, s: StoredJustification)
    requires Aligned(authorities, validators, s)
    ensures forall i | 0 <= i < |authorities| :: |s.pubkeys[i]| == 32 && |s.signatures[i]| == SIGNATURE_LENGTH == 64
  {
    forall i | 0 <= i < |authorities|
      ensures |s.pubkeys[i]| == 32 && |s.signatures[i]| == SIGNATURE_LENGTH
    {
      assert AlignedAt(authorities, validators, s, i);
    }
  }
}
