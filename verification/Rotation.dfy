/** Authority set rotation: the circuit's byte-level check of an epoch-end header and the
    commitment it hands over (circuits/builder/rotate.rs). */
module Rotation {
  import opened Basics
  import opened Compact
  import opened Headers
  import opened Authorities
  import opened AuthorityLists
  import opened Justifications

  const BASE_PREFIX_LENGTH: nat := 9
  const MAX_PREFIX_LENGTH: nat := 14
  const DELAY_LENGTH: nat := 4
  const FRNK: EngineId := [70, 82, 78, 75]
  const SCHEDULED_CHANGE: Byte := 1

  // ----- the circuit's check

  /** `verify_prefix_epoch_end_header`. One byte before the log and two bytes after the engine
      id are skipped. */
  predicate PrefixValid(prefix: Bytes)
    requires |prefix| == MAX_PREFIX_LENGTH
  {
    prefix[1] == CONSENSUS_FLAG && prefix[2..6] == FRNK && prefix[8] == SCHEDULED_CHANGE
  }

  /** `get_new_authority_set_size_encoded_byte_length`; None when an assertion fails. */
  function SizeByteLength(prefix: Bytes, expected: nat): Option<nat>
    requires |prefix| == MAX_PREFIX_LENGTH
  {
    var size := DecodeCompactInt(prefix[BASE_PREFIX_LENGTH..MAX_PREFIX_LENGTH]);
    DecodedValue(prefix[BASE_PREFIX_LENGTH..MAX_PREFIX_LENGTH]);
    if size.None? || size.value.value != expected then None else Some(ModeLength(size.value.mode))
  }

  /** When `verify_epoch_end_header` passes: the prefix is valid, it states n authorities, and
      after it come the first n keys (as many as the array has), each with weight one, and, if
      the array holds all n, a delay of zero. */
  ghost predicate EpochEndAccepted(bytes: Bytes, n: nat, start: nat, keys: seq<Bytes32>) {
    && n != 0
    && start + MAX_PREFIX_LENGTH <= |bytes|
    && var prefix := bytes[start..start + MAX_PREFIX_LENGTH];
    && PrefixValid(prefix)
    && SizeByteLength(prefix, n).Some?
    && ListAccepted(bytes, n, start + BASE_PREFIX_LENGTH + SizeByteLength(prefix, n).value, keys)
  }

  ghost predicate ListAccepted(bytes: Bytes, n: nat, at: nat, keys: seq<Bytes32>) {
    && at + VALIDATOR_LENGTH * |keys| + DELAY_LENGTH <= |bytes|
    && (forall i | 0 <= i < Min(n, |keys|) :: RecordAt(bytes, at + 40 * i, keys[i]))
    && (n <= |keys| ==> bytes[at + 40 * n..at + 40 * n + DELAY_LENGTH] == Zeros(DELAY_LENGTH))
  }

  /** `verify_epoch_end_header`; the array length |newPubkeys| is the largest authority set. */
  method VerifyEpochEndHeader(bytes: Bytes, n: nat, start: nat, newPubkeys: seq<Bytes32>) returns (ok: bool)
    ensures ok <==> EpochEndAccepted(bytes, n, start, newPubkeys)
  {
    if n == 0 {
      return false;
    }
    var prefix := FixedSubarray(bytes, start, MAX_PREFIX_LENGTH);
    if prefix.None? || !PrefixValid(prefix.value) {
      return false;
    }
    var sizeLength := SizeByteLength(prefix.value, n);
    if sizeLength.None? {
      return false;
    }
    ok := VerifyList(bytes, n, start + BASE_PREFIX_LENGTH + sizeLength.value, newPubkeys);
  }

  /** The loop over the validators, on the subarray that starts at the list. */
  method VerifyList(bytes: Bytes, n: nat, at: nat, newPubkeys: seq<Bytes32>) returns (ok: bool)
    requires n != 0
    ensures ok <==> ListAccepted(bytes, n, at, newPubkeys)
  {
    var subarray := FixedSubarray(bytes, at, VALIDATOR_LENGTH * |newPubkeys| + DELAY_LENGTH);
    if subarray.None? {
      return false;
    }
    var sub := subarray.value;
    var disabled := false;
    ok := true;
    for i := 0 to |newPubkeys|
      invariant disabled <==> n <= i
      invariant ok <==> && (forall k | 0 <= k < Min(n, i) :: RecordAt(bytes, at + 40 * k, newPubkeys[k]))
                        && (n <= i ==> bytes[at + 40 * n..at + 40 * n + DELAY_LENGTH] == Zeros(DELAY_LENGTH))
    {
      var idx := 40 * i;
      SameRecord(bytes, at, sub, idx, newPubkeys[i]);
      var pubkeyOk := sub[idx..idx + 32] == newPubkeys[i] || disabled;
      var weightOk := sub[idx + 32..idx + 40] == WEIGHT_ONE || disabled;
      var atEnd := i + 1 == n;
      disabled := if atEnd then true else disabled;
      SliceOfSlice(bytes, at, at + |sub|, idx + 40, idx + 44);
      var delayOk := sub[idx + 40..idx + 40 + DELAY_LENGTH] == Zeros(DELAY_LENGTH) || !atEnd;
      ok := ok && pubkeyOk && weightOk && delayOk;
    }
  }

  lemma {:induction false} SameRecord(bytes: Bytes, at: nat, sub: Bytes, idx: nat, key: Bytes32)
    requires at + |sub| <= |bytes| && sub == bytes[at..at + |sub|] && idx + 40 <= |sub|
    ensures RecordAt(bytes, at + idx, key) <==> sub[idx..idx + 32] == key && sub[idx + 32..idx + 40] == WEIGHT_ONE
  {
    SliceOfSlice(bytes, at, at + |sub|, idx, idx + 32);
    SliceOfSlice(bytes, at, at + |sub|, idx + 32, idx + 40);
  }

  /** Where the authority list starts: after the prefix and the compact number of authorities. */
  ghost function ListStart(bytes: Bytes, start: nat): nat
    requires start + MAX_PREFIX_LENGTH <= |bytes|
  {
    var size := DecodeCompactInt(bytes[start + BASE_PREFIX_LENGTH..start + MAX_PREFIX_LENGTH]);
    DecodedValue(bytes[start + BASE_PREFIX_LENGTH..start + MAX_PREFIX_LENGTH]);
    start + BASE_PREFIX_LENGTH + if size.None? then 0 else ModeLength(size.value.mode)
  }

  /** The bytes at a position are an authority list followed by a delay of zero. */
  ghost predicate ListsAuthorities(bytes: Bytes, at: nat, keys: seq<Bytes32>) {
    && at + 40 * |keys| + 4 <= |bytes|
    && bytes[at..at + 40 * |keys| + 4] == EncodeAuthorities(keys) + [0, 0, 0, 0]
  }

  /** What the flag and the engine id, the kind of change and the number say. */
  ghost predicate HeadAt(bytes: Bytes, start: nat, n: nat) {
    && start + MAX_PREFIX_LENGTH <= |bytes|
    && bytes[start + 1] == CONSENSUS_FLAG && bytes[start + 2..start + 6] == FRNK
    && bytes[start + 8] == SCHEDULED_CHANGE
    && var size := DecodeCompactInt(bytes[start + 9..start + 14]);
    && size.Some? && size.value.value == n
  }

  /** At a position of the bytes there is a FRNK scheduled change of exactly these keys, each with
      weight one, without delay. */
  ghost predicate ChangeAt(bytes: Bytes, start: nat, keys: seq<Bytes32>) {
    HeadAt(bytes, start, |keys|) && ListsAuthorities(bytes, ListStart(bytes, start), keys)
  }

  lemma {:induction false} HeadExact(bytes: Bytes, start: nat, n: nat)
    requires start + MAX_PREFIX_LENGTH <= |bytes|
    ensures var prefix := bytes[start..start + MAX_PREFIX_LENGTH];
            && (PrefixValid(prefix) && SizeByteLength(prefix, n).Some? <==> HeadAt(bytes, start, n))
            && (SizeByteLength(prefix, n).Some? ==>
                  start + BASE_PREFIX_LENGTH + SizeByteLength(prefix, n).value == ListStart(bytes, start))
  {
    hide DecodeCompactInt;
    SliceOfSlice(bytes, start, start + MAX_PREFIX_LENGTH, 9, 14);
    SliceOfSlice(bytes, start, start + MAX_PREFIX_LENGTH, 2, 6);
  }

  /** An encoded list, followed by a delay of zero, read off record by record. */
  lemma {:induction false} ListRecords(bytes: Bytes, at: nat, keys: seq<Bytes32>)
    requires at + 40 * |keys| + 4 <= |bytes|
    requires bytes[at..at + 40 * |keys| + 4] == EncodeAuthorities(keys) + Zeros(DELAY_LENGTH)
    ensures forall i | 0 <= i < |keys| :: RecordAt(bytes, at + 40 * i, keys[i])
    ensures bytes[at + 40 * |keys|..at + 40 * |keys| + DELAY_LENGTH] == Zeros(DELAY_LENGTH)
  {
    hide EncodeAuthorities, RecordAt;
    var n := |keys|;
    SliceOfSlice(bytes, at, at + 40 * n + 4, 0, 40 * n);
    SliceOfSlice(bytes, at, at + 40 * n + 4, 40 * n, 40 * n + 4);
    assert bytes[at..at + 40 * n] == EncodeAuthorities(keys);
    forall i | 0 <= i < n
      ensures RecordAt(bytes, at + 40 * i, keys[i])
    {
      ListRecord(bytes, at, keys, i);
    }
  }

  /** The loop's checks say that the list is encoded at the position, with its delay. */
  lemma {:induction false} ListExact(bytes: Bytes, n: nat, at: nat, keys: seq<Bytes32>)
    requires n <= |keys|
    ensures ListAccepted(bytes, n, at, keys) <==>
            at + VALIDATOR_LENGTH * |keys| + DELAY_LENGTH <= |bytes| && ListsAuthorities(bytes, at, keys[..n])
  {
    if ListAccepted(bytes, n, at, keys) {
      EncodingOfRecords(bytes, at, keys[..n]);
      assert bytes[at..at + 40 * n + 4] == bytes[at..at + 40 * n] + bytes[at + 40 * n..at + 40 * n + 4];
    }
    if at + VALIDATOR_LENGTH * |keys| + DELAY_LENGTH <= |bytes| && ListsAuthorities(bytes, at, keys[..n]) {
      ListRecords(bytes, at, keys[..n]);
      hide EncodeAuthorities, RecordAt;
      assert forall i | 0 <= i < n :: keys[..n][i] == keys[i];
    }
  }

  /** Soundness: for a set that fits the array, the header array holds a scheduled change of
      exactly these keys at the start position. And conversely, given that the windows fit. */
  lemma {:induction false} EpochEndExact(bytes: Bytes, n: nat, start: nat, keys: seq<Bytes32>)
    requires n <= |keys|
    ensures EpochEndAccepted(bytes, n, start, keys) <==>
            && n != 0 && ChangeAt(bytes, start, keys[..n])
            && ListStart(bytes, start) + VALIDATOR_LENGTH * |keys| + DELAY_LENGTH <= |bytes|
  {
    if start + MAX_PREFIX_LENGTH <= |bytes| {
      HeadExact(bytes, start, n);
      hide HeadAt, PrefixValid, SizeByteLength, ListAccepted, ListsAuthorities, ListStart;
      ListExact(bytes, n, ListStart(bytes, start), keys);
    }
  }

  /** For a number beyond the array, only the keys of the array are checked. */
  lemma {:induction false} LargeSetAccepted(bytes: Bytes, n: nat, start: nat, keys: seq<Bytes32>)
    requires n > |keys|
    ensures EpochEndAccepted(bytes, n, start, keys) <==>
            && HeadAt(bytes, start, n)
            && ListStart(bytes, start) + VALIDATOR_LENGTH * |keys| + DELAY_LENGTH <= |bytes|
            && bytes[ListStart(bytes, start)..ListStart(bytes, start) + 40 * |keys|] == EncodeAuthorities(keys)
  {
    if start + MAX_PREFIX_LENGTH <= |bytes| {
      HeadExact(bytes, start, n);
      hide HeadAt, PrefixValid, SizeByteLength, ListStart, ListAccepted, EncodeAuthorities;
      FirstRecords(bytes, n, ListStart(bytes, start), keys);
    }
  }

  lemma {:induction false} FirstRecords(bytes: Bytes, n: nat, at: nat, keys: seq<Bytes32>)
    requires n > |keys|
    ensures ListAccepted(bytes, n, at, keys) <==>
            && at + VALIDATOR_LENGTH * |keys| + DELAY_LENGTH <= |bytes|
            && bytes[at..at + 40 * |keys|] == EncodeAuthorities(keys)
  {
    hide RecordAt, EncodeAuthorities;
    if at + VALIDATOR_LENGTH * |keys| + DELAY_LENGTH <= |bytes| {
      if forall i | 0 <= i < |keys| :: RecordAt(bytes, at + 40 * i, keys[i]) {
        EncodingOfRecords(bytes, at, keys);
      }
      if bytes[at..at + 40 * |keys|] == EncodeAuthorities(keys) {
        forall i | 0 <= i < |keys|
          ensures RecordAt(bytes, at + 40 * i, keys[i])
        {
          ListRecord(bytes, at, keys, i);
        }
      }
    }
  }

  /** So what is committed to is the change in the header array if and only if the number of authorities
      fits the array of keys. */
  lemma {:induction false} ChangeIffNumberFits(bytes: Bytes, n: nat, start: nat, keys: seq<Bytes32>)
    requires EpochEndAccepted(bytes, n, start, keys)
    ensures ChangeAt(bytes, start, keys[..Min(n, |keys|)]) <==> n <= |keys|
  {
    if n <= |keys| {
      EpochEndExact(bytes, n, start, keys);
    } else {
      LargeSetAccepted(bytes, n, start, keys);
      hide EpochEndAccepted, ListsAuthorities, ListStart;
      assert keys[..|keys|] == keys;
    }
  }

  /** A change is accepted with any array of keys that agrees with it as far as both go. */
  lemma {:induction false} ChangeAccepted(bytes: Bytes, start: nat, all: seq<Bytes32>, keys: seq<Bytes32>)
    requires ChangeAt(bytes, start, all) && all != []
    requires keys[..Min(|all|, |keys|)] == all[..Min(|all|, |keys|)]
    requires ListStart(bytes, start) + VALIDATOR_LENGTH * |keys| + DELAY_LENGTH <= |bytes|
    ensures EpochEndAccepted(bytes, |all|, start, keys)
  {
    if |all| <= |keys| {
      EpochEndExact(bytes, |all|, start, keys);
      hide EpochEndAccepted, ListsAuthorities, HeadAt, ListStart;
      assert all[..|all|] == all;
    } else {
      var at := ListStart(bytes, start);
      FirstListed(bytes, at, all, keys);
      LargeSetAccepted(bytes, |all|, start, keys);
    }
  }

  lemma {:induction false} FirstListed(bytes: Bytes, at: nat, all: seq<Bytes32>, keys: seq<Bytes32>)
    requires ListsAuthorities(bytes, at, all) && |keys| < |all| && keys[..|keys|] == all[..|keys|]
    ensures bytes[at..at + 40 * |keys|] == EncodeAuthorities(keys)
  {
    ListRecords(bytes, at, all);
    hide EncodeAuthorities, RecordAt;
    forall i | 0 <= i < |keys|
      ensures RecordAt(bytes, at + 40 * i, keys[i])
    {
      assert keys[i] == keys[..|keys|][i] == all[..|keys|][i] == all[i];
    }
    EncodingOfRecords(bytes, at, keys);
  }

  /** The check in bytes: the flag, the engine id FRNK and the kind of change at their places behind the
      start, the compact number n, then the keys as far as both go, each with a one and seven zeros,
      and, if the array holds all n, four zeros. */
  lemma {:induction false} AcceptedInBytes(bytes: Bytes, n: nat, start: nat, keys: seq<Bytes32>)
    ensures EpochEndAccepted(bytes, n, start, keys) <==>
              && n != 0 && start + 14 <= |bytes|
              && bytes[start + 1] == 4 && bytes[start + 2..start + 6] == [70, 82, 78, 75] && bytes[start + 8] == 1
              && var number := DecodeCompactInt(bytes[start + 9..start + 14]);
              && number.Some? && number.value.value == n
              && var at := start + 9 + NumberLength(bytes[start + 9]);
              && at + 40 * |keys| + 4 <= |bytes|
              && (forall i | 0 <= i < Min(n, |keys|) :: RecordAt(bytes, at + 40 * i, keys[i]))
              && (n <= |keys| ==> bytes[at + 40 * n..at + 40 * n + 4] == [0, 0, 0, 0])
  {
    if start + 14 <= |bytes| {
      HeadExact(bytes, start, n);
      StartInBytes(bytes, start);
      assert Zeros(4) == [0, 0, 0, 0];
      hide PrefixValid, SizeByteLength, RecordAt, ListStart, DecodeCompactInt, NumberLength;
    }
  }

  lemma {:induction false} StartInBytes(bytes: Bytes, start: nat)
    requires start + 14 <= |bytes|
    ensures DecodeCompactInt(bytes[start + 9..start + 14]).Some? ==>
              ListStart(bytes, start) == start + 9 + NumberLength(bytes[start + 9])
  {
    var b := bytes[start + 9..start + 14];
    DecodedValue(b);
    assert b[0] == bytes[start + 9];
    hide DecodeCompactInt;
  }

  // ----- the hashed content

  /** Where a change of n keys at `start` ends. */
  ghost function ChangeEnd(bytes: Bytes, start: nat, n: nat): nat
    requires start + MAX_PREFIX_LENGTH <= |bytes|
  {
    ListStart(bytes, start) + 40 * n + 4
  }

  /** A change depends on no byte from its end on. */
  lemma {:induction false} ChangeInPrefix(a: Bytes, b: Bytes, start: nat, keys: seq<Bytes32>)
    requires ChangeAt(a, start, keys) && keys != []
    requires var end := ChangeEnd(a, start, |keys|); end <= |b| && a[..end] == b[..end]
    ensures start + MAX_PREFIX_LENGTH <= |b| && ListStart(a, start) == ListStart(b, start)
    ensures ChangeAt(b, start, keys)
  {
    hide DecodeCompactInt, EncodeAuthorities;
    var end, at := ChangeEnd(a, start, |keys|), ListStart(a, start);
    SamePart(a, b, end, start + 2, start + 6);
    SamePart(a, b, end, start + 9, start + 14);
    SamePart(a, b, end, at, at + 40 * |keys| + 4);
    assert a[start + 1] == a[..end][start + 1] && a[start + 8] == a[..end][start + 8];
    assert b[start + 1] == b[..end][start + 1] && b[start + 8] == b[..end][start + 8];
  }

  lemma {:induction false} SamePart(a: Bytes, b: Bytes, end: nat, lo: nat, hi: nat)
    requires lo <= hi <= end <= |a| && end <= |b| && a[..end] == b[..end]
    ensures a[lo..hi] == b[lo..hi]
  {
    SliceOfSlice(a, 0, end, lo, hi);
    SliceOfSlice(b, 0, end, lo, hi);
  }

  /** What is committed to is a change in the hashed content if and only if the number fits the array
      and the change ends within the size. */
  lemma {:induction false} ChangeInContent(e: EncodedHeader, n: nat, start: nat, keys: seq<Bytes32>)
    requires EpochEndAccepted(e.bytes, n, start, keys) && e.size <= MAX_HEADER_SIZE
    ensures start + MAX_PREFIX_LENGTH <= MAX_HEADER_SIZE
    ensures ChangeAt(Content(e), start, keys[..Min(n, |keys|)]) <==>
              n <= |keys| && ChangeEnd(e.bytes, start, n) <= e.size
  {
    var few := keys[..Min(n, |keys|)];
    ChangeIffNumberFits(e.bytes, n, start, keys);
    AcceptedHead(e.bytes, n, start, keys);
    hide EpochEndAccepted, ListsAuthorities;
    if ChangeAt(Content(e), start, few) {
      SamePart(Content(e), e.bytes, e.size, start + 9, start + 14);
    }
    if n <= |keys| && ChangeEnd(e.bytes, start, n) <= e.size {
      assert e.bytes[..ChangeEnd(e.bytes, start, n)] == Content(e)[..ChangeEnd(e.bytes, start, n)];
      ChangeInPrefix(e.bytes, Content(e), start, few);
    }
  }

  lemma {:induction false} AcceptedHead(bytes: Bytes, n: nat, start: nat, keys: seq<Bytes32>)
    requires EpochEndAccepted(bytes, n, start, keys)
    ensures n != 0 && HeadAt(bytes, start, n)
  {
    HeadExact(bytes, start, n);
    hide HeadAt, PrefixValid, SizeByteLength, ListAccepted;
  }

  /** The content announces the keys: every key and the first byte of every weight lie in it, and what
      is missing of the change at its end are zero bytes. */
  ghost predicate ContentAnnounces(content: Bytes, start: nat, keys: seq<Bytes32>) {
    keys != [] && ChangeAt(content + Zeros(11), start, keys)
  }

  /** With zero padding, what is committed to is announced by the hashed content if and only if the
      number fits the array. */
  lemma {:induction false} PaddedContentAnnounces(e: EncodedHeader, n: nat, start: nat, keys: seq<Bytes32>)
    requires EpochEndAccepted(e.bytes, n, start, keys) && keys != [] && e.size <= MAX_HEADER_SIZE && ZeroPadded(e)
    ensures ContentAnnounces(Content(e), start, keys[..Min(n, |keys|)]) <==> n <= |keys|
  {
    var few, padded := keys[..Min(n, |keys|)], Content(e) + Zeros(11);
    LastKeyInContent(e, n, start, keys);
    ChangeIffNumberFits(e.bytes, n, start, keys);
    AcceptedHead(e.bytes, n, start, keys);
    var end := ChangeEnd(e.bytes, start, |few|);
    assert e.bytes[..end] == padded[..end];
    hide EpochEndAccepted, ZeroPadded, ListsAuthorities, DecodeCompactInt;
    if n <= |keys| {
      ChangeInPrefix(e.bytes, padded, start, few);
    } else if ChangeAt(padded, start, few) {
      EarlyList(e.bytes, start);
      SamePart(padded, e.bytes, end, start + 9, start + 14);
    }
  }

  /** The list does not start before the prefix's fixed part ends. */
  lemma {:induction false} EarlyList(bytes: Bytes, start: nat)
    requires start + MAX_PREFIX_LENGTH <= |bytes|
    ensures start + BASE_PREFIX_LENGTH <= ListStart(bytes, start) <= start + MAX_PREFIX_LENGTH
  {
    hide DecodeCompactInt;
    DecodedValue(bytes[start + 9..start + 14]);
  }

  /** The first byte of the last weight is one, so it is not padding. */
  lemma {:induction false} LastKeyInContent(e: EncodedHeader, n: nat, start: nat, keys: seq<Bytes32>)
    requires EpochEndAccepted(e.bytes, n, start, keys) && keys != [] && ZeroPadded(e)
    ensures start + MAX_PREFIX_LENGTH <= MAX_HEADER_SIZE
    ensures ChangeEnd(e.bytes, start, Min(n, |keys|)) <= e.size + 11
    ensures ChangeEnd(e.bytes, start, Min(n, |keys|)) <= MAX_HEADER_SIZE
  {
    hide DecodeCompactInt, PrefixValid, ZeroPadded;
    SliceOfSlice(e.bytes, start, start + MAX_PREFIX_LENGTH, 9, 14);
    var last := Min(n, |keys|) - 1;
    var at := ListStart(e.bytes, start) + 40 * last;
    assert RecordAt(e.bytes, at, keys[last]);
    hide ListStart, ListAccepted, EpochEndAccepted;
    WeightIsContent(e, at, keys[last]);
  }

  lemma {:induction false} WeightIsContent(e: EncodedHeader, at: nat, key: Bytes32)
    requires ZeroPadded(e) && RecordAt(e.bytes, at, key)
    ensures at + 33 <= e.size
  {
    assert e.bytes[at + 32] == e.bytes[at + 32..at + 40][0] == 1;
  }

  /** Each key announced is read off the content itself. */
  lemma {:induction false} AnnouncedKeys(content: Bytes, start: nat, keys: seq<Bytes32>, i: nat)
    requires ContentAnnounces(content, start, keys) && i < |keys|
    ensures var at := ListStart(content + Zeros(11), start) + 40 * i;
            at + 33 <= |content| && content[at..at + 32] == keys[i]
  {
    var padded := content + Zeros(11);
    hide DecodeCompactInt, EncodeAuthorities;
    var at := ListStart(padded, start) + 40 * i;
    ListedKey(padded, ListStart(padded, start), keys, i);
    hide *;
    SliceOfSlice(padded, 0, |content|, at, at + 32);
    assert padded[0..|content|] == content;
  }

  lemma {:induction false} ListedKey(bytes: Bytes, at: nat, keys: seq<Bytes32>, i: nat)
    requires ListsAuthorities(bytes, at, keys) && i < |keys|
    ensures bytes[at + 40 * i..at + 40 * i + 32] == keys[i]
  {
    var e := EncodeAuthorities(keys);
    RecordsOfEncoding(keys, i);
    hide EncodeAuthorities;
    SliceOfSlice(bytes, at, at + 40 * |keys| + 4, 40 * i, 40 * i + 32);
    assert (e + [0, 0, 0, 0])[40 * i..40 * i + 32] == e[40 * i..40 * i + 32];
  }

  // ----- the circuit

  /** The untrusted witness of a rotation. */
  datatype RotateData = RotateData(
    epochEndBlock: U32, header: EncodedHeader, numAuthorities: nat, startPosition: nat, newPubkeys: seq<Bytes32>)
  type RotateWitness = w: RotateData | |w.newPubkeys| == MAX_AUTHORITY_SET_SIZE
    witness RotateData(0, EMPTY_HEADER, 0, 0, seq(MAX_AUTHORITY_SET_SIZE, _ => ZERO32))

  ghost function RotateResult(c: Crypto, setId: U64, setHash: Bytes32, w: RotateWitness,
                              j: Justification): Option<Bytes32> {
    if && w.header.size <= MAX_HEADER_SIZE
       && Justified(c, w.epochEndBlock, c.blake2b(Content(w.header)), setId, setHash, j)
       && EpochEndAccepted(w.header.bytes, w.numAuthorities, w.startPosition, w.newPubkeys)
    then Some(AuthoritySetHash(c, w.newPubkeys[..Min(w.numAuthorities, MAX_AUTHORITY_SET_SIZE)]))
    else None
  }

  /** `rotate`: the commitment of the new authority set, None when an assertion fails. */
  method Rotate(c: Crypto, setId: U64, setHash: Bytes32, w: RotateWitness, j: Justification)
    returns (r: Option<Bytes32>)
    ensures r == RotateResult(c, setId, setHash, w, j)
  {
    if w.header.size > MAX_HEADER_SIZE {
      return None;
    }
    var hash := c.blake2b(Content(w.header));
    var justified := VerifySimpleJustification(c, w.epochEndBlock, hash, setId, setHash, j);
    if !justified {
      return None;
    }
    var headerOk := VerifyEpochEndHeader(w.header.bytes, w.numAuthorities, w.startPosition, w.newPubkeys);
    if !headerOk {
      return None;
    }
    r := ComputeAuthoritySetCommitment(c, w.numAuthorities, w.newPubkeys);
  }

  /** Padding does not matter: on one header and one start position, all accepted witnesses give
      the same commitment. */
  lemma {:induction false} RotateDetermined(c: Crypto, setId: U64, setHash: Bytes32, w: RotateWitness, j: Justification,
                                            v: RotateWitness, k: Justification)
    requires RotateResult(c, setId, setHash, w, j).Some? && RotateResult(c, setId, setHash, v, k).Some?
    requires w.header == v.header && w.startPosition == v.startPosition
    ensures w.numAuthorities == v.numAuthorities
    ensures RotateResult(c, setId, setHash, w, j) == RotateResult(c, setId, setHash, v, k)
  {
    hide Justified, AuthoritySetHash, PrefixValid, DecodeCompactInt;
    var bytes, start, n := w.header.bytes, w.startPosition, w.numAuthorities;
    var at := start + 9 + SizeByteLength(bytes[start..start + 14], n).value;
    var m := Min(n, MAX_AUTHORITY_SET_SIZE);
    forall i | 0 <= i < m
      ensures w.newPubkeys[i] == v.newPubkeys[i]
    {
      assert RecordAt(bytes, at + 40 * i, w.newPubkeys[i]) && RecordAt(bytes, at + 40 * i, v.newPubkeys[i]);
    }
    assert w.newPubkeys[..m] == v.newPubkeys[..m];
  }

  /** With zero padding, the header's hash takes the place of the header: two accepted rotations from
      one header hash and start position give the same commitment, or the contents collide. */
  lemma {:induction false} RotateDeterminedByHash(c: Crypto, setId: U64, setHash: Bytes32, w: RotateWitness,
                                                  j: Justification, v: RotateWitness, k: Justification)
    requires RotateResult(c, setId, setHash, w, j).Some? && RotateResult(c, setId, setHash, v, k).Some?
    requires c.blake2b(Content(w.header)) == c.blake2b(Content(v.header)) && w.startPosition == v.startPosition
    requires ZeroPadded(w.header) && ZeroPadded(v.header)
    ensures || HeadersCollide(c, w.header, v.header)
            || RotateResult(c, setId, setHash, w, j) == RotateResult(c, setId, setHash, v, k)
  {
    hide Justified, EpochEndAccepted, AuthoritySetHash;
    if Content(w.header) == Content(v.header) {
      SameContent(w.header, v.header);
      RotateDetermined(c, setId, setHash, w, j, v, k);
    }
  }

  /** The keys that a rotation commits to. */
  function RotatedKeys(w: RotateWitness): seq<Bytes32> {
    w.newPubkeys[..Min(w.numAuthorities, MAX_AUTHORITY_SET_SIZE)]
  }

  /** The header array of a rotation lists the keys, and if it is zero-padded, so does the content
      that was hashed. */
  ghost predicate Announced(w: RotateWitness, keys: seq<Bytes32>) {
    && ChangeAt(w.header.bytes, w.startPosition, keys)
    && (w.header.size <= MAX_HEADER_SIZE && ZeroPadded(w.header) ==>
        ContentAnnounces(Content(w.header), w.startPosition, keys))
  }

  /** A rotation announces the keys it commits to if and only if their number fits the array. */
  lemma {:induction false} RotationAnnounces(c: Crypto, setId: U64, setHash: Bytes32, w: RotateWitness,
                                             j: Justification)
    requires RotateResult(c, setId, setHash, w, j).Some?
    ensures RotatedKeys(w) != [] && RotateResult(c, setId, setHash, w, j).value == AuthoritySetHash(c, RotatedKeys(w))
    ensures Announced(w, RotatedKeys(w)) <==> w.numAuthorities <= MAX_AUTHORITY_SET_SIZE
  {
    ChangeIffNumberFits(w.header.bytes, w.numAuthorities, w.startPosition, w.newPubkeys);
    if w.numAuthorities <= MAX_AUTHORITY_SET_SIZE && ZeroPadded(w.header) {
      PaddedContentAnnounces(w.header, w.numAuthorities, w.startPosition, w.newPubkeys);
    }
    hide Justified, ChangeAt, ContentAnnounces, ZeroPadded, AuthoritySetHash;
  }

  /** Binding across steps: if set id is rotated to a new commitment and a justification is later
      accepted under that commitment, then the keys it was checked against are the ones rotated in,
      or two inputs hashed for the commitments collide; and they are announced in the
      epoch-end header if and only if their number fits the array. */
  lemma {:induction false} HandoverBinds(c: Crypto, setId: U64, setHash: Bytes32, w: RotateWitness, j: Justification,
                                         newHash: Bytes32, block: U32, hash: Bytes32, newId: U64, k: Justification)
    requires RotateResult(c, setId, setHash, w, j) == Some(newHash)
    requires Justified(c, block, hash, newId, newHash, k)
    ensures RotatedKeys(w) != [] && CommittedKeys(k) != []
    ensures || CommitmentsCollide(c, RotatedKeys(w), CommittedKeys(k))
            || (CommittedKeys(k) == RotatedKeys(w)
                && (Announced(w, CommittedKeys(k)) <==> w.numAuthorities <= MAX_AUTHORITY_SET_SIZE))
  {
    RotationAnnounces(c, setId, setHash, w, j);
    JustifiedKeys(c, block, hash, newId, newHash, k);
    hide Justified, Announced, EpochEndAccepted, CommitmentsCollide, CommittedKeys, RotatedKeys;
    CommitmentBinds(c, RotatedKeys(w), CommittedKeys(k));
  }

  lemma {:induction false} JustifiedKeys(c: Crypto, block: U32, hash: Bytes32, setId: U64, setHash: Bytes32,
                                         j: Justification)
    requires Justified(c, block, hash, setId, setHash, j)
    ensures j.numAuthorities > 0 && CommittedKeys(j) != [] && AuthoritySetHash(c, CommittedKeys(j)) == setHash
  {
  }

  /** With a justification shaped as the padding shapes it, a quorum of the current set signed the
      hash of the epoch-end header. */
  lemma {:induction false} RotationIsSigned(c: Crypto, setId: U64, setHash: Bytes32, w: RotateWitness, j: Justification)
    requires RotateResult(c, setId, setHash, w, j).Some? && Shaped(j)
    ensures w.header.size <= MAX_HEADER_SIZE
    ensures CommittedKeys(j) != [] && AuthoritySetHash(c, CommittedKeys(j)) == setHash
    ensures SignedFor(c, w.epochEndBlock, c.blake2b(Content(w.header)), setId, j)
  {
    hide Justified, EpochEndAccepted, AuthoritySetHash;
    JustifiedMeans(c, w.epochEndBlock, c.blake2b(Content(w.header)), setId, setHash, j);
  }
}
