/** `get_header_rotate` (circuits/input/mod.rs): finding the authority list in an epoch-end
    header, and whether the circuit's parser accepts the position found. */
module HeaderRotate {
  import opened Basics
  import opened Compact
  import opened Headers
  import opened Authorities
  import opened AuthorityLists
  import opened Justifications
  import opened Rotation
  import opened Epochs

  predicate IsFrnk(log: DigestItem) {
    log.Consensus? && log.engine == FRNK
  }

  /** Index of the first FRNK log, or the number of logs. */
  function FirstFrnk(logs: seq<DigestItem>): (p: nat)
    ensures p <= |logs|
    ensures p < |logs| ==> IsFrnk(logs[p])
    ensures forall i | 0 <= i < p :: !IsFrnk(logs[i])
  {
    if logs == [] || IsFrnk(logs[0]) then 0 else 1 + FirstFrnk(logs[1..])
  }

  lemma {:induction false} FirstFrnkIs(logs: seq<DigestItem>, p: nat)
    requires p < |logs| && IsFrnk(logs[p]) && forall i | 0 <= i < p :: !IsFrnk(logs[i])
    ensures FirstFrnk(logs) == p
  {
  }

  lemma {:induction false} EncodeLogsNext(logs: seq<DigestItem>, i: nat)
    requires i < |logs|
    ensures EncodeLogs(logs[..i + 1]) == EncodeLogs(logs[..i]) + EncodeLog(logs[i])
  {
    EncodeLogsConcat(logs[..i], [logs[i]]);
    assert logs[..i + 1] == logs[..i] + [logs[i]];
    assert [logs[i]][1..] == [];
  }

  lemma {:induction false} EncodeLogsConcat(a: seq<DigestItem>, b: seq<DigestItem>)
    ensures EncodeLogs(a + b) == EncodeLogs(a) + EncodeLogs(b)
  {
    hide EncodeLog;
    if a == [] {
      assert a + b == b;
    } else {
      EncodeLogsConcat(a[1..], b);
      assert (a + b)[1..] == a[1..] + b && (a + b)[0] == a[0];
      assert EncodeLog(a[0]) + (EncodeLogs(a[1..]) + EncodeLogs(b)) ==
             (EncodeLog(a[0]) + EncodeLogs(a[1..])) + EncodeLogs(b);
    }
  }

  /** The checks on the log's value: a scheduled change, whole records that name the stored
      authorities with weight one, and a delay of zero. */
  predicate LogChecks(value: Bytes, authorities: seq<Bytes32>)
    requires |authorities| < U32_BOUND
  {
    var at := 1 + |CompactEncode(|authorities|)|;
    && at <= |value|
    && value[0] == SCHEDULED_CHANGE
    && var records := (|value| - at) / VALIDATOR_LENGTH;
    && records <= |authorities|
    && (forall i | 0 <= i < records :: RecordAt(value, at + 40 * i, authorities[i]))
    && at + 40 * records + DELAY_LENGTH <= |value|
    && value[at + 40 * records..at + 40 * records + DELAY_LENGTH] == Zeros(DELAY_LENGTH)
  }

  datatype HeaderRotateData = HeaderRotateData(
    header: EncodedHeader, numAuthorities: nat, startPosition: nat, endPosition: nat,
    newSetHash: Bytes, paddedPubkeys: seq<Bytes32>)

  method CheckLog(value: Bytes, authorities: seq<Bytes32>) returns (ok: bool)
    requires |authorities| < U32_BOUND
    ensures ok <==> LogChecks(value, authorities)
  {
    hide CompactEncode, RecordAt;
    var cursor := 1 + |CompactEncode(|authorities|)|;
    if cursor > |value| || value[0] != SCHEDULED_CHANGE {
      return false;
    }
    ghost var at := cursor;
    var records := (|value| - cursor) / VALIDATOR_LENGTH;
    for i := 0 to records
      invariant cursor == at + 40 * i
      invariant i <= |authorities| && forall k | 0 <= k < i :: RecordAt(value, at + 40 * k, authorities[k])
    {
      if i >= |authorities| || !RecordAt(value, cursor, authorities[i]) {
        return false;
      }
      cursor := cursor + VALIDATOR_LENGTH;
    }
    ok := cursor + DELAY_LENGTH <= |value| && value[cursor..cursor + DELAY_LENGTH] == Zeros(DELAY_LENGTH);
  }

  /** Front of the header as this code measures it: with the requested block number. */
  function FrontLength(block: U32): nat {
    HASH_SIZE + |CompactEncode(block)| + HASH_SIZE + HASH_SIZE
  }

  /** `get_header_rotate` on the chain's set ids, a fetched header and the fetched new authorities;
      None stands for its panics. */
  method GetHeaderRotate(c: Crypto, setId: History, hd: Header, block: U32, authorities: seq<Bytes32>)
    returns (r: Option<HeaderRotateData>)
    requires |authorities| < U32_BOUND
    ensures r.Some? <==>
              var p := FirstFrnk(hd.logs);
              && EpochEnd(setId, block)
              && |EncodeHeader(hd)| <= MAX_HEADER_SIZE
              && p < |hd.logs| && LogChecks(hd.logs[p].value, authorities)
    ensures r.Some? ==>
              var start := FrontLength(block) + |EncodeLogs(hd.logs[..FirstFrnk(hd.logs)])|;
              && r.value.header == PadHeader(hd)
              && r.value.numAuthorities == |authorities|
              && r.value.startPosition == start
              && r.value.endPosition ==
                 start + BASE_PREFIX_LENGTH + |CompactEncode(|authorities|)| + 40 * |authorities| + 4
              && r.value.newSetHash == (if authorities == [] then [] else AuthoritySetHash(c, authorities))
              && authorities <= r.value.paddedPubkeys
              && |r.value.paddedPubkeys| == Max(|authorities|, MAX_AUTHORITY_SET_SIZE)
              && (forall i | |authorities| <= i < |r.value.paddedPubkeys| ::
                  r.value.paddedPubkeys[i] == DUMMY_PUBLIC_KEY)
  {
    assert EncodeLogs([]) == [] && hd.logs[..0] == [];
    hide EncodeHeader, EncodeLog, EncodeLogs, CompactEncode, LogChecks, AuthoritySetHash, FirstFrnk, FrontLength,
         PadHeader, EpochEnd;
    if !EpochEnd(setId, block) || |EncodeHeader(hd)| > MAX_HEADER_SIZE {
      return None;
    }
    var position := FrontLength(block);
    var found := false;
    for i := 0 to |hd.logs|
      invariant !found
      invariant forall k | 0 <= k < i :: !IsFrnk(hd.logs[k])
      invariant position == FrontLength(block) + |EncodeLogs(hd.logs[..i])|
    {
      if IsFrnk(hd.logs[i]) {
        FirstFrnkIs(hd.logs, i);
        var ok := CheckLog(hd.logs[i].value, authorities);
        if !ok {
          return None;
        }
        found := true;
        break;
      }
      EncodeLogsNext(hd.logs, i);
      position := position + |EncodeLog(hd.logs[i])|;
    }
    if !found {
      return None;
    }
    var newSetHash := ComputeAuthoritySetHash(c, authorities);
    var padded := authorities;
    while |padded| < MAX_AUTHORITY_SET_SIZE
      invariant authorities <= padded
      invariant |padded| <= Max(|authorities|, MAX_AUTHORITY_SET_SIZE)
      invariant forall i | |authorities| <= i < |padded| :: padded[i] == DUMMY_PUBLIC_KEY
    {
      padded := padded + [DUMMY_PUBLIC_KEY];
    }
    var prefixLength := BASE_PREFIX_LENGTH + |CompactEncode(|authorities|)|;
    r := Some(HeaderRotateData(PadHeader(hd), |authorities|, position,
                               position + prefixLength + 40 * |authorities| + 4, newSetHash, padded));
  }

  // ----- honest epoch-end headers

  /** Keys filled up to the array's length. */
  ghost function PaddedKeys(keys: seq<Bytes32>): (padded: seq<Bytes32>)
    requires |keys| <= MAX_AUTHORITY_SET_SIZE
    ensures |padded| == MAX_AUTHORITY_SET_SIZE && keys <= padded
  {
    keys + seq<Bytes32>(MAX_AUTHORITY_SET_SIZE - |keys|, _ => DUMMY_PUBLIC_KEY)
  }

  /** The value of a scheduled change of unit-weight authorities without delay. */
  function ScheduledChange(keys: seq<Bytes32>): Bytes
    requires |keys| < U32_BOUND
  {
    [SCHEDULED_CHANGE] + CompactEncode(|keys|) + EncodeAuthorities(keys) + Zeros(DELAY_LENGTH)
  }

  // ----- in bytes

  /** The log that is looked for is the first consensus log of the engine FRNK. */
  lemma {:induction false} FirstFrnkExact(logs: seq<DigestItem>, p: nat)
    ensures p == FirstFrnk(logs) <==>
              && p <= |logs|
              && (p < |logs| ==> logs[p].Consensus? && logs[p].engine == [70, 82, 78, 75])
              && forall i | 0 <= i < p :: !(logs[i].Consensus? && logs[i].engine == [70, 82, 78, 75])
  {
    hide FirstFrnk;
    assert forall log :: IsFrnk(log) <==> log.Consensus? && log.engine == [70, 82, 78, 75];
    var q := FirstFrnk(logs);
    assert q < |logs| ==> IsFrnk(logs[q]);
    assert forall i | 0 <= i < q :: !IsFrnk(logs[i]);
  }

  /** The off-chain checks: a one, room for the compact number of the fetched authorities, as many whole
      records as the value holds, each that of the next authority, and four zeros behind them. */
  lemma {:induction false} LogChecksInBytes(value: Bytes, authorities: seq<Bytes32>)
    requires |authorities| < U32_BOUND
    ensures LogChecks(value, authorities) <==>
              var at := 1 + |CompactEncode(|authorities|)|;
              && at <= |value| && value[0] == 1
              && var records := (|value| - at) / 40;
              && records <= |authorities|
              && (forall i | 0 <= i < records :: RecordAt(value, at + 40 * i, authorities[i]))
              && at + 40 * records + 4 <= |value|
              && value[at + 40 * records..at + 40 * records + 4] == [0, 0, 0, 0]
  {
    hide CompactEncode, RecordAt;
    assert Zeros(4) == [0, 0, 0, 0];
  }

  /** An announcement: a one, the compact number of keys, their records, and four zeros. */
  lemma {:induction false} ChangeInBytes(keys: seq<Bytes32>)
    requires |keys| < U32_BOUND
    ensures ScheduledChange(keys) == [1] + CompactEncode(|keys|) + EncodeAuthorities(keys) + [0, 0, 0, 0]
    ensures |EncodeAuthorities(keys)| == 40 * |keys|
    ensures forall i | 0 <= i < |keys| :: RecordAt(EncodeAuthorities(keys), 40 * i, keys[i])
  {
    hide CompactEncode, EncodeAuthorities, RecordAt;
    assert Zeros(4) == [0, 0, 0, 0];
    forall i | 0 <= i < |keys|
      ensures RecordAt(EncodeAuthorities(keys), 40 * i, keys[i])
    {
      RecordsOfEncoding(keys, i);
    }
  }

  /** The header's first FRNK log announces these keys. */
  ghost predicate Announces(hd: Header, keys: seq<Bytes32>)
    requires |keys| < U32_BOUND
  {
    var p := FirstFrnk(hd.logs);
    p < |hd.logs| && hd.logs[p].value == ScheduledChange(keys)
  }

  /** Such a header passes the off-chain checks. */
  lemma {:induction false} ScheduledChangePasses(keys: seq<Bytes32>)
    requires |keys| < U32_BOUND
    ensures LogChecks(ScheduledChange(keys), keys)
  {
    var value, n := ScheduledChange(keys), |keys|;
    var at := 1 + |CompactEncode(n)|;
    assert |value| - at == 40 * n + 4 && (|value| - at) / 40 == n;
    ChangeParts(keys);
    hide CompactEncode, EncodeAuthorities, ScheduledChange;
    assert value[at..] == EncodeAuthorities(keys) + Zeros(DELAY_LENGTH);
    assert value[at..] == value[at..at + 40 * n + 4];
    ListRecords(value, at, keys);
  }

  lemma {:induction false} ChangeParts(keys: seq<Bytes32>)
    requires |keys| < U32_BOUND
    ensures ScheduledChange(keys) ==
            [SCHEDULED_CHANGE] + CompactEncode(|keys|) + (EncodeAuthorities(keys) + Zeros(DELAY_LENGTH))
  {
    hide CompactEncode, EncodeAuthorities;
  }

  /** Bytes of the log found at its offset in the padded header. */
  ghost function StartOf(hd: Header): nat {
    |EncodeFront(hd)| + |EncodeLogs(hd.logs[..FirstFrnk(hd.logs)])|
  }

  /** The log's encoding lies one compact length after the start position: the code skips the
      front of the header and the logs before, but not the number of logs. */
  lemma {:induction false} LogInHeader(hd: Header)
    requires |EncodeHeader(hd)| <= MAX_HEADER_SIZE && FirstFrnk(hd.logs) < |hd.logs|
    ensures var at, log := StartOf(hd) + |CompactEncode(|hd.logs|)|, EncodeLog(hd.logs[FirstFrnk(hd.logs)]);
            && at + |log| + 32 <= |EncodeHeader(hd)|
            && PadHeader(hd).bytes[at..at + |log|] == log
  {
    HeaderAround(hd);
    hide EncodeHeader, EncodeFront, EncodeLog, EncodeLogs, CompactEncode;
    var p := FirstFrnk(hd.logs);
    InTheMiddle(EncodeFront(hd) + CompactEncode(|hd.logs|) + EncodeLogs(hd.logs[..p]), EncodeLog(hd.logs[p]),
                EncodeLogs(hd.logs[p + 1..]) + hd.extension + hd.dataRoot, PadHeader(hd).bytes);
  }

  /** The header around its first FRNK log. */
  lemma {:induction false} HeaderAround(hd: Header)
    requires FirstFrnk(hd.logs) < |hd.logs|
    ensures var p := FirstFrnk(hd.logs);
            EncodeHeader(hd) ==
            (EncodeFront(hd) + CompactEncode(|hd.logs|) + EncodeLogs(hd.logs[..p])) + EncodeLog(hd.logs[p])
            + (EncodeLogs(hd.logs[p + 1..]) + hd.extension + hd.dataRoot)
  {
    var p := FirstFrnk(hd.logs);
    LogsAround(hd.logs, p);
    hide EncodeFront, EncodeLog, EncodeLogs, CompactEncode;
    Regroup(EncodeFront(hd), CompactEncode(|hd.logs|), EncodeLogs(hd.logs[..p]), EncodeLog(hd.logs[p]),
            EncodeLogs(hd.logs[p + 1..]), hd.extension, hd.dataRoot);
  }

  lemma {:induction false} Regroup(a: Bytes, b: Bytes, x: Bytes, y: Bytes, z: Bytes, d: Bytes, e: Bytes)
    ensures a + b + (x + y + z) + d + e == (a + b + x) + y + (z + d + e)
  {
  }

  lemma {:induction false} InTheMiddle(a: Bytes, b: Bytes, d: Bytes, bytes: Bytes)
    requires |a + b + d| <= |bytes| && bytes[..|a + b + d|] == a + b + d
    ensures bytes[|a|..|a| + |b|] == b
  {
    SliceOfSlice(bytes, 0, |a + b + d|, |a|, |a| + |b|);
  }

  lemma {:induction false} LogsAround(logs: seq<DigestItem>, p: nat)
    requires p < |logs|
    ensures EncodeLogs(logs) == EncodeLogs(logs[..p]) + EncodeLog(logs[p]) + EncodeLogs(logs[p + 1..])
  {
    EncodeLogsConcat(logs[..p], logs[p..]);
    assert logs == logs[..p] + logs[p..];
    assert logs[p..][1..] == logs[p + 1..];
  }

  // ----- what the circuit's parser makes of the position

  /** The bytes state a scheduled change of these keys without delay. */
  ghost predicate StatesChange(t: Bytes, keys: seq<Bytes32>) {
    && |t| >= 6 && t[0] == SCHEDULED_CHANGE
    && var size := DecodeCompactInt(t[1..6]);
    DecodedValue(t[1..6]);
    size.Some? && size.value.value == |keys| && ListsAuthorities(t, 1 + ModeLength(size.value.mode), keys)
  }

  /** The part of a change that starts eight bytes after the position. */
  lemma {:induction false} ChangeReadsOn(bytes: Bytes, start: nat, keys: seq<Bytes32>)
    requires start + MAX_PREFIX_LENGTH <= |bytes|
    ensures ChangeAt(bytes, start, keys) <==>
            && bytes[start + 1] == CONSENSUS_FLAG && bytes[start + 2..start + 6] == FRNK
            && StatesChange(bytes[start + 8..], keys)
  {
    hide DecodeCompactInt, EncodeAuthorities;
    var t := bytes[start + 8..];
    assert t[1..6] == bytes[start + 9..start + 14];
    var at := ListStart(bytes, start);
    if at + 40 * |keys| + 4 <= |bytes| {
      assert at >= start + 9;
      assert t[at - (start + 8)..at - (start + 8) + 40 * |keys| + 4] == bytes[at..at + 40 * |keys| + 4];
    }
  }

  /** The parts of a log, read from the position one before it. */
  lemma {:induction false} LogReads(bytes: Bytes, start: nat, log: Bytes, engine: EngineId, length: Bytes, value: Bytes)
    requires log == [CONSENSUS_FLAG] + engine + length + value && 1 <= |length| <= 4
    requires start + 1 + |log| <= |bytes| && bytes[start + 1..start + 1 + |log|] == log
    ensures bytes[start + 1] == CONSENSUS_FLAG && bytes[start + 2..start + 6] == engine
    ensures |length| == 2 ==> value <= bytes[start + 8..]
    ensures |length| == 1 && value != [] ==> value[1..] <= bytes[start + 8..]
    ensures |length| == 4 ==> bytes[start + 9] == length[3]
  {
    assert bytes[start + 1] == bytes[start + 1..start + 1 + |log|][0];
    SliceOfSlice(bytes, start + 1, start + 1 + |log|, 1, 5);
    assert log[1..5] == engine;
    if |length| == 2 {
      SliceOfSlice(bytes, start + 1, start + 1 + |log|, 7, |log|);
      assert log[7..|log|] == value;
    } else if |length| == 1 && value != [] {
      SliceOfSlice(bytes, start + 1, start + 1 + |log|, 7, |log|);
      assert log[7..|log|] == value[1..];
    } else if |length| == 4 {
      assert bytes[start + 9] == bytes[start + 1..start + 1 + |log|][8] == log[8];
    }
  }

  /** When the number of logs takes more than one byte, the log is not where the parser looks. */
  lemma {:induction false} RejectsShifted(bytes: Bytes, start: nat, shift: nat, n: nat, padded: seq<Bytes32>)
    requires shift in {2, 4, 5} && start + shift < |bytes| && bytes[start + shift] == CONSENSUS_FLAG
    ensures !EpochEndAccepted(bytes, n, start, padded)
  {
    if start + MAX_PREFIX_LENGTH <= |bytes| {
      var prefix := bytes[start..start + MAX_PREFIX_LENGTH];
      assert prefix[shift] == CONSENSUS_FLAG;
      assert prefix[2..6][shift - 2] == prefix[shift];
    }
  }

  /** A zero where the number is expected is the number zero. */
  lemma {:induction false} ZeroNumber(bytes: Bytes, start: nat, keys: seq<Bytes32>)
    requires start + MAX_PREFIX_LENGTH <= |bytes| && bytes[start + 9] == 0 && keys != []
    ensures !ChangeAt(bytes, start, keys)
  {
    var b := bytes[start + 9..start + 14];
    DecodedValue(b);
    assert b[..1] == [b[0]] && b[0] == 0;
    assert FromLE([b[0]]) == b[0];
    hide DecodeCompactInt, ListsAuthorities;
  }

  /** How the lengths of a log and of the number of logs are encoded in a header that fits. */
  lemma {:induction false} LengthBytes(n: U32)
    ensures if n < 64 then |CompactEncode(n)| == 1
            else if n < 0x4000 then |CompactEncode(n)| == 2
            else |CompactEncode(n)| in {4, 5}
    ensures 0x4000 <= n <= MAX_HEADER_SIZE ==> |CompactEncode(n)| == 4 && CompactEncode(n)[3] == 0
  {
    if 0x4000 <= n <= MAX_HEADER_SIZE {
      var m := 4 * n + 2;
      assert CompactEncode(n) == LE(m, 4);
      assert LE(m, 4)[1..] == LE(m / 256, 3) && LE(m / 256, 3)[1..] == LE(m / 256 / 256, 2);
      assert LE(m / 256 / 256, 2)[1..] == LE(m / 256 / 256 / 256, 1);
      assert LE(m, 4)[3] == (m / 256 / 256 / 256) % 256;
    }
  }

  /** The windows of the parser lie in the header array. */
  ghost predicate WindowsFit(bytes: Bytes, start: nat, length: nat) {
    && start + MAX_PREFIX_LENGTH <= |bytes|
    && ListStart(bytes, start) + VALIDATOR_LENGTH * length + DELAY_LENGTH <= |bytes|
  }

  /** For every header with a FRNK log, what the circuit makes of the position found off chain: it is
      accepted if and only if there are fewer than 64 logs, the value's length takes at most two
      bytes, and the bytes from the eighth one on state a change of the fetched authorities. With
      a length of two bytes they start with the value, with one byte with the value's rest. */
  lemma {:induction false} RotatePositionAny(hd: Header, keys: seq<Bytes32>, padded: seq<Bytes32>)
    requires |EncodeHeader(hd)| <= MAX_HEADER_SIZE && FirstFrnk(hd.logs) < |hd.logs|
    requires keys != [] && keys <= padded
    ensures StartOf(hd) + MAX_PREFIX_LENGTH <= MAX_HEADER_SIZE
    ensures var bytes, value := PadHeader(hd).bytes, hd.logs[FirstFrnk(hd.logs)].value;
            var tail := bytes[StartOf(hd) + 8..];
            && (EpochEndAccepted(bytes, |keys|, StartOf(hd), padded) <==>
                  |hd.logs| < 64 && |value| < 0x4000 && StatesChange(tail, keys)
                    && WindowsFit(bytes, StartOf(hd), |padded|))
            && (|hd.logs| < 64 && 64 <= |value| < 0x4000 ==> value <= tail)
            && (|hd.logs| < 64 && 0 < |value| < 64 ==> value[1..] <= tail)
  {
    hide PadHeader, StartOf, EncodeHeader, EncodeLog, EpochEndAccepted, CompactEncode, ListStart, StatesChange,
         WindowsFit, FirstFrnk;
    LogInHeader(hd);
    LengthBytes(|hd.logs|);
    FrnkLog(hd);
    var bytes, start, shift := PadHeader(hd).bytes, StartOf(hd), |CompactEncode(|hd.logs|)|;
    var log, value := EncodeLog(hd.logs[FirstFrnk(hd.logs)]), hd.logs[FirstFrnk(hd.logs)].value;
    if |hd.logs| >= 64 {
      assert bytes[start + shift] == bytes[start + shift..start + shift + |log|][0] == log[0];
      RejectsShifted(bytes, start, shift, |keys|, padded);
    } else {
      LogPosition(bytes, start, log, value, keys, padded);
    }
  }

  lemma {:induction false} FrnkLog(hd: Header)
    requires FirstFrnk(hd.logs) < |hd.logs|
    ensures var value := hd.logs[FirstFrnk(hd.logs)].value;
            EncodeLog(hd.logs[FirstFrnk(hd.logs)]) == [CONSENSUS_FLAG] + FRNK + CompactEncode(|value|) + value
  {
    hide CompactEncode, FirstFrnk;
  }

  /** With one byte for the number of logs, the log starts where the parser expects it. */
  lemma {:induction false} LogPosition(bytes: Bytes, start: nat, log: Bytes, value: Payload, keys: seq<Bytes32>,
                                       padded: seq<Bytes32>)
    requires log == [CONSENSUS_FLAG] + FRNK + CompactEncode(|value|) + value && |log| <= MAX_HEADER_SIZE
    requires start + 1 + |log| + 32 <= |bytes| && bytes[start + 1..start + 1 + |log|] == log
    requires keys != [] && keys <= padded
    ensures EpochEndAccepted(bytes, |keys|, start, padded) <==>
            |value| < 0x4000 && StatesChange(bytes[start + 8..], keys) && WindowsFit(bytes, start, |padded|)
    ensures 64 <= |value| < 0x4000 ==> value <= bytes[start + 8..]
    ensures 0 < |value| < 64 ==> value[1..] <= bytes[start + 8..]
  {
    hide EpochEndAccepted, CompactEncode, ListStart, StatesChange, WindowsFit, ChangeAt;
    LengthBytes(|value|);
    LogReads(bytes, start, log, FRNK, CompactEncode(|value|), value);
    PositionReads(bytes, start, keys, padded);
    if |value| >= 0x4000 {
      ZeroNumber(bytes, start, keys);
    }
  }

  lemma {:induction false} PositionReads(bytes: Bytes, start: nat, keys: seq<Bytes32>, padded: seq<Bytes32>)
    requires start + MAX_PREFIX_LENGTH <= |bytes| && keys != [] && keys <= padded
    requires bytes[start + 1] == CONSENSUS_FLAG && bytes[start + 2..start + 6] == FRNK
    ensures EpochEndAccepted(bytes, |keys|, start, padded) <==>
            ChangeAt(bytes, start, keys) && WindowsFit(bytes, start, |padded|)
    ensures ChangeAt(bytes, start, keys) <==> StatesChange(bytes[start + 8..], keys)
  {
    EpochEndExact(bytes, |keys|, start, padded);
    ChangeReadsOn(bytes, start, keys);
    hide EpochEndAccepted, ChangeAt, StatesChange, ListStart;
    assert padded[..|keys|] == keys;
  }

  // ----- scheduled changes

  /** Bytes that start with a scheduled change state it. */
  lemma {:induction false} HonestStates(t: Bytes, keys: seq<Bytes32>)
    requires |keys| < U32_BOUND && keys != [] && ScheduledChange(keys) <= t
    ensures StatesChange(t, keys) && DecodeCompactInt(t[1..6]).value.mode == CompactMode(|keys|)
  {
    hide CompactEncode, EncodeAuthorities, ScheduledChange, CompactMode, DecodeCompactInt;
    ChangeParts(keys);
    var e, list := CompactEncode(|keys|), EncodeAuthorities(keys) + Zeros(DELAY_LENGTH);
    PartsOf(t, e, list);
    CompactRoundTrip(|keys|, t[1..6]);
  }

  lemma {:induction false} PartsOf(t: Bytes, e: Bytes, list: Bytes)
    requires |e| <= 5 && |list| >= 4 && e != [] && |list| >= 5 && [SCHEDULED_CHANGE] + e + list <= t
    ensures t[0] == SCHEDULED_CHANGE && |t| >= 6 && e <= t[1..6] && t[1 + |e|..1 + |e| + |list|] == list
  {
    var value := [SCHEDULED_CHANGE] + e + list;
    assert t[..|value|] == value;
    SliceOfSlice(t, 0, |value|, 1, 1 + |e|);
    SliceOfSlice(t, 0, |value|, 1 + |e|, |value|);
    assert value[1..1 + |e|] == e && value[1 + |e|..|value|] == list;
    assert t[0] == t[..|value|][0];
    assert t[1..6][..|e|] == t[1..1 + |e|];
  }

  /** Rotate completeness, exactly: for an honest epoch-end header whose windows fit, the position
      found off chain passes the circuit's checks if and only if the header has fewer than 64
      logs and at least two authorities. */
  lemma {:induction false} RotatePositionExact(hd: Header, keys: seq<Bytes32>, padded: seq<Bytes32>)
    requires |EncodeHeader(hd)| <= MAX_HEADER_SIZE
    requires 1 <= |keys| <= MAX_AUTHORITY_SET_SIZE && keys <= padded && Announces(hd, keys)
    requires StartOf(hd) + 9 + |CompactEncode(|keys|)| + 40 * |padded| + 4 <= MAX_HEADER_SIZE
    ensures EpochEndAccepted(PadHeader(hd).bytes, |keys|, StartOf(hd), padded) <==> |hd.logs| < 64 && |keys| >= 2
  {
    RotatePositionAny(hd, keys, padded);
    ValueLength(keys);
    var bytes, start, value := PadHeader(hd).bytes, StartOf(hd), ScheduledChange(keys);
    var tail := bytes[start + 8..];
    hide PadHeader, StartOf, EncodeHeader, EpochEndAccepted, ScheduledChange, CompactEncode, FirstFrnk;
    if |hd.logs| < 64 && |keys| == 1 {
      SingleChange(keys);
      assert tail[0] == value[1..][0];
    }
    hide StatesChange;
    if |hd.logs| < 64 && |keys| >= 2 {
      HonestStates(tail, keys);
      HonestListStart(bytes, start, keys);
    }
  }

  lemma {:induction false} HonestListStart(bytes: Bytes, start: nat, keys: seq<Bytes32>)
    requires |keys| < U32_BOUND && keys != [] && start + MAX_PREFIX_LENGTH <= |bytes|
    requires ScheduledChange(keys) <= bytes[start + 8..]
    ensures ListStart(bytes, start) == start + 9 + |CompactEncode(|keys|)|
  {
    HonestStates(bytes[start + 8..], keys);
    hide DecodeCompactInt, ScheduledChange, ListsAuthorities, StatesChange, CompactEncode;
    SliceOfSlice(bytes, start + 8, |bytes|, 1, 6);
    assert bytes[start + 8..] == bytes[start + 8..|bytes|];
  }

  lemma {:induction false} SingleChange(keys: seq<Bytes32>)
    requires |keys| == 1
    ensures 2 <= |ScheduledChange(keys)| < 64 && ScheduledChange(keys)[1] == 4
  {
  }

  /** Up to this size of a set, the length of its change takes two bytes. */
  const LARGEST_SET: nat := 400

  lemma {:induction false} ValueLength(keys: seq<Bytes32>)
    requires |keys| <= LARGEST_SET
    ensures |ScheduledChange(keys)| < 0x4000 && (|keys| >= 2 ==> 64 <= |ScheduledChange(keys)|)
    ensures |ScheduledChange(keys)| <= 7 + 40 * |keys|
  {
  }

  /** What the off-chain checks add: if the value's number is that of the fetched authorities, in
      canonical form, and it holds all their records, it states their change. */
  lemma {:induction false} CheckedStates(t: Bytes, value: Bytes, keys: seq<Bytes32>)
    requires |keys| < U32_BOUND && keys != [] && LogChecks(value, keys) && value <= t && |value| >= 6
    requires value[1..1 + |CompactEncode(|keys|)|] == CompactEncode(|keys|)
    requires 1 + |CompactEncode(|keys|)| + 40 * |keys| <= |value|
    ensures StatesChange(t, keys)
  {
    var e, at := CompactEncode(|keys|), 1 + |CompactEncode(|keys|)|;
    CheckedList(value, keys);
    hide CompactEncode, EncodeAuthorities, LogChecks;
    assert t[..|value|] == value;
    SamePart(t, value, |value|, 1, 6);
    SamePart(t, value, |value|, at, at + 40 * |keys| + 4);
    hide RecordAt;
    SliceOfSlice(t, 1, 6, 0, |e|);
    SamePart(t, value, |value|, 1, 1 + |e|);
    CompactRoundTrip(|keys|, t[1..6]);
  }

  lemma {:induction false} CheckedList(value: Bytes, keys: seq<Bytes32>)
    requires |keys| < U32_BOUND && LogChecks(value, keys)
    requires 1 + |CompactEncode(|keys|)| + 40 * |keys| <= |value|
    ensures value[0] == SCHEDULED_CHANGE && ListsAuthorities(value, 1 + |CompactEncode(|keys|)|, keys)
  {
    hide CompactEncode, EncodeAuthorities, RecordAt;
    var at, n := 1 + |CompactEncode(|keys|)|, |keys|;
    assert (|value| - at) / VALIDATOR_LENGTH == n;
    EncodingOfRecords(value, at, keys);
    assert value[at..at + 40 * n + 4] == value[at..at + 40 * n] + value[at + 40 * n..at + 40 * n + 4];
  }

  /** For every header the off-chain code accepts, beyond honest ones: with fewer than 64 logs and a
      value of 64 bytes or more whose number is stated canonically and whose records are all there,
      the position found is accepted. */
  lemma {:induction false} CheckedPositionAccepted(hd: Header, keys: seq<Bytes32>, padded: seq<Bytes32>)
    requires |EncodeHeader(hd)| <= MAX_HEADER_SIZE && FirstFrnk(hd.logs) < |hd.logs| < 64
    requires keys != [] && |keys| < U32_BOUND && keys <= padded
    requires var value := hd.logs[FirstFrnk(hd.logs)].value;
             && LogChecks(value, keys) && 64 <= |value| < 0x4000
             && value[1..1 + |CompactEncode(|keys|)|] == CompactEncode(|keys|)
             && 1 + |CompactEncode(|keys|)| + 40 * |keys| <= |value|
    requires WindowsFit(PadHeader(hd).bytes, StartOf(hd), |padded|)
    ensures EpochEndAccepted(PadHeader(hd).bytes, |keys|, StartOf(hd), padded)
  {
    RotatePositionAny(hd, keys, padded);
    hide PadHeader, StartOf, EncodeHeader, EpochEndAccepted, StatesChange, WindowsFit, CompactEncode, LogChecks;
    CheckedStates(PadHeader(hd).bytes[StartOf(hd) + 8..], hd.logs[FirstFrnk(hd.logs)].value, keys);
  }

  // ----- headers on which the two disagree

  /** A header whose first log announces the keys and whose other logs are empty. */
  ghost function Announcing(number: U32, keys: seq<Bytes32>, logs: nat): (hd: Header)
    requires |keys| <= LARGEST_SET && 0 < logs < U32_BOUND
    ensures hd.number == number && |hd.logs| == logs && Announces(hd, keys) && FirstFrnk(hd.logs) == 0
  {
    Header(ZERO32, number, ZERO32, ZERO32,
           [Consensus(FRNK, ScheduledChange(keys))] + seq<DigestItem>(logs - 1, _ => Unrelated([])), [], ZERO32)
  }

  lemma {:induction false} EmptyLogs(logs: seq<DigestItem>)
    requires forall i | 0 <= i < |logs| :: logs[i] == Unrelated([])
    ensures EncodeLogs(logs) == []
  {
    if logs == [] {
    } else {
      EmptyLogs(logs[1..]);
    }
  }

  lemma {:induction false} AnnouncingFits(number: U32, keys: seq<Bytes32>, logs: nat)
    requires |keys| <= LARGEST_SET && 0 < logs < U32_BOUND
    ensures |EncodeHeader(Announcing(number, keys, logs))| <= MAX_HEADER_SIZE
    ensures StartOf(Announcing(number, keys, logs)) + MAX_PREFIX_LENGTH + 40 * MAX_AUTHORITY_SET_SIZE + 4 <=
            MAX_HEADER_SIZE
  {
    var hd := Announcing(number, keys, logs);
    EmptyLogs(hd.logs[1..]);
    ValueLength(keys);
    assert |EncodeLog(hd.logs[0])| <= 10 + |ScheduledChange(keys)|;
    hide EncodeLog, CompactEncode, ScheduledChange;
    assert EncodeLogs(hd.logs) == EncodeLog(hd.logs[0]) + EncodeLogs(hd.logs[1..]);
    assert hd.logs[..0] == [];
  }

  /** The off-chain code returns a position in the header, and the circuit refuses it. */
  ghost predicate PositionRefused(setId: History, hd: Header, keys: seq<Bytes32>)
    requires |keys| <= MAX_AUTHORITY_SET_SIZE
  {
    && EpochEnd(setId, hd.number) && |EncodeHeader(hd)| <= MAX_HEADER_SIZE
    && FirstFrnk(hd.logs) < |hd.logs| && LogChecks(hd.logs[FirstFrnk(hd.logs)].value, keys)
    && !EpochEndAccepted(PadHeader(hd).bytes, |keys|, StartOf(hd), PaddedKeys(keys))
  }

  /** Two inputs on which the position found off chain is refused, at any epoch end: 64 logs, and one
      authority. */
  lemma {:induction false} PositionsRefused(setId: History, number: U32, k: Bytes32, l: Bytes32)
    requires EpochEnd(setId, number)
    ensures PositionRefused(setId, Announcing(number, [k, l], 64), [k, l])
    ensures PositionRefused(setId, Announcing(number, [k], 1), [k])
  {
    AnnouncingFits(number, [k, l], 64);
    AnnouncingFits(number, [k], 1);
    ScheduledChangePasses([k, l]);
    ScheduledChangePasses([k]);
    hide EncodeHeader, StartOf, EpochEndAccepted, PadHeader, PaddedKeys, Announcing, ScheduledChange, LogChecks,
         CompactEncode, EpochEnd;
    RotatePositionExact(Announcing(number, [k, l], 64), [k, l], PaddedKeys([k, l]));
    RotatePositionExact(Announcing(number, [k], 1), [k], PaddedKeys([k]));
  }

  /** The end position is exactly the end of the log in the header. */
  lemma {:induction false} EndPositionExact(hd: Header, keys: seq<Bytes32>)
    requires 2 <= |keys| <= MAX_AUTHORITY_SET_SIZE && Announces(hd, keys) && |hd.logs| < 64
    ensures StartOf(hd) + BASE_PREFIX_LENGTH + |CompactEncode(|keys|)| + 40 * |keys| + 4 ==
            |EncodeFront(hd)| + |CompactEncode(|hd.logs|)| + |EncodeLogs(hd.logs[..FirstFrnk(hd.logs) + 1])|
  {
    ValueLength(keys);
    LengthBytes(|ScheduledChange(keys)|);
    LengthBytes(|hd.logs|);
    EncodeLogsNext(hd.logs, FirstFrnk(hd.logs));
    hide EncodeLogs;
    var log := EncodeLog(hd.logs[FirstFrnk(hd.logs)]);
    assert |log| == 7 + |ScheduledChange(keys)|;
    assert |ScheduledChange(keys)| == 1 + |CompactEncode(|keys|)| + 40 * |keys| + 4;
  }

  // ----- why the padding matters

  /** Any content, followed in the array by a change that is not part of it. */
  ghost function Followed(content: Bytes, log: Bytes): (e: EncodedHeader)
    requires |content| + 1 + |log| <= MAX_HEADER_SIZE
    ensures e.size == |content| && Content(e) == content
    ensures e.bytes[|content| + 1..|content| + 1 + |log|] == log
  {
    var front := content + [0] + log;
    var bytes := PadTo(front, MAX_HEADER_SIZE);
    assert bytes[..|front|] == front;
    InTheMiddle(content + [0], log, [], bytes);
    assert bytes[..|content|] == front[..|content|] == content;
    PaddedBytes(bytes, |content|)
  }

  /** Zero padding is needed for a rotation to speak about the hashed header: next to any justified
      content that leaves room in the array, a witness with a change behind the content passes, and
      the content does not announce its keys. */
  lemma {:induction false} PaddingIsNeeded(c: Crypto, content: Bytes, block: U32, id: U64, setHash: Bytes32,
                                           j: Justification, keys: seq<Bytes32>)
    returns (w: RotateWitness)
    requires |content| <= MAX_HEADER_SIZE - 12018 && 2 <= |keys| <= MAX_AUTHORITY_SET_SIZE
    requires Justified(c, block, c.blake2b(content), id, setHash, j)
    ensures w.header.size == |content| && Content(w.header) == content
    ensures w.numAuthorities == |keys| && w.newPubkeys[..w.numAuthorities] == keys
    ensures RotateResult(c, id, setHash, w, j) == Some(AuthoritySetHash(c, keys))
    ensures !ContentAnnounces(content, w.startPosition, keys)
  {
    ValueLength(keys);
    var value, padded := ScheduledChange(keys), PaddedKeys(keys);
    var log := [CONSENSUS_FLAG] + FRNK + [0, 0] + value;
    var header, start := Followed(content, log), |content|;
    hide Justified, EpochEndAccepted, AuthoritySetHash, ScheduledChange, CompactEncode, PaddedKeys, ListStart, Followed;
    LogReads(header.bytes, start, log, FRNK, [0, 0], value);
    HonestStates(header.bytes[start + 8..], keys);
    ChangeReadsOn(header.bytes, start, keys);
    assert padded[..|keys|] == keys == keys[..|keys|];
    EarlyList(header.bytes, start);
    ChangeAccepted(header.bytes, start, keys, padded);
    w := RotateData(block, header, |keys|, start, padded);
    BehindContent(content, keys);
  }

  /** What starts behind the content is not announced by it. */
  lemma {:induction false} BehindContent(content: Bytes, keys: seq<Bytes32>)
    ensures !ContentAnnounces(content, |content|, keys)
  {
    hide DecodeCompactInt, EncodeAuthorities, ListsAuthorities;
    assert |content + Zeros(11)| == |content| + 11;
  }

  /** That the number of authorities fits the array is needed: from a justified, zero-padded header that
      announces 301 keys, a rotation commits to the first 300, which the header does not announce. */
  lemma {:induction false} LargeSetCut(c: Crypto, number: U32, keys: seq<Bytes32>, id: U64, setHash: Bytes32,
                                       j: Justification)
    returns (w: RotateWitness)
    requires |keys| == MAX_AUTHORITY_SET_SIZE + 1
    requires Justified(c, number, HeaderHash(c, Announcing(number, keys, 1)), id, setHash, j)
    ensures |EncodeHeader(Announcing(number, keys, 1))| <= MAX_HEADER_SIZE
    ensures w.header == PadHeader(Announcing(number, keys, 1)) && w.numAuthorities == |keys| && ZeroPadded(w.header)
    ensures RotateResult(c, id, setHash, w, j) == Some(AuthoritySetHash(c, keys[..MAX_AUTHORITY_SET_SIZE]))
    ensures !Announced(w, keys[..MAX_AUTHORITY_SET_SIZE])
  {
    hide Justified, EpochEndAccepted, AuthoritySetHash, Announcing, EncodeHeader, PadHeader, StartOf, ChangeAt,
         RotateResult, Announced, Announces, Content, ZeroPadded;
    var hd, few := Announcing(number, keys, 1), keys[..MAX_AUTHORITY_SET_SIZE];
    AnnouncingFits(number, keys, 1);
    var start := StartOf(hd);
    LargeChangeInHeader(hd, keys);
    CutAccepted(PadHeader(hd).bytes, start, keys, few);
    PaddedContent(hd);
    w := RotateData(number, PadHeader(hd), |keys|, start, few);
    CutRotates(c, id, setHash, w, j);
  }

  /** The circuit accepts the first keys of a change that is larger than the array, and it is not the
      change of these. */
  lemma {:induction false} CutAccepted(bytes: Bytes, start: nat, keys: seq<Bytes32>, few: seq<Bytes32>)
    requires |keys| == MAX_AUTHORITY_SET_SIZE + 1 && few == keys[..MAX_AUTHORITY_SET_SIZE]
    requires start + MAX_PREFIX_LENGTH + 40 * MAX_AUTHORITY_SET_SIZE + 4 <= |bytes| && ChangeAt(bytes, start, keys)
    ensures EpochEndAccepted(bytes, |keys|, start, few) && !ChangeAt(bytes, start, few)
  {
    hide EpochEndAccepted, ChangeAt, ListStart;
    EarlyList(bytes, start);
    assert few[..|few|] == keys[..|few|] == few;
    ChangeAccepted(bytes, start, keys, few);
    ChangeIffNumberFits(bytes, |keys|, start, few);
  }

  lemma {:induction false} PaddedContent(hd: Header)
    requires |EncodeHeader(hd)| <= MAX_HEADER_SIZE
    ensures PadHeader(hd).size <= MAX_HEADER_SIZE
    ensures Content(PadHeader(hd)) == EncodeHeader(hd) && ZeroPadded(PadHeader(hd))
  {
    hide EncodeHeader;
  }

  lemma {:induction false} CutRotates(c: Crypto, id: U64, setHash: Bytes32, w: RotateWitness, j: Justification)
    requires w.header.size <= MAX_HEADER_SIZE && w.numAuthorities > MAX_AUTHORITY_SET_SIZE
    requires Justified(c, w.epochEndBlock, c.blake2b(Content(w.header)), id, setHash, j)
    requires EpochEndAccepted(w.header.bytes, w.numAuthorities, w.startPosition, w.newPubkeys)
    requires !ChangeAt(w.header.bytes, w.startPosition, w.newPubkeys)
    ensures RotateResult(c, id, setHash, w, j) == Some(AuthoritySetHash(c, w.newPubkeys)) && !Announced(w, w.newPubkeys)
  {
    hide Justified, EpochEndAccepted, AuthoritySetHash, ChangeAt, Content;
    assert w.newPubkeys[..MAX_AUTHORITY_SET_SIZE] == w.newPubkeys;
  }

  lemma {:induction false} LargeChangeInHeader(hd: Header, keys: seq<Bytes32>)
    requires 2 <= |keys| <= LARGEST_SET && Announces(hd, keys)
    requires |EncodeHeader(hd)| <= MAX_HEADER_SIZE && |hd.logs| < 64
    ensures StartOf(hd) + MAX_PREFIX_LENGTH <= MAX_HEADER_SIZE && ChangeAt(PadHeader(hd).bytes, StartOf(hd), keys)
  {
    RotatePositionAny(hd, keys, keys);
    ValueLength(keys);
    LogFlags(hd);
    hide EncodeHeader, StartOf, PadHeader, ChangeAt, StatesChange, ScheduledChange, EpochEndAccepted;
    HonestStates(PadHeader(hd).bytes[StartOf(hd) + 8..], keys);
    ChangeReadsOn(PadHeader(hd).bytes, StartOf(hd), keys);
  }

  lemma {:induction false} LogFlags(hd: Header)
    requires |EncodeHeader(hd)| <= MAX_HEADER_SIZE && FirstFrnk(hd.logs) < |hd.logs| < 64
    ensures StartOf(hd) + MAX_PREFIX_LENGTH <= MAX_HEADER_SIZE
    ensures var bytes, start := PadHeader(hd).bytes, StartOf(hd);
            bytes[start + 1] == CONSENSUS_FLAG && bytes[start + 2..start + 6] == FRNK
  {
    hide EncodeLog, EncodeHeader, StartOf, PadHeader, CompactEncode, FirstFrnk;
    LogInHeader(hd);
    LengthBytes(|hd.logs|);
    FrnkLog(hd);
    var value := hd.logs[FirstFrnk(hd.logs)].value;
    LengthBytes(|value|);
    LogReads(PadHeader(hd).bytes, StartOf(hd), EncodeLog(hd.logs[FirstFrnk(hd.logs)]), FRNK, CompactEncode(|value|),
             value);
  }

  /** An epoch-end header that the circuit's parser can be pointed into. */
  ghost predicate Rotatable(hd: Header, keys: seq<Bytes32>) {
    && 2 <= |keys| <= MAX_AUTHORITY_SET_SIZE && |hd.logs| < 64
    && |EncodeHeader(hd)| <= MAX_HEADER_SIZE && Announces(hd, keys)
    && StartOf(hd) + 9 + |CompactEncode(|keys|)| + 40 * MAX_AUTHORITY_SET_SIZE + 4 <= MAX_HEADER_SIZE
  }

  lemma {:induction false} RotatesTo(c: Crypto, hd: Header, keys: seq<Bytes32>, padded: seq<Bytes32>, id: U64,
                                     setHash: Bytes32, j: Justification)
    requires Rotatable(hd, keys) && keys <= padded && |padded| == MAX_AUTHORITY_SET_SIZE
    requires Justified(c, hd.number, HeaderHash(c, hd), id, setHash, j)
    ensures RotateResult(c, id, setHash, RotateData(hd.number, PadHeader(hd), |keys|, StartOf(hd), padded), j)
            == Some(AuthoritySetHash(c, keys))
  {
    RotatePositionExact(hd, keys, padded);
    hide Justified, EpochEndAccepted, AuthoritySetHash, EncodeHeader, Announces, StartOf, CompactEncode;
    assert Content(PadHeader(hd)) == EncodeHeader(hd);
    assert padded[..|keys|] == keys;
  }

  /** From the chain to the circuit: the witness built off chain from an honest epoch-end header
      makes the circuit return the commitment of the announced keys. */
  method FindRotation(c: Crypto, setId: History, hd: Header, keys: seq<Bytes32>) returns (d: HeaderRotateData)
    requires EpochEnd(setId, hd.number) && Rotatable(hd, keys)
    ensures |d.paddedPubkeys| == MAX_AUTHORITY_SET_SIZE
    ensures forall id: U64, setHash: Bytes32, j: Justification |
              Justified(c, hd.number, HeaderHash(c, hd), id, setHash, j) ::
              RotateResult(c, id, setHash, RotateData(hd.number, d.header, d.numAuthorities, d.startPosition,
                                                      d.paddedPubkeys), j)
              == Some(AuthoritySetHash(c, keys))
    ensures d.newSetHash == AuthoritySetHash(c, keys)
  {
    ScheduledChangePasses(keys);
    var found := GetHeaderRotate(c, setId, hd, hd.number, keys);
    d := found.value;
    assert d.startPosition == StartOf(hd);
    hide *;
    forall id: U64, setHash: Bytes32, j: Justification | Justified(c, hd.number, HeaderHash(c, hd), id, setHash, j)
      ensures RotateResult(c, id, setHash,
                           RotateData(hd.number, d.header, d.numAuthorities, d.startPosition, d.paddedPubkeys), j)
              == Some(AuthoritySetHash(c, keys))
    {
      RotatesTo(c, hd, keys, d.paddedPubkeys, id, setHash, j);
    }
  }
}
