/** Avail headers: their encoding, the padded form a circuit reads, and the circuit's
    decoder (circuits/builder/decoder.rs, circuits/builder/header.rs). */
module Headers {
  import opened Basics
  import opened Compact

  const HASH_SIZE: nat := 32
  const MAX_HEADER_SIZE: nat := 280 * 128

  // ----- headers of the chain

  type EngineId = s: Bytes | |s| == 4 witness Zeros(4)
  type Payload = s: Bytes | |s| < U32_BOUND

  /** A digest log. Only consensus logs are told apart; the encoding of any other
      log is arbitrary. */
  datatype DigestItem = Consensus(engine: EngineId, value: Payload) | Unrelated(encoded: Bytes)

  type Digest = s: seq<DigestItem> | |s| < U32_BOUND

  /** `extension` stands for the header extension up to its final field, the data root. */
  datatype Header = Header(
    parentHash: Bytes32, number: U32, stateRoot: Bytes32, extrinsicsRoot: Bytes32,
    logs: Digest, extension: Bytes, dataRoot: Bytes32)

  const CONSENSUS_FLAG: Byte := 4

  function EncodeLog(log: DigestItem): Bytes {
    match log
    case Consensus(engine, value) => [CONSENSUS_FLAG] + engine + CompactEncode(|value|) + value
    case Unrelated(encoded) => encoded
  }

  function EncodeLogs(logs: seq<DigestItem>): Bytes {
    if logs == [] then [] else EncodeLog(logs[0]) + EncodeLogs(logs[1..])
  }

  /** Everything before the digest. */
  function EncodeFront(hd: Header): Bytes {
    hd.parentHash + CompactEncode(hd.number) + hd.stateRoot + hd.extrinsicsRoot
  }

  function EncodeHeader(hd: Header): Bytes {
    EncodeFront(hd) + CompactEncode(|hd.logs|) + EncodeLogs(hd.logs) + hd.extension + hd.dataRoot
  }

  function HeaderHash(c: Crypto, hd: Header): Bytes32 {
    c.blake2b(EncodeHeader(hd))
  }

  // ----- headers as the circuit reads them

  datatype PaddedBytes = PaddedBytes(bytes: Bytes, size: U32)
  type EncodedHeader = e: PaddedBytes | |e.bytes| == MAX_HEADER_SIZE
    witness PaddedBytes(Zeros(MAX_HEADER_SIZE), 0)

  const EMPTY_HEADER: EncodedHeader := PaddedBytes(Zeros(MAX_HEADER_SIZE), 0)

  function PadHeader(hd: Header): EncodedHeader
    requires |EncodeHeader(hd)| <= MAX_HEADER_SIZE
  {
    PaddedBytes(PadTo(EncodeHeader(hd), MAX_HEADER_SIZE), |EncodeHeader(hd)|)
  }

  /** The bytes that the header hash covers. */
  function Content(e: EncodedHeader): Bytes
    requires e.size <= MAX_HEADER_SIZE
  {
    e.bytes[..e.size]
  }

  /** What the hint guarantees of its headers, and the circuit does not check. */
  predicate ZeroPadded(e: EncodedHeader) {
    forall i | e.size <= i < MAX_HEADER_SIZE :: e.bytes[i] == 0
  }

  /** The `get_fixed_subarray` gadget: a window that must lie inside the array. */
  function FixedSubarray(bytes: Bytes, start: nat, length: nat): Option<Bytes> {
    if start + length <= |bytes| then Some(bytes[start..start + length]) else None
  }

  /** A decoded header together with its hash. */
  datatype Block = Block(
    hash: Bytes32, number: U32, parentHash: Bytes32, stateRoot: Bytes32, dataRoot: Bytes32)

  function DataRootStart(size: U32): U32 {
    if size == 0 then 0 else Sub32(size, 32)
  }

  /** `decode_header` with `hash_encoded_header`: None when an assertion of the circuit fails. */
  function DecodeHeader(c: Crypto, e: EncodedHeader): (r: Option<Block>)
  {
    var number := DecodeCompactInt(e.bytes[32..37]);
    var dataRoot := FixedSubarray(e.bytes, DataRootStart(e.size), HASH_SIZE);
    if number.None? || dataRoot.None? then None
    else
      AcceptedSize(e);
      DecodedValue(e.bytes[32..37]);
      var stateRoot := [e.bytes[33..65], e.bytes[34..66], e.bytes[36..68], e.bytes[37..69]][number.value.mode];
      Some(Block(c.blake2b(Content(e)), number.value.value, e.bytes[0..32], stateRoot, dataRoot.value))
  }

  /** A header whose data root window fits the array has a size the array can hold: a size
      below 32 wraps around and misses the array, except zero. */
  lemma {:induction false} AcceptedSize(e: EncodedHeader)
    requires FixedSubarray(e.bytes, DataRootStart(e.size), HASH_SIZE).Some?
    ensures e.size == 0 || 32 <= e.size <= MAX_HEADER_SIZE
  {
  }

  // ----- round trip

  /** The block a chain header denotes. */
  function BlockOf(c: Crypto, hd: Header): Block {
    Block(HeaderHash(c, hd), hd.number, hd.parentHash, hd.stateRoot, hd.dataRoot)
  }

  lemma {:induction false} HeaderRoundTrip(c: Crypto, hd: Header)
    requires |EncodeHeader(hd)| <= MAX_HEADER_SIZE
    ensures DecodeHeader(c, PadHeader(hd)) == Some(BlockOf(c, hd))
  {
    hide CompactEncode, DecodeCompactInt, EncodeLogs;
    var enc, e := EncodeHeader(hd), PadHeader(hd);
    var num := CompactEncode(hd.number);
    var tail := hd.extrinsicsRoot + CompactEncode(|hd.logs|) + EncodeLogs(hd.logs) + hd.extension + hd.dataRoot;
    assert enc == hd.parentHash + num + hd.stateRoot + tail;
    assert Content(e) == enc;
    FieldsInPlace(hd.parentHash, num, hd.stateRoot, tail, e.bytes);
    CompactRoundTrip(hd.number, e.bytes[32..37]);
    assert e.bytes[e.size - 32..e.size] == enc[|enc| - 32..] == hd.dataRoot;
  }

  lemma {:induction false} FieldsInPlace(parent: Bytes32, num: Bytes, state: Bytes32, tail: Bytes, bytes: Bytes)
    requires 1 <= |num| <= 5
    requires parent + num + state + tail <= bytes
    ensures bytes[0..32] == parent
    ensures num <= bytes[32..37]
    ensures bytes[32 + |num|..64 + |num|] == state
  {
    assert bytes[..|parent + num + state + tail|] == parent + num + state + tail;
    assert bytes[0..32] == (parent + num + state + tail)[0..32];
    assert bytes[32..32 + |num|] == (parent + num + state + tail)[32..32 + |num|] == num;
    assert bytes[32..37][..|num|] == num;
    assert bytes[32 + |num|..64 + |num|] == (parent + num + state + tail)[32 + |num|..64 + |num|] == state;
  }

  /** The padding header of the hint decodes without an assertion failing. */
  lemma {:induction false} EmptyHeaderDecodes(c: Crypto)
    ensures DecodeHeader(c, EMPTY_HEADER).Some? && DecodeHeader(c, EMPTY_HEADER).value.number == 0
  {
    var b := EMPTY_HEADER.bytes[32..37];
    DecodedValue(b);
    assert b[..1] == [0] && FromLE([0]) == 0;
    hide DecodeCompactInt;
  }

  /** Two zero-padded headers with the same content are the same header. */
  lemma {:induction false} SameContent(a: EncodedHeader, b: EncodedHeader)
    requires a.size <= MAX_HEADER_SIZE && b.size <= MAX_HEADER_SIZE
    requires ZeroPadded(a) && ZeroPadded(b) && Content(a) == Content(b)
    ensures a == b
  {
    assert |Content(a)| == a.size && |Content(b)| == b.size;
    forall i | 0 <= i < MAX_HEADER_SIZE
      ensures a.bytes[i] == b.bytes[i]
    {
      if i < a.size {
        assert a.bytes[i] == Content(a)[i] == Content(b)[i];
      }
    }
    assert a.bytes == b.bytes;
  }

  /** Two different header contents with one BLAKE2b hash. */
  ghost predicate HeadersCollide(c: Crypto, a: EncodedHeader, b: EncodedHeader) {
    && a.size <= MAX_HEADER_SIZE && b.size <= MAX_HEADER_SIZE
    && Content(a) != Content(b)
    && c.blake2b(Content(a)) == c.blake2b(Content(b))
  }

  // ----- in bytes

  /** The length of the block number's encoding, told by its first byte. */
  function NumberLength(first: Byte): nat {
    if first % 4 == 0 then 1 else if first % 4 == 1 then 2 else if first % 4 == 2 then 4 else 5
  }

  /** What the circuit reads of a header array: the parent hash in bytes 0 to 31, the compact number from
      byte 32 on, the state root right behind it, the data root in the last 32 of the first `size`
      bytes, and the hash of these. */
  lemma {:induction false} HeaderInBytes(c: Crypto, e: EncodedHeader, x: Block)
    ensures |e.bytes| == 35840
    ensures DecodeHeader(c, e) == Some(x) <==>
              && (e.size == 0 || 32 <= e.size <= 35840)
              && DecodeCompactInt(e.bytes[32..37]).Some?
              && x.number == DecodeCompactInt(e.bytes[32..37]).value.value
              && x.parentHash == e.bytes[0..32]
              && x.stateRoot == e.bytes[32 + NumberLength(e.bytes[32])..64 + NumberLength(e.bytes[32])]
              && x.dataRoot == (if e.size == 0 then e.bytes[0..32] else e.bytes[e.size - 32..e.size])
              && x.hash == c.blake2b(e.bytes[..e.size])
  {
    DecodedValue(e.bytes[32..37]);
    hide DecodeCompactInt;
  }

  /** A consensus log is its flag, four, the engine id, the compact length of the value, and the value; logs
      stand one after the other. */
  lemma {:induction false} LogsInBytes(engine: EngineId, value: Payload, logs: seq<DigestItem>)
    ensures EncodeLog(Consensus(engine, value)) == [4] + engine + CompactEncode(|value|) + value
    ensures EncodeLogs([]) == []
    ensures logs != [] ==> EncodeLogs(logs) == EncodeLog(logs[0]) + EncodeLogs(logs[1..])
  {
  }

  // ----- what the content decides

  /** The hashed content reaches to the end of the state root, wherever that is; so it covers every
      field that is decoded. */
  predicate FieldsCovered(e: EncodedHeader) {
    64 + ModeLength(e.bytes[32] % 4) <= e.size
  }

  lemma {:induction false} LongIsCovered(e: EncodedHeader)
    requires e.size >= 69
    ensures FieldsCovered(e)
  {
  }

  ghost predicate SameHashed(a: EncodedHeader, b: EncodedHeader) {
    a.size <= MAX_HEADER_SIZE && b.size <= MAX_HEADER_SIZE && Content(a) == Content(b)
  }

  /** Two headers with one content have the same bytes up to any place within the content. */
  lemma {:induction false} SameSlice(a: EncodedHeader, b: EncodedHeader, lo: nat, hi: nat)
    requires SameHashed(a, b) && lo <= hi <= a.size
    ensures a.size == b.size && a.bytes[lo..hi] == b.bytes[lo..hi]
  {
    assert |Content(a)| == a.size && |Content(b)| == b.size;
    SliceOfSlice(a.bytes, 0, a.size, lo, hi);
    SliceOfSlice(b.bytes, 0, b.size, lo, hi);
  }

  /** The block number is decided by the bytes that its mode uses. */
  lemma {:induction false} NumberDecided(x: Bytes, y: Bytes)
    requires |x| == |y| == 5 && x[0] == y[0]
    requires x[..ModeLength(x[0] % 4)] == y[..ModeLength(x[0] % 4)]
    ensures DecodeCompactInt(x) == DecodeCompactInt(y)
  {
    DecodedValue(x);
    DecodedValue(y);
    hide DecodeCompactInt;
    if x[0] % 4 == 3 {
      assert x[..5] == x && y[..5] == y;
    }
  }

  /** The content decides what a covered header decodes to. */
  lemma {:induction false} CoveredDecides(c: Crypto, a: EncodedHeader, b: EncodedHeader)
    requires FieldsCovered(a) && SameHashed(a, b)
    ensures FieldsCovered(b) && DecodeHeader(c, a) == DecodeHeader(c, b)
  {
    hide DecodeCompactInt, Content;
    var length := ModeLength(a.bytes[32] % 4);
    SameSlice(a, b, 32, 33);
    assert a.bytes[32] == a.bytes[32..33][0] && b.bytes[32] == b.bytes[32..33][0];
    SameSlice(a, b, 0, 32);
    SameSlice(a, b, 32, 32 + length);
    SameSlice(a, b, 32 + length, 64 + length);
    SameSlice(a, b, a.size - 32, a.size);
    var x, y := a.bytes[32..37], b.bytes[32..37];
    SliceOfSlice(a.bytes, 32, 37, 0, length);
    SliceOfSlice(b.bytes, 32, 37, 0, length);
    NumberDecided(x, y);
    DecodedValue(x);
  }

  /** The header with one byte behind the content changed: the last one of the state root. */
  function Tampered(e: EncodedHeader): (r: EncodedHeader) {
    var at := 63 + ModeLength(e.bytes[32] % 4);
    e.(bytes := e.bytes[at := if e.bytes[at] == 0 then 1 else 0])
  }

  /** A header that is not covered decodes to another state root, and nothing else changes, when a
      byte behind the content is changed. */
  lemma {:induction false} TamperedDiffers(c: Crypto, e: EncodedHeader)
    requires !FieldsCovered(e) && DecodeHeader(c, e).Some?
    ensures SameHashed(e, Tampered(e)) && DecodeHeader(c, Tampered(e)).Some?
    ensures var x, y := DecodeHeader(c, e).value, DecodeHeader(c, Tampered(e)).value;
            y == x.(stateRoot := y.stateRoot) && y.stateRoot != x.stateRoot
  {
    AcceptedSize(e);
    var t, length := Tampered(e), ModeLength(e.bytes[32] % 4);
    assert Content(t) == Content(e);
    assert t.bytes[32..37] == e.bytes[32..37] && t.bytes[0..32] == e.bytes[0..32];
    var at := DataRootStart(e.size) as nat;
    assert t.bytes[at..at + HASH_SIZE] == e.bytes[at..at + HASH_SIZE];
    DecodedValue(e.bytes[32..37]);
    hide DecodeCompactInt;
    assert t.bytes[32 + length..64 + length][31] != e.bytes[32 + length..64 + length][31];
  }

  /** The content decides what a header decodes to if and only if it covers the fields. */
  lemma {:induction false} ContentDecides(c: Crypto, e: EncodedHeader)
    requires DecodeHeader(c, e).Some?
    ensures (forall a: EncodedHeader | SameHashed(e, a) :: DecodeHeader(c, a) == DecodeHeader(c, e)) <==>
              FieldsCovered(e)
  {
    hide DecodeHeader, SameHashed, FieldsCovered, Tampered;
    if FieldsCovered(e) {
      forall a: EncodedHeader | SameHashed(e, a)
        ensures DecodeHeader(c, a) == DecodeHeader(c, e)
      {
        CoveredDecides(c, e, a);
      }
    } else {
      TamperedDiffers(c, e);
    }
  }

  /** The content of two headers decides what they decode to: one of them is covered, or both are
      zero-padded. */
  predicate Comparable(a: EncodedHeader, b: EncodedHeader) {
    FieldsCovered(a) || FieldsCovered(b) || (ZeroPadded(a) && ZeroPadded(b))
  }

  /** Then equal hashes mean equal blocks, or the contents collide. */
  lemma {:induction false} SameHash(c: Crypto, a: EncodedHeader, b: EncodedHeader, x: Block, y: Block)
    requires DecodeHeader(c, a) == Some(x) && DecodeHeader(c, b) == Some(y) && Comparable(a, b)
    ensures x.hash == y.hash ==> (SameHashed(a, b) && x == y) || HeadersCollide(c, a, b)
  {
    AcceptedSize(a);
    AcceptedSize(b);
    if Content(a) == Content(b) {
      if FieldsCovered(a) {
        CoveredDecides(c, a, b);
      } else if FieldsCovered(b) {
        CoveredDecides(c, b, a);
      } else {
        SameContent(a, b);
      }
    }
  }

  /** A header of size 40 that the decoder accepts: block 1, with a zero parent hash. */
  const SHORT_HEADER: EncodedHeader := PaddedBytes(Zeros(MAX_HEADER_SIZE)[32 := 4], 40)

  lemma {:induction false} ShortHeaderDecodes(c: Crypto)
    ensures !FieldsCovered(SHORT_HEADER) && DecodeHeader(c, SHORT_HEADER).Some?
    ensures var x := DecodeHeader(c, SHORT_HEADER).value; x.number == 1 && x.parentHash == ZERO32
  {
    var e := SHORT_HEADER;
    var b := e.bytes[32..37];
    DecodedValue(b);
    assert b[..1] == [4] && FromLE([4]) == 4;
    assert e.bytes[0..32] == ZERO32;
    hide DecodeCompactInt;
  }

  /** Every header of the chain is covered. */
  lemma {:induction false} ChainHeaderCovered(hd: Header)
    requires |EncodeHeader(hd)| <= MAX_HEADER_SIZE
    ensures FieldsCovered(PadHeader(hd))
  {
    hide EncodeLogs, CompactEncode;
    assert |EncodeHeader(hd)| >= 130;
    LongIsCovered(PadHeader(hd));
  }
}
