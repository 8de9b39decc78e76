/** Bytes, machine integers, and the cryptographic primitives every other module
    is parameterised by. */
module Basics {

  datatype Option<+T> = None | Some(value: T)

  type Byte = b: int | 0 <= b < 256
  type Bytes = seq<Byte>
  type Bytes32 = s: Bytes | |s| == 32 witness Zeros(32)

  const U32_BOUND: nat := 0x1_0000_0000
  const U64_BOUND: nat := 0x1_0000_0000_0000_0000
  type U32 = n: nat | n < U32_BOUND
  type U64 = n: nat | n < U64_BOUND

  function Zeros(n: nat): (z: Bytes)
    ensures |z| == n && forall i | 0 <= i < n :: z[i] == 0
  {
    seq(n, _ => 0)
  }

  const ZERO32: Bytes32 := Zeros(32)

  /** SHA-256 (FIPS 180-4), BLAKE2b-256 (RFC 7693) and Ed25519 verification (RFC 8032).
      Every result of this project holds for any choice of these three functions. */
  datatype Crypto = Crypto(
    sha256: Bytes -> Bytes32,
    blake2b: Bytes -> Bytes32,
    ed25519: (Bytes32, Bytes, Bytes) -> bool)

  /** u32 addition, subtraction and multiplication as the circuit gadgets compute them. */
  function Add32(a: U32, b: U32): U32 {
    if a + b < U32_BOUND then a + b else a + b - U32_BOUND
  }

  function Sub32(a: U32, b: U32): U32 {
    if a >= b then a - b else a - b + U32_BOUND
  }

  function Mul32(a: U32, b: U32): U32 {
    (a * b) % U32_BOUND
  }

  /** They are arithmetic modulo 2^32. */
  lemma {:induction false} U32Arithmetic(a: U32, b: U32)
    ensures Add32(a, b) == (a + b) % 4294967296
    ensures Sub32(a, b) == (a - b) % 4294967296
    ensures Mul32(a, b) == (a * b) % 4294967296
  {
    assert a < b ==> (a - b) % 4294967296 == a - b + 4294967296;
  }

  function Min(a: int, b: int): int {
    if a <= b then a else b
  }

  function Max(a: int, b: int): int {
    if a >= b then a else b
  }

  lemma {:induction false} SliceOfSlice<T>(s: seq<T>, lo: nat, hi: nat, a: nat, b: nat)
    requires lo <= hi <= |s| && a <= b <= hi - lo
    ensures s[lo..hi][a..b] == s[lo + a..lo + b]
  {
    var x, y := s[lo..hi][a..b], s[lo + a..lo + b];
    forall i | 0 <= i < b - a
      ensures x[i] == y[i]
    {
      assert x[i] == s[lo..hi][a + i] == s[lo + (a + i)];
      assert y[i] == s[(lo + a) + i];
    }
  }

  lemma {:induction false} PrefixNext<T>(a: seq<T>, b: seq<T>, k: nat)
    requires k < |b|
    ensures (a + b[..k]) + [b[k]] == a + b[..k + 1]
  {
  }

  /** Appends zero bytes up to length n, as `Vec::resize(n, 0)` does for a longer n. */
  function PadTo(b: Bytes, n: nat): (r: Bytes)
    requires |b| <= n
    ensures |r| == n && r[..|b|] == b
  {
    b + Zeros(n - |b|)
  }
}
