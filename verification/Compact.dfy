/** SCALE compact integers (circuits/builder/decoder.rs) and little-endian integers. */
module Compact {
  import opened Basics

  function Pow256(k: nat): (p: nat)
    ensures p > 0
  {
    if k == 0 then 1 else 256 * Pow256(k - 1)
  }

  function Pow2(k: nat): (p: nat)
    ensures p > 0
  {
    if k == 0 then 1 else 2 * Pow2(k - 1)
  }

  // ----- little-endian byte strings

  function LE(n: nat, k: nat): (b: Bytes)
    ensures |b| == k
  {
    if k == 0 then [] else [n % 256] + LE(n / 256, k - 1)
  }

  function FromLE(b: Bytes): nat {
    if b == [] then 0 else b[0] + 256 * FromLE(b[1..])
  }

  lemma {:induction false} FromLEInvertsLE(n: nat, k: nat)
    requires n < Pow256(k)
    ensures FromLE(LE(n, k)) == n
  {
    if k == 0 {
    } else {
      FromLEInvertsLE(n / 256, k - 1);
      assert LE(n, k)[1..] == LE(n / 256, k - 1);
    }
  }

  lemma {:induction false} LEInvertsFromLE(b: Bytes)
    ensures LE(FromLE(b), |b|) == b && FromLE(b) < Pow256(|b|)
  {
    if b == [] {
    } else {
      LEInvertsFromLE(b[1..]);
      assert FromLE(b) / 256 == FromLE(b[1..]) && FromLE(b) % 256 == b[0];
    }
  }

  /** Big-endian reading, the order in which circuit variables decode their bytes. */
  function FromBE(b: Bytes): nat {
    if b == [] then 0 else 256 * FromBE(b[..|b| - 1]) + b[|b| - 1]
  }

  function Reversed(b: Bytes): (r: Bytes)
    ensures |r| == |b|
  {
    if b == [] then [] else Reversed(b[1..]) + [b[0]]
  }

  lemma {:induction false} ReversedBEIsLE(b: Bytes)
    ensures FromBE(Reversed(b)) == FromLE(b)
  {
    if b == [] {
    } else {
      var r := Reversed(b);
      assert r[..|r| - 1] == Reversed(b[1..]);
      ReversedBEIsLE(b[1..]);
    }
  }

  // ----- bits

  /** The k lowest bits of n, least significant first. */
  function BitsOf(n: nat, k: nat): (bits: seq<bool>)
    ensures |bits| == k
  {
    if k == 0 then [] else [n % 2 == 1] + BitsOf(n / 2, k - 1)
  }

  function FlatBits(b: Bytes): (bits: seq<bool>)
    ensures |bits| == 8 * |b|
  {
    if b == [] then [] else BitsOf(b[0], 8) + FlatBits(b[1..])
  }

  /** The `le_sum` gadget: sum of bit times 2^i. */
  function LeSum(bits: seq<bool>): nat {
    if bits == [] then 0 else (if bits[0] then 1 else 0) + 2 * LeSum(bits[1..])
  }

  lemma {:induction false} LeSumOfBits(n: nat, k: nat)
    requires n < Pow2(k)
    ensures LeSum(BitsOf(n, k)) == n
  {
    if k == 0 {
    } else {
      LeSumOfBits(n / 2, k - 1);
      assert BitsOf(n, k)[1..] == BitsOf(n / 2, k - 1);
    }
  }

  lemma {:induction false} LeSumBound(bits: seq<bool>)
    ensures LeSum(bits) < Pow2(|bits|)
  {
    if bits == [] {
    } else {
      LeSumBound(bits[1..]);
    }
  }

  /** x times 2^k. */
  function Shift(x: nat, k: nat): nat {
    if k == 0 then x else 2 * Shift(x, k - 1)
  }

  lemma {:induction false} ShiftBy(x: nat)
    ensures Shift(x, 2) == 4 * x && Shift(x, 8) == 256 * x
  {
    assert Shift(x, 2) == 2 * Shift(x, 1);
    assert Shift(x, 4) == 2 * Shift(x, 3) == 16 * x;
    assert Shift(x, 6) == 2 * Shift(x, 5) == 64 * x;
    assert Shift(x, 8) == 2 * Shift(x, 7);
  }

  lemma {:induction false} LeSumConcat(a: seq<bool>, b: seq<bool>)
    ensures LeSum(a + b) == LeSum(a) + Shift(LeSum(b), |a|)
  {
    if a == [] {
      assert a + b == b;
    } else {
      LeSumConcat(a[1..], b);
      assert (a + b)[1..] == a[1..] + b;
    }
  }

  lemma {:induction false} LeSumFlat(b: Bytes)
    ensures LeSum(FlatBits(b)) == FromLE(b)
  {
    if b == [] {
    } else {
      LeSumFlat(b[1..]);
      assert Pow2(8) == 256;
      LeSumOfBits(b[0], 8);
      ShiftBy(LeSum(FlatBits(b[1..])));
      LeSumConcat(BitsOf(b[0], 8), FlatBits(b[1..]));
    }
  }

  /** Bits lo..hi of a bit string read a digit group of its value. */
  lemma {:induction false} LeSumSlice(bits: seq<bool>, lo: nat, hi: nat)
    requires lo <= hi <= |bits|
    ensures LeSum(bits[..hi]) == LeSum(bits[..lo]) + Shift(LeSum(bits[lo..hi]), lo)
    ensures LeSum(bits[..lo]) < Pow2(lo)
    ensures LeSum(bits[lo..hi]) < Pow2(hi - lo)
  {
    assert bits[..hi] == bits[..lo] + bits[lo..hi];
    LeSumConcat(bits[..lo], bits[lo..hi]);
    LeSumBound(bits[..lo]);
    LeSumBound(bits[lo..hi]);
  }

  // ----- the circuit decoder

  datatype CompactInt = CompactInt(value: U32, mode: nat)

  /** `decode_compact_int` on five bytes: the value and its compress mode, or None when
      the mode-3 length check fails. */
  function DecodeCompactInt(b: Bytes): (r: Option<CompactInt>)
    requires |b| == 5
  {
    var bits := FlatBits(b);
    DecodeArithmetic(b);
    var mode := LeSum(bits[0..2]);
    var value := [LeSum(bits[2..8]), LeSum(bits[2..16]), LeSum(bits[2..32]), LeSum(bits[8..40])][mode];
    if mode == 3 && LeSum(bits[2..8]) != 0 then None else Some(CompactInt(value, mode))
  }

  /** The bit sums of the decoder in byte arithmetic. */
  lemma {:induction false} DecodeArithmetic(b: Bytes)
    requires |b| == 5
    ensures var bits := FlatBits(b);
            && LeSum(bits[0..2]) == b[0] % 4
            && LeSum(bits[2..8]) == b[0] / 4
            && LeSum(bits[2..16]) == FromLE(b[..2]) / 4 < 0x4000
            && LeSum(bits[2..32]) == FromLE(b[..4]) / 4 < 0x4000_0000
            && LeSum(bits[8..40]) == FromLE(b[1..]) < U32_BOUND
  {
    var bits := FlatBits(b);
    assert bits[0..2] == bits[..2];
    UpperSix(b, 1);
    UpperSix(b, 2);
    UpperSix(b, 4);
    assert b[..1] == [b[0]];
    assert FromLE([b[0]]) == b[0];
    PowersOfTwo();
    LeSumBound(bits[2..16]);
    LeSumBound(bits[2..32]);
    WordBits(b);
  }

  lemma {:induction false} WordBits(b: Bytes)
    requires |b| == 5
    ensures LeSum(FlatBits(b)[8..40]) == FromLE(b[1..]) < U32_BOUND
  {
    var bits := FlatBits(b);
    assert bits[8..40] == FlatBits(b[1..]);
    LeSumFlat(b[1..]);
    LeSumBound(bits[8..40]);
    PowersOfTwo();
  }

  lemma {:induction false} PowersOfTwo()
    ensures Pow2(2) == 4 && Pow2(14) == 0x4000 && Pow2(30) == 0x4000_0000 && Pow2(32) == U32_BOUND
  {
    assert Pow2(8) == 256;
    assert Pow2(14) == 64 * Pow2(8);
    assert Pow2(22) == 256 * Pow2(14);
    assert Pow2(30) == 256 * Pow2(22);
  }

  /** The lowest two bits of the first k bytes, and what is above them. */
  lemma {:induction false} UpperSix(b: Bytes, k: nat)
    requires 0 < k <= |b|
    ensures var bits := FlatBits(b);
            && LeSum(bits[2..8 * k]) == FromLE(b[..k]) / 4
            && LeSum(bits[..2]) == FromLE(b[..k]) % 4
  {
    var bits := FlatBits(b);
    FlatPrefix(b, k);
    LeSumSlice(bits, 2, 8 * k);
    ShiftBy(LeSum(bits[2..8 * k]));
    assert Pow2(2) == 4;
  }

  lemma {:induction false} FlatPrefix(b: Bytes, k: nat)
    requires k <= |b|
    ensures LeSum(FlatBits(b)[..8 * k]) == FromLE(b[..k])
  {
    FlatConcat(b[..k], b[k..]);
    assert b == b[..k] + b[k..];
    LeSumFlat(b[..k]);
  }

  lemma {:induction false} FlatConcat(a: Bytes, b: Bytes)
    ensures FlatBits(a + b) == FlatBits(a) + FlatBits(b)
  {
    if a == [] {
      assert a + b == b;
    } else {
      assert (a + b)[1..] == a[1..] + b;
      FlatConcat(a[1..], b);
    }
  }

  // ----- SCALE compact encoding

  function CompactMode(n: U32): (m: nat)
    ensures m < 4
  {
    if n < 0x40 then 0 else if n < 0x4000 then 1 else if n < 0x4000_0000 then 2 else 3
  }

  /** Encoded length for each compress mode. */
  function ModeLength(mode: nat): nat
    requires mode < 4
  {
    [1, 2, 4, 5][mode]
  }

  function CompactEncode(n: U32): (b: Bytes)
    ensures |b| == ModeLength(CompactMode(n))
  {
    if n < 0x40 then [4 * n]
    else if n < 0x4000 then LE(4 * n + 1, 2)
    else if n < 0x4000_0000 then LE(4 * n + 2, 4)
    else [3] + LE(n, 4)
  }

  /** The circuit decoder inverts the encoding of every u32, whatever bytes follow. */
  lemma {:induction false} CompactRoundTrip(n: U32, b: Bytes)
    requires |b| == 5
    requires CompactEncode(n) <= b
    ensures DecodeCompactInt(b) == Some(CompactInt(n, CompactMode(n)))
  {
    var e := CompactEncode(n);
    DecodedValue(b);
    assert b[..|e|] == e;
    EncodedValue(n);
    if n >= 0x4000_0000 {
      assert b[1..] == e[1..];
    }
  }

  /** The number an encoding denotes, by mode. */
  lemma {:induction false} EncodedValue(n: U32)
    ensures var e, m := CompactEncode(n), CompactMode(n);
            && e[0] % 4 == m
            && (m == 3 ==> e[0] == 3 && FromLE(e[1..]) == n)
            && (m < 3 ==> FromLE(e) == 4 * n + m)
  {
    assert Pow256(2) == 0x1_0000 && Pow256(4) == U32_BOUND;
    hide Pow256, LE, FromLE;
    if n < 0x40 {
      OneDigit(4 * n);
    } else if n < 0x4000 {
      Tagged(n, 1, 2);
    } else if n < 0x4000_0000 {
      Tagged(n, 2, 4);
    } else {
      FromLEInvertsLE(n, 4);
      assert CompactEncode(n)[1..] == LE(n, 4);
    }
  }

  lemma {:induction false} OneDigit(d: Byte)
    ensures FromLE([d]) == d
  {
  }

  /** A number above two mode bits. */
  lemma {:induction false} Tagged(n: nat, m: nat, k: nat)
    requires m < 3 && k > 0 && 4 * n + m < Pow256(k)
    ensures LE(4 * n + m, k)[0] % 4 == m && FromLE(LE(4 * n + m, k)) == 4 * n + m
  {
    FromLEInvertsLE(4 * n + m, k);
    hide Pow256, FromLE;
    assert LE(4 * n + m, k)[0] == (4 * n + m) % 256;
  }

  /** What the decoder accepts: the value read is the one denoted by the mode's bytes. */
  lemma {:induction false} DecodedValue(b: Bytes)
    requires |b| == 5
    ensures DecodeCompactInt(b).None? <==> b[0] % 4 == 3 && b[0] != 3
    ensures DecodeCompactInt(b).Some? ==>
              var r := DecodeCompactInt(b).value;
              && r.mode == b[0] % 4
              && (r.mode == 3 ==> r.value == FromLE(b[1..]))
              && (r.mode < 3 ==> 4 * r.value + r.mode == FromLE(b[..ModeLength(r.mode)]))
  {
    DecodeArithmetic(b);
    LowestDigit(b, 1);
    LowestDigit(b, 2);
    LowestDigit(b, 4);
    assert FromLE([b[0]]) == b[0];
    assert b[..1] == [b[0]];
  }

  lemma {:induction false} LowestDigit(b: Bytes, k: nat)
    requires 0 < k <= |b|
    ensures FromLE(b[..k]) % 4 == b[0] % 4
  {
    assert b[..k][0] == b[0];
    assert FromLE(b[..k]) == b[0] + 4 * (64 * FromLE(b[..k][1..]));
  }

  // ----- in numbers

  /** Four digits to the base of 256, lowest first. */
  function Word(a: nat, b: nat, c: nat, d: nat): (w: nat)
    ensures a < 256 && b < 256 && c < 256 && d < 256 ==> w < U32_BOUND
  {
    a + 256 * b + 65536 * c + 16777216 * d
  }

  /** Little-endian words of four and of eight bytes. */
  lemma {:induction false} WordInNumbers(b: Bytes)
    requires |b| == 4 || |b| == 8
    ensures |b| == 4 ==> FromLE(b) == Word(b[0], b[1], b[2], b[3])
    ensures |b| == 8 ==>
              FromLE(b) == Word(b[0], b[1], b[2], b[3]) + 4294967296 * Word(b[4], b[5], b[6], b[7])
  {
    FourDigits(b, if |b| == 8 then b[4..] else []);
    assert b[..4] + b[4..] == b;
    if |b| == 8 {
      FourDigits(b[4..], []);
    }
  }

  lemma {:induction false} FourDigits(b: Bytes, rest: Bytes)
    requires |b| >= 4 && b[4..] == rest
    ensures FromLE(b) == Word(b[0], b[1], b[2], b[3]) + 4294967296 * FromLE(rest)
  {
    assert b[1..][1..] == b[2..] && b[2..][1..] == b[3..] && b[3..][1..] == rest;
    NextDigit(b);
    NextDigit(b[1..]);
    NextDigit(b[2..]);
    NextDigit(b[3..]);
    hide FromLE;
  }

  lemma {:induction false} NextDigit(b: Bytes)
    requires b != []
    ensures FromLE(b) == b[0] as nat + 256 * FromLE(b[1..])
  {
  }

  /** What the circuit reads, byte by byte: the two lowest bits of the first byte are the mode, which says
      whether the number takes one, two, four or the next four bytes. */
  lemma {:induction false} CompactInNumbers(b: Bytes)
    requires |b| == 5
    ensures DecodeCompactInt(b) ==
            if b[0] % 4 == 0 then Some(CompactInt(b[0] / 4, 0))
            else if b[0] % 4 == 1 then Some(CompactInt(Word(b[0], b[1], 0, 0) / 4, 1))
            else if b[0] % 4 == 2 then Some(CompactInt(Word(b[0], b[1], b[2], b[3]) / 4, 2))
            else if b[0] == 3 then Some(CompactInt(Word(b[1], b[2], b[3], b[4]), 3))
            else None
  {
    hide DecodeCompactInt, FromLE, Word;
    DecodedValue(b);
    PrefixWords(b);
  }

  lemma {:induction false} PrefixWords(b: Bytes)
    requires |b| == 5
    ensures FromLE(b[..1]) == b[0] && FromLE(b[..2]) == Word(b[0], b[1], 0, 0)
    ensures FromLE(b[..4]) == Word(b[0], b[1], b[2], b[3]) && FromLE(b[1..]) == Word(b[1], b[2], b[3], b[4])
  {
    WordInNumbers(b[..4]);
    WordInNumbers(b[1..]);
    assert b[..1][1..] == [] && b[..2][1..] == [b[1]] && [b[1]][1..] == [] && FromLE([]) == 0;
    NextDigit(b[..1]);
    NextDigit(b[..2]);
    NextDigit([b[1]]);
    hide FromLE;
  }

  /** A number is encoded in as few bytes as the modes allow. */
  lemma {:induction false} EncodedLength(n: U32)
    ensures |CompactEncode(n)| == if n < 64 then 1 else if n < 16384 then 2 else if n < 1073741824 then 4 else 5
    ensures CompactEncode(n)[0] % 4 == CompactMode(n)
  {
    EncodedValue(n);
    hide LE;
  }
}
