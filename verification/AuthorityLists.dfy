/** SCALE-encoded authority lists: a key and a weight of one for each authority. They occur in
    chain storage (`get_authorities`, circuits/input/mod.rs) and in epoch-end headers. */
module AuthorityLists {
  import opened Basics
  import opened Compact

  const VALIDATOR_LENGTH: nat := 40
  const WEIGHT_ONE: Bytes := [1, 0, 0, 0, 0, 0, 0, 0]

  function EncodeAuthorities(keys: seq<Bytes32>): (b: Bytes)
    ensures |b| == VALIDATOR_LENGTH * |keys|
  {
    if keys == [] then []
    else EncodeAuthorities(keys[..|keys| - 1]) + keys[|keys| - 1] + WEIGHT_ONE
  }

  /** The 40 bytes at a position are a key and a weight of one. */
  predicate RecordAt(bytes: Bytes, at: nat, key: Bytes32) {
    && at + VALIDATOR_LENGTH <= |bytes|
    && bytes[at..at + 32] == key
    && bytes[at + 32..at + 40] == WEIGHT_ONE
  }

  /** A record in bytes: the key, a one, and seven zeros. */
  lemma {:induction false} RecordInBytes(bytes: Bytes, at: nat, key: Bytes32)
    ensures RecordAt(bytes, at, key) <==>
              && at + 40 <= |bytes| && bytes[at..at + 32] == key && bytes[at + 32] == 1
              && forall i | at + 33 <= i < at + 40 :: bytes[i] == 0
  {
    if at + 40 <= |bytes| {
      var weight := bytes[at + 32..at + 40];
      assert weight == WEIGHT_ONE <==> weight[0] == 1 && forall i | 1 <= i < 8 :: weight[i] == 0;
      assert forall i | at + 33 <= i < at + 40 :: bytes[i] == weight[i - at - 32];
      assert forall i | 1 <= i < 8 :: weight[i] == bytes[at + 32 + i];
    }
  }

  lemma {:induction false} RecordsOfEncoding(keys: seq<Bytes32>, i: nat)
    requires i < |keys|
    ensures RecordAt(EncodeAuthorities(keys), 40 * i, keys[i])
  {
    var m := |keys| - 1;
    var b, init := EncodeAuthorities(keys), EncodeAuthorities(keys[..m]);
    if i == m {
    } else {
      RecordsOfEncoding(keys[..m], i);
      assert b[40 * i..40 * i + 32] == init[40 * i..40 * i + 32];
      assert b[40 * i + 32..40 * i + 40] == init[40 * i + 32..40 * i + 40];
    }
  }

  /** Records in a row are an encoding. */
  lemma {:induction false} EncodingOfRecords(bytes: Bytes, at: nat, keys: seq<Bytes32>)
    requires at + 40 * |keys| <= |bytes|
    requires forall i | 0 <= i < |keys| :: RecordAt(bytes, at + 40 * i, keys[i])
    ensures bytes[at..at + 40 * |keys|] == EncodeAuthorities(keys)
  {
    if keys == [] {
    } else {
      var m := |keys| - 1;
      forall i | 0 <= i < m
        ensures RecordAt(bytes, at + 40 * i, keys[..m][i])
      {
        assert RecordAt(bytes, at + 40 * i, keys[i]);
      }
      EncodingOfRecords(bytes, at, keys[..m]);
      assert RecordAt(bytes, at + 40 * m, keys[m]);
      assert bytes[at..at + 40 * |keys|] == bytes[at..at + 40 * m] + bytes[at + 40 * m..at + 40 * m + 32]
                                            + bytes[at + 40 * m + 32..at + 40 * m + 40];
    }
  }

  /** An encoding is records in a row. */
  lemma {:induction false} ListRecord(bytes: Bytes, at: nat, keys: seq<Bytes32>, i: nat)
    requires at + 40 * |keys| <= |bytes| && bytes[at..at + 40 * |keys|] == EncodeAuthorities(keys) && i < |keys|
    ensures RecordAt(bytes, at + 40 * i, keys[i])
  {
    RecordsOfEncoding(keys, i);
    hide EncodeAuthorities;
    SliceOfSlice(bytes, at, at + 40 * |keys|, 40 * i, 40 * i + 32);
    SliceOfSlice(bytes, at, at + 40 * |keys|, 40 * i + 32, 40 * i + 40);
  }

  lemma {:induction false} EncodingInjective(a: seq<Bytes32>, b: seq<Bytes32>)
    requires EncodeAuthorities(a) == EncodeAuthorities(b)
    ensures a == b
  {
    forall i | 0 <= i < |a|
      ensures a[i] == b[i]
    {
      RecordsOfEncoding(a, i);
      RecordsOfEncoding(b, i);
    }
  }

  // ----- get_authorities

  /** The bytes under the grandpa_authorities storage key: a version, the number of
      authorities, and the authorities. */
  function EncodeStorage(version: Byte, keys: seq<Bytes32>): Bytes
    requires |keys| < U32_BOUND
  {
    [version] + CompactEncode(|keys|) + EncodeAuthorities(keys)
  }

  /** Where the authorities are taken to start, judged by the length of the whole. */
  function AuthoritiesOffset(length: nat): (offset: nat)
    ensures offset == 2 || offset == 3
    ensures offset == 2 <==> length < 2523
  {
    if length <= 40 * 63 + 2 then 2 else 3
  }

  /** None stands for the panics: a length that is not a whole number of records, or a weight
      other than one. */
  method GetAuthorities(bytes: Bytes) returns (r: Option<seq<Bytes32>>)
    ensures r.Some? ==>
              && AuthoritiesOffset(|bytes|) <= |bytes|
              && bytes[AuthoritiesOffset(|bytes|)..] == EncodeAuthorities(r.value)
    ensures forall keys | AuthoritiesOffset(|bytes|) <= |bytes| ::
              bytes[AuthoritiesOffset(|bytes|)..] == EncodeAuthorities(keys) ==> r == Some(keys)
  {
    hide EncodeAuthorities;
    var offset := AuthoritiesOffset(|bytes|);
    if |bytes| < offset {
      return None;
    }
    var rest := bytes[offset..];
    if |rest| % VALIDATOR_LENGTH != 0 {
      return None;
    }
    var authorities: seq<Bytes32> := [];
    var n := |rest| / VALIDATOR_LENGTH;
    for i := 0 to n
      invariant |authorities| == i
      invariant forall k | 0 <= k < i :: RecordAt(rest, 40 * k, authorities[k])
    {
      var key: Bytes32 := rest[40 * i..40 * i + 32];
      authorities := authorities + [key];
      if rest[40 * i + 32..40 * i + 40] != WEIGHT_ONE {
        forall keys | rest == EncodeAuthorities(keys)
          ensures false
        {
          RecordsOfEncoding(keys, i);
        }
        return None;
      }
    }
    assert forall k | 0 <= k < n :: RecordAt(rest, 0 + 40 * k, authorities[k]);
    EncodingOfRecords(rest, 0, authorities);
    assert rest[0..40 * n] == rest;
    forall keys | rest == EncodeAuthorities(keys)
      ensures keys == authorities
    {
      EncodingInjective(keys, authorities);
    }
    r := Some(authorities);
  }

  /** The guess of the offset from the length is right exactly for fewer than 2^14 authorities:
      then the keys in storage are read back, otherwise reading fails. */
  lemma {:induction false} StorageOffset(version: Byte, keys: seq<Bytes32>)
    requires |keys| < U32_BOUND
    ensures var b := EncodeStorage(version, keys);
            var offset := AuthoritiesOffset(|b|);
            && offset <= |b|
            && (|keys| < 0x4000 ==> b[offset..] == EncodeAuthorities(keys))
            && (|keys| >= 0x4000 ==> forall other :: b[offset..] != EncodeAuthorities(other))
  {
    var b := EncodeStorage(version, keys);
    var offset := AuthoritiesOffset(|b|);
    assert |b| == 1 + |CompactEncode(|keys|)| + 40 * |keys|;
    if |keys| >= 0x4000 {
      assert |b[offset..]| == |b| - 3;
      assert (|b| - 3) % 40 != 0;
    }
  }
}
