/** Authority set commitments: the chained SHA-256 hash of the keys, off chain
    (circuits/input/mod.rs) and in the circuit (circuits/builder/justification.rs). */
module Authorities {
  import opened Basics

  /** Stands in for the library's dummy key, which fills up padded arrays. */
  const DUMMY_PUBLIC_KEY: Bytes32 := ZERO32

  /** SHA256(...SHA256(SHA256(key[0]) + key[1])... + key[n - 1]). */
  function AuthoritySetHash(c: Crypto, keys: seq<Bytes32>): Bytes32
    requires keys != []
  {
    if |keys| == 1 then c.sha256(keys[0])
    else c.sha256(AuthoritySetHash(c, keys[..|keys| - 1]) + keys[|keys| - 1])
  }

  /** `compute_authority_set_hash`: the running hash starts out as the empty vector. */
  method ComputeAuthoritySetHash(c: Crypto, keys: seq<Bytes32>) returns (hash: Bytes)
    ensures hash == if keys == [] then [] else AuthoritySetHash(c, keys)
  {
    hash := [];
    for i := 0 to |keys|
      invariant hash == if i == 0 then [] else AuthoritySetHash(c, keys[..i])
    {
      assert [] + keys[i] == keys[i];
      assert keys[..i + 1][..i] == keys[..i];
      hash := c.sha256(hash + keys[i]);
    }
    assert keys[..|keys|] == keys;
  }

  /** `compute_authority_set_commitment` over a padded array: None when the number of active
      authorities is zero. A number beyond the array never switches the flag off, so the whole
      array is committed to. */
  method ComputeAuthoritySetCommitment(c: Crypto, numActive: nat, signers: seq<Bytes32>) returns (r: Option<Bytes32>)
    requires signers != []
    ensures r == if numActive == 0 then None else Some(AuthoritySetHash(c, signers[..Min(numActive, |signers|)]))
  {
    if numActive == 0 {
      return None;
    }
    var enabled := true;
    var soFar: Bytes32 := c.sha256(signers[0]);
    assert signers[..1] == [signers[0]];
    for i := 1 to |signers|
      invariant enabled <==> i <= numActive
      invariant soFar == AuthoritySetHash(c, signers[..Min(numActive, i)])
    {
      enabled := enabled && i != numActive;
      assert signers[..i + 1][..i] == signers[..i];
      var chained := c.sha256(soFar + signers[i]);
      soFar := if enabled then chained else soFar;
    }
    r := Some(soFar);
  }

  /** One key is hashed alone; every further key is appended to the hash so far. */
  lemma {:induction false} HashOfMore(c: Crypto, keys: seq<Bytes32>, key: Bytes32)
    ensures AuthoritySetHash(c, [key]) == c.sha256(key)
    ensures keys != [] ==> AuthoritySetHash(c, keys + [key]) == c.sha256(AuthoritySetHash(c, keys) + key)
  {
    assert keys != [] ==> (keys + [key])[..|keys|] == keys;
  }

  // ----- binding

  /** The inputs hashed while a commitment is computed. */
  ghost function HashInputs(c: Crypto, keys: seq<Bytes32>): set<Bytes>
    requires keys != []
  {
    if |keys| == 1 then {keys[0]}
    else
      HashInputs(c, keys[..|keys| - 1]) + {AuthoritySetHash(c, keys[..|keys| - 1]) + keys[|keys| - 1]}
  }

  /** Two different inputs, one hashed for each commitment, with one SHA-256 hash. */
  ghost predicate CommitmentsCollide(c: Crypto, a: seq<Bytes32>, b: seq<Bytes32>)
    requires a != [] && b != []
  {
    exists x, y :: x in HashInputs(c, a) && y in HashInputs(c, b) && x != y && c.sha256(x) == c.sha256(y)
  }

  /** The input hashed last. */
  ghost function LastInput(c: Crypto, keys: seq<Bytes32>): (x: Bytes)
    requires keys != []
    ensures x in HashInputs(c, keys) && c.sha256(x) == AuthoritySetHash(c, keys)
    ensures |x| == if |keys| == 1 then 32 else 64
  {
    if |keys| == 1 then keys[0]
    else AuthoritySetHash(c, keys[..|keys| - 1]) + keys[|keys| - 1]
  }

  /** Equal commitments are commitments to the same keys in the same order, or two of the inputs
      hashed for them collide. */
  lemma {:induction false} CommitmentBinds(c: Crypto, a: seq<Bytes32>, b: seq<Bytes32>)
    requires a != [] && b != [] && AuthoritySetHash(c, a) == AuthoritySetHash(c, b)
    ensures a == b || CommitmentsCollide(c, a, b)
  {
    var x, y := LastInput(c, a), LastInput(c, b);
    if x == y {
      if |a| > 1 {
        var a', b' := a[..|a| - 1], b[..|b| - 1];
        assert AuthoritySetHash(c, a') == x[..32] == y[..32] == AuthoritySetHash(c, b');
        assert a[|a| - 1] == x[32..] == y[32..] == b[|b| - 1];
        CommitmentBinds(c, a', b');
        assert a == a' + [a[|a| - 1]] && b == b' + [b[|b| - 1]];
      } else {
        assert a == [a[0]] && b == [b[0]];
      }
    }
  }
}
