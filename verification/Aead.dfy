/**
 * Deterministic authenticated encryption as a parameter: the ciphers themselves are foreign, and
 * `Lawful` says what RFC 5297 section 2.7 and RFC 8452 section 5 promise of them with no associated data
 * and a fixed nonce.
 */
module Aead {
  import opened Basics
  import opened Types

  datatype Cipher = Cipher(
    seal: (seq<byte>, Key, Alg) -> seq<byte>,
    open: (seq<byte>, Key, Alg) -> Option<seq<byte>>,
    gcmSiv: bool)  // whether algorithm code 1 is compiled in

  const OVERHEAD: nat := 16

  /** Opening inverts sealing, nothing else opens, and sealing adds sixteen bytes. */
  ghost predicate Lawful(c: Cipher)
  {
    && (forall p, k, a :: c.open(c.seal(p, k, a), k, a) == Some(p) && |c.seal(p, k, a)| == |p| + OVERHEAD)
    && (forall s, k, a :: c.open(s, k, a).Some? ==> c.seal(c.open(s, k, a).value, k, a) == s)
  }

  predicate CompiledIn(c: Cipher, alg: Alg)
  {
    alg == Siv || c.gcmSiv
  }

  function Seal(c: Cipher, plain: seq<byte>, key: Key, alg: Alg): (r: Result<seq<byte>, MintError>)
  {
    if CompiledIn(c, alg) then Ok(c.seal(plain, key, alg)) else Err(UnsupportedAlg(alg))
  }

  function Open(c: Cipher, sealed: seq<byte>, key: Key, alg: Alg): (r: Option<seq<byte>>)
  {
    if CompiledIn(c, alg) then c.open(sealed, key, alg) else None
  }

  /** A half opens to a plaintext exactly when sealing that plaintext gives the half. */
  lemma OpensIffSealed(c: Cipher, sealed: seq<byte>, plain: seq<byte>, key: Key, alg: Alg)
    requires Lawful(c)
    ensures Open(c, sealed, key, alg) == Some(plain) <==> Seal(c, plain, key, alg) == Ok(sealed)
    ensures Seal(c, plain, key, alg).Ok? ==> |Seal(c, plain, key, alg).value| == |plain| + OVERHEAD
  {
    assert c.open(c.seal(plain, key, alg), key, alg) == Some(plain);
  }

  /** The laws are consistent: a toy cipher that prefixes sixteen zero bytes keeps them. */
  lemma LawfulCiphersExist()
    ensures exists c: Cipher :: Lawful(c)
  {
    var zeros: seq<byte> := seq(16, _ => 0);
    var toy := Cipher(
      (p: seq<byte>, k: Key, a: Alg) => zeros + p,
      (s: seq<byte>, k: Key, a: Alg) => if |s| >= 16 && s[..16] == zeros then Some(s[16..]) else None,
      true);
    forall p: seq<byte>, k: Key, a: Alg
      ensures toy.open(toy.seal(p, k, a), k, a) == Some(p) && |toy.seal(p, k, a)| == |p| + OVERHEAD
    {
      assert (zeros + p)[..16] == zeros && (zeros + p)[16..] == p;
    }
    forall s: seq<byte>, k: Key, a: Alg | toy.open(s, k, a).Some?
      ensures toy.seal(toy.open(s, k, a).value, k, a) == s
    {
      assert zeros + s[16..] == s;
    }
    assert Lawful(toy);
  }
}
