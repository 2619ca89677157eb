/**
 * A stand-in for werkzeug's salted password hashing (`generate_password_hash`
 * and `check_password_hash`). The real digest is a foreign cryptographic
 * function and the salt is random; here the salt is a parameter supplied by
 * the caller and the digest is a symbolic, injective encoding of the password
 * under that salt. What the rest of the model relies on is only the pair of
 * facts proved below: a hash verifies against the password it was made from,
 * and against no other.
 */
module Credentials {

  /** A stored password: never the plaintext, always a salt and a digest. */
  datatype PasswordHash = PasswordHash(salt: nat, digest: seq<int>)

  function Digest(salt: nat, password: string): (d: seq<int>)
    ensures |d| == |password|
  {
    seq(|password|, i requires 0 <= i < |password| => password[i] as int + salt)
  }

  /** generate_password_hash(password), with the random salt made explicit. */
  function Hash(salt: nat, password: string): (h: PasswordHash)
    ensures h.salt == salt
  {
    PasswordHash(salt, Digest(salt, password))
  }

  /** check_password_hash(stored, password): recompute with the stored salt and compare. */
  predicate Check(stored: PasswordHash, password: string)
  {
    stored.digest == Digest(stored.salt, password)
  }

  /** Equal digests under one salt come from equal passwords. */
  lemma {:induction false} DigestInjective(salt: nat, p: string, q: string)
    requires Digest(salt, p) == Digest(salt, q)
    ensures p == q
  {
    assert |p| == |q|;
    forall i | 0 <= i < |p|
      ensures p[i] == q[i]
    {
      assert Digest(salt, p)[i] == Digest(salt, q)[i];
    }
  }

  /** A freshly made hash verifies exactly the password it was made from. */
  lemma CheckHash(salt: nat, password: string, attempt: string)
    ensures Check(Hash(salt, password), attempt) <==> attempt == password
  {
    if Check(Hash(salt, password), attempt) {
      DigestInjective(salt, password, attempt);
    }
  }

  /** Hashing the same password under two salts stores two different values. */
  lemma SaltsDiffer(s1: nat, s2: nat, password: string)
    requires s1 != s2
    ensures Hash(s1, password) != Hash(s2, password)
    ensures Check(Hash(s1, password), password) && Check(Hash(s2, password), password)
  {
  }
}
