/** Password digests as the application uses them: a digest is made once, at
    registration, from the password and a freshly drawn salt, and is later only
    checked against a candidate password.  The salted one-way function itself is
    not modelled; the digest keeps the salt and, as its image, the password
    itself, so digests of different passwords always differ.  Only Hash and
    Check look inside it. */
module Credentials {

  /** A stored password digest: the salt drawn when it was made and the image
      of the salted password. */
  datatype Digest = Digest(salt: nat, image: string)

  /** generate_password_hash: the salt is the random draw, passed in, and the
      digest records it. */
  function Hash(password: string, salt: nat): (d: Digest)
    ensures d.salt == salt
  {
    Digest(salt, password)
  }

  /** check_password_hash: true exactly when the digest is the one Hash makes
      from this password under the digest's own salt. */
  predicate Check(digest: Digest, password: string): (ok: bool)
    ensures ok <==> digest == Hash(password, digest.salt)
  {
    digest.image == password
  }

  /** A digest checks against the password that produced it, whatever the salt,
      and against no other password. */
  lemma HashThenCheck(password: string, salt: nat, attempt: string)
    ensures Check(Hash(password, salt), password)
    ensures Check(Hash(password, salt), attempt) <==> attempt == password
  {
  }
}
