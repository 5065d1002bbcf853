/** The password-hashing and token library, kept abstract: the model never
    looks inside a hash or a token. */
module Security {
  import opened Http

  /** The claims a decoded token carries; a claim may be absent. */
  datatype Claims = Claims(sub: Option<string>, role: Option<string>)

  /** `hash_password`, `verify_password`, `create_access_token` and
      `decode_token`. `decode` is `None` whenever the library rejects the
      token (bad signature, malformed, expired). `encode` does not see the
      clock: the expiry it writes is folded into the function. */
  datatype Crypto = Crypto(
    hash: string -> string,
    verify: (string, string) -> bool,
    encode: (string, string) -> string,
    decode: string -> Option<Claims>)

  /** Library assumption: a password verifies against its own hash. */
  ghost predicate HashVerifies(c: Crypto) {
    forall p :: c.verify(p, c.hash(p))
  }

  /** Library assumption: a hash fits the `password_hash` column (255 chars). */
  ghost predicate HashFitsColumn(c: Crypto) {
    forall p :: |c.hash(p)| <= 255
  }

  /** Library assumption, for a token still inside its lifetime: decoding a
      freshly issued token gives back its subject and role. */
  ghost predicate TokenRoundTrips(c: Crypto) {
    forall s, r :: c.decode(c.encode(s, r)) == Some(Claims(Some(s), Some(r)))
  }
}
