/**
 * The PHP built-ins the core calls but does not implement, as parameters of the
 * model: keyed hashing (HMAC, RFC 2104), the two key derivation functions (PBKDF2,
 * section 5.2 of RFC 8018; HKDF, RFC 5869), AES-CBC through OpenSSL (section 6.2 of
 * NIST SP 800-38A) and base64url. Nothing is assumed of them beyond the predicates
 * below, which the lemmas that need them take as preconditions.
 */
module Primitives {
  import opened ByteStrings
  import opened Errors

  /** The built-ins, each in PHP's argument order; `None` is a `false` return. */
  datatype Primitives = Primitives(
    // hash_hmac($algo, $data, $key, true): the raw digest
    hmac: (string, Bytes, Bytes) -> Option<Bytes>,
    // hash_pbkdf2($algo, $password, $salt, $iterations, $length, true); None: the \ValueError it throws
    pbkdf2: (string, Bytes, Bytes, int, nat) -> Option<Bytes>,
    // hash_hkdf($algo, $key, $length, $info, $salt); None: the \ValueError it throws
    hkdf: (string, Bytes, nat, string, Bytes) -> Option<Bytes>,
    // openssl_encrypt($data, $cipher, $key, OPENSSL_RAW_DATA, $iv)
    encrypt: (Bytes, string, Bytes, Bytes) -> Option<Bytes>,
    // openssl_decrypt($data, $cipher, $key, OPENSSL_RAW_DATA, $iv)
    decrypt: (Bytes, string, Bytes, Bytes) -> Option<Bytes>)

  /** For `algorithm`, HMAC never fails and its raw digest is always `n` bytes long. */
  ghost predicate HmacDigest(p: Primitives, algorithm: string, n: nat) {
    forall data: Bytes, key: Bytes ::
      p.hmac(algorithm, data, key).Some? && |p.hmac(algorithm, data, key).value| == n
  }

  /**
   * A derived key, when derivation succeeds, has the positive length asked for.
   * A length of 0 is left free: PHP's KDFs then return a full digest.
   */
  ghost predicate KdfLengths(p: Primitives) {
    && (forall algorithm, password, salt, iterations, length ::
          length > 0 && p.pbkdf2(algorithm, password, salt, iterations, length).Some? ==>
            |p.pbkdf2(algorithm, password, salt, iterations, length).value| == length)
    && (forall algorithm, key, length, info, salt ::
          length > 0 && p.hkdf(algorithm, key, length, info, salt).Some? ==>
            |p.hkdf(algorithm, key, length, info, salt).value| == length)
  }

  /** Decryption undoes encryption under the same cipher, key and IV. */
  ghost predicate CipherInverse(p: Primitives) {
    forall data, cipher, key, iv ::
      p.encrypt(data, cipher, key, iv).Some? ==>
        p.decrypt(p.encrypt(data, cipher, key, iv).value, cipher, key, iv) == Some(data)
  }

  /**
   * `StringHelper::base64UrlEncode` and `StringHelper::base64UrlDecode`. Encoded text
   * is a PHP string of base64url characters; decoding never fails, it yields fewer
   * bytes for malformed input.
   */
  datatype Base64Url = Base64Url(encode: Bytes -> string, decode: string -> Bytes)

  /** Decoding an encoding gives the bytes back. */
  ghost predicate RoundTrips(b: Base64Url) {
    forall s: Bytes :: b.decode(b.encode(s)) == s
  }
}
