/**
 * `Crypt`: encrypt-then-MAC envelopes under a password or a key.
 *
 * The envelope is `keySalt ‖ tag ‖ iv ‖ ciphertext`, where `keySalt` is keySize
 * bytes, `iv` blockSize bytes, and `tag` the lowercase hexadecimal HMAC-SHA256 of
 * `iv ‖ ciphertext` under a key derived from the encryption key. The random salt
 * and IV are parameters.
 */
module Crypt {
  import opened ByteStrings
  import opened Errors
  import opened Primitives
  import Mac

  /** A cipher's block size and key size in bytes. */
  datatype CipherSizes = CipherSizes(blockSize: nat, keySize: nat)

  /** `ALLOWED_CIPHERS`: the ciphers a Crypt may use. */
  const AllowedCiphers: map<string, CipherSizes> := map[
    "AES-128-CBC" := CipherSizes(16, 16),
    "AES-192-CBC" := CipherSizes(16, 24),
    "AES-256-CBC" := CipherSizes(16, 32)]

  /** The constructor's default `$cipher`. */
  const DefaultCipher: string := "AES-128-CBC"
  const DefaultKdfAlgorithm: string := "sha256"
  const DefaultAuthorizationKeyInfo: string := "AuthorizationKey"
  const DefaultDerivationIterations: int := 100000

  /** A Crypt's settings. Values of this type are never changed, only copied. */
  datatype Config = Config(
    cipher: string,
    kdfAlgorithm: string,
    authorizationKeyInfo: string,
    derivationIterations: int)

  /** What the constructor guarantees of every Crypt. */
  predicate Valid(c: Config) {
    c.cipher in AllowedCiphers
  }

  function BlockSize(c: Config): nat
    requires Valid(c)
  {
    AllowedCiphers[c.cipher].blockSize
  }

  function KeySize(c: Config): nat
    requires Valid(c)
  {
    AllowedCiphers[c.cipher].keySize
  }

  /**
   * The constructor: only the three AES-CBC ciphers are accepted, each with a
   * 16-byte block and a 16, 24 or 32-byte key; the other settings start at their
   * defaults.
   */
  function New(cipher: string): (r: Result<Config>)
    ensures r.Ok? <==> cipher == "AES-128-CBC" || cipher == "AES-192-CBC" || cipher == "AES-256-CBC"
    ensures r.Err? ==> r.error == CipherNotAllowed
    ensures r.Ok? ==> Valid(r.value) && r.value.cipher == cipher && BlockSize(r.value) == 16
    ensures r.Ok? ==> KeySize(r.value) == (if cipher == "AES-128-CBC" then 16 else if cipher == "AES-192-CBC" then 24 else 32)
    ensures r.Ok? ==> && r.value.kdfAlgorithm == DefaultKdfAlgorithm
                      && r.value.authorizationKeyInfo == DefaultAuthorizationKeyInfo
                      && r.value.derivationIterations == DefaultDerivationIterations
  {
    if cipher in AllowedCiphers
    then Ok(Config(cipher, DefaultKdfAlgorithm, DefaultAuthorizationKeyInfo, DefaultDerivationIterations))
    else Err(CipherNotAllowed)
  }

  /** `new Crypt()` with no argument uses AES-128-CBC: a 16-byte block and a 16-byte key. */
  lemma DefaultCipherSizes()
    ensures New(DefaultCipher).Ok?
    ensures BlockSize(New(DefaultCipher).value) == 16 && KeySize(New(DefaultCipher).value) == 16
  {
  }

  /** `withKdfAlgorithm`: a copy with another key derivation hash algorithm. */
  function WithKdfAlgorithm(c: Config, algorithm: string): (r: Config)
    ensures r.kdfAlgorithm == algorithm
    ensures r.cipher == c.cipher && r.authorizationKeyInfo == c.authorizationKeyInfo
    ensures r.derivationIterations == c.derivationIterations
    ensures Valid(c) ==> Valid(r)
  {
    c.(kdfAlgorithm := algorithm)
  }

  /** `withAuthorizationKeyInfo`: a copy with another HKDF info for the authentication key. */
  function WithAuthorizationKeyInfo(c: Config, info: string): (r: Config)
    ensures r.authorizationKeyInfo == info
    ensures r.cipher == c.cipher && r.kdfAlgorithm == c.kdfAlgorithm
    ensures r.derivationIterations == c.derivationIterations
    ensures Valid(c) ==> Valid(r)
  {
    c.(authorizationKeyInfo := info)
  }

  /** `withDerivationIterations`: a copy with another PBKDF2 iteration count. */
  function WithDerivationIterations(c: Config, iterations: int): (r: Config)
    ensures r.derivationIterations == iterations
    ensures r.cipher == c.cipher && r.kdfAlgorithm == c.kdfAlgorithm
    ensures r.authorizationKeyInfo == c.authorizationKeyInfo
    ensures Valid(c) ==> Valid(r)
  {
    c.(derivationIterations := iterations)
  }

  /**
   * The setters touch one field each, so setting two different fields gives the same
   * configuration in either order, and a second setting of a field replaces the first.
   */
  lemma SettersIndependent(c: Config, algorithm: string, algorithm': string, info: string, iterations: int)
    ensures WithAuthorizationKeyInfo(WithKdfAlgorithm(c, algorithm), info)
         == WithKdfAlgorithm(WithAuthorizationKeyInfo(c, info), algorithm)
    ensures WithDerivationIterations(WithKdfAlgorithm(c, algorithm), iterations)
         == WithKdfAlgorithm(WithDerivationIterations(c, iterations), algorithm)
    ensures WithDerivationIterations(WithAuthorizationKeyInfo(c, info), iterations)
         == WithAuthorizationKeyInfo(WithDerivationIterations(c, iterations), info)
    ensures WithKdfAlgorithm(WithKdfAlgorithm(c, algorithm'), algorithm) == WithKdfAlgorithm(c, algorithm)
  {
  }

  /**
   * The encryption key: PBKDF2 over the password with the configured hash and
   * iteration count, or HKDF over the input key with `info`; salted with `keySalt`.
   */
  function DeriveKey(p: Primitives, c: Config, passwordBased: bool, secret: Bytes, info: string, keySalt: Bytes): (r: Result<Bytes>)
    requires Valid(c)
    ensures r.Err? ==> r.error == PrimitiveError
    ensures KdfLengths(p) && r.Ok? ==> |r.value| == KeySize(c)
  {
    if passwordBased
    then p.pbkdf2(c.kdfAlgorithm, secret, keySalt, c.derivationIterations, KeySize(c)).ToResult(PrimitiveError)
    else p.hkdf(c.kdfAlgorithm, secret, KeySize(c), info, keySalt).ToResult(PrimitiveError)
  }

  /** The authentication key: HKDF over the encryption key with `authorizationKeyInfo` and no salt. */
  function AuthKey(p: Primitives, c: Config, key: Bytes): (r: Result<Bytes>)
    requires Valid(c)
    ensures r.Err? ==> r.error == PrimitiveError
    ensures KdfLengths(p) && r.Ok? ==> |r.value| == KeySize(c)
  {
    p.hkdf(c.kdfAlgorithm, key, KeySize(c), c.authorizationKeyInfo, []).ToResult(PrimitiveError)
  }

  /** `encrypt`: derive the key, encrypt, then sign `iv ‖ ciphertext` and put the salt in front. */
  function Encrypt(p: Primitives, c: Config, data: Bytes, passwordBased: bool, secret: Bytes, info: string,
                   keySalt: Bytes, iv: Bytes): (r: Result<Bytes>)
    requires Valid(c) && |keySalt| == KeySize(c) && |iv| == BlockSize(c)
    ensures r.Ok? ==> |r.value| > KeySize(c) + BlockSize(c) && r.value[..KeySize(c)] == keySalt
    ensures r.Err? ==> r.error in {PrimitiveError, OpenSslFailure, HmacFailure}
  {
    var key :- DeriveKey(p, c, passwordBased, secret, info, keySalt);
    var encrypted :- p.encrypt(data, c.cipher, key, iv).ToResult(OpenSslFailure);
    var authKey :- AuthKey(p, c, key);
    var signed :- Mac.Sign(p, Mac.DefaultAlgorithm, iv + encrypted, authKey, false);
    Ok(keySalt + signed)
  }

  /**
   * `decrypt`: re-derive the keys from the leading keySize bytes, check and strip
   * the tag (a tampered-data failure becomes an authentication failure), then
   * decrypt what follows the IV.
   */
  function Decrypt(p: Primitives, c: Config, data: Bytes, passwordBased: bool, secret: Bytes, info: string): (r: Result<Bytes>)
    requires Valid(c)
    ensures r.Err? ==> r.error in {PrimitiveError, HmacFailure, AuthenticationFailure, OpenSslFailure}
  {
    var keySalt := ByteSubstring(data, 0, KeySize(c));
    var key :- DeriveKey(p, c, passwordBased, secret, info, keySalt);
    var authKey :- AuthKey(p, c, key);
    var message := Mac.GetMessage(p, Mac.DefaultAlgorithm, ByteSuffix(data, KeySize(c)), authKey, false);
    var signed :- if message == Err(DataIsTampered) then Err(AuthenticationFailure) else message;
    var iv := ByteSubstring(signed, 0, BlockSize(c));
    var encrypted := ByteSuffix(signed, BlockSize(c));
    p.decrypt(encrypted, c.cipher, key, iv).ToResult(OpenSslFailure)
  }

  /** `encryptByPassword`: PBKDF2 key derivation, empty info. */
  function EncryptByPassword(p: Primitives, c: Config, data: Bytes, password: Bytes, keySalt: Bytes, iv: Bytes): Result<Bytes>
    requires Valid(c) && |keySalt| == KeySize(c) && |iv| == BlockSize(c)
  {
    Encrypt(p, c, data, true, password, "", keySalt, iv)
  }

  /** `encryptByKey`: HKDF key derivation with the caller's info. */
  function EncryptByKey(p: Primitives, c: Config, data: Bytes, inputKey: Bytes, info: string, keySalt: Bytes, iv: Bytes): Result<Bytes>
    requires Valid(c) && |keySalt| == KeySize(c) && |iv| == BlockSize(c)
  {
    Encrypt(p, c, data, false, inputKey, info, keySalt, iv)
  }

  /** `decryptByPassword`: PBKDF2 key derivation, empty info. */
  function DecryptByPassword(p: Primitives, c: Config, data: Bytes, password: Bytes): Result<Bytes>
    requires Valid(c)
  {
    Decrypt(p, c, data, true, password, "")
  }

  /** `decryptByKey`: HKDF key derivation with the caller's info. */
  function DecryptByKey(p: Primitives, c: Config, data: Bytes, inputKey: Bytes, info: string): Result<Bytes>
    requires Valid(c)
  {
    Decrypt(p, c, data, false, inputKey, info)
  }

  /** The tag length of the envelope: a SHA-256 digest of 32 bytes, as 64 hexadecimal digits. */
  const MacTagLength: nat := 64

  /**
   * The envelope layout: salt, then the hex HMAC of `iv ‖ ciphertext` (never of the
   * plaintext) under the authentication key, then the IV, then the ciphertext.
   */
  lemma EnvelopeLayout(p: Primitives, c: Config, data: Bytes, passwordBased: bool, secret: Bytes, info: string,
                       keySalt: Bytes, iv: Bytes)
    requires HmacDigest(p, Mac.DefaultAlgorithm, 32)
    requires Valid(c) && |keySalt| == KeySize(c) && |iv| == BlockSize(c)
    requires Encrypt(p, c, data, passwordBased, secret, info, keySalt, iv).Ok?
    ensures var envelope := Encrypt(p, c, data, passwordBased, secret, info, keySalt, iv).value;
            var key := DeriveKey(p, c, passwordBased, secret, info, keySalt).value;
            var ciphertext := p.encrypt(data, c.cipher, key, iv).value;
            var authKey := AuthKey(p, c, key).value;
            var (ks, bs) := (KeySize(c), BlockSize(c));
            && |envelope| == ks + MacTagLength + bs + |ciphertext|
            && envelope[..ks] == keySalt
            && envelope[ks..ks + MacTagLength] == LowerHex(p.hmac(Mac.DefaultAlgorithm, iv + ciphertext, authKey).value)
            && envelope[ks + MacTagLength..ks + MacTagLength + bs] == iv
            && envelope[ks + MacTagLength + bs..] == ciphertext
  {
    var envelope := Encrypt(p, c, data, passwordBased, secret, info, keySalt, iv).value;
    var key := DeriveKey(p, c, passwordBased, secret, info, keySalt).value;
    var ciphertext := p.encrypt(data, c.cipher, key, iv).value;
    var authKey := AuthKey(p, c, key).value;
    var tag := LowerHex(p.hmac(Mac.DefaultAlgorithm, iv + ciphertext, authKey).value);
    assert Mac.HashHmac(p, Mac.DefaultAlgorithm, iv + ciphertext, authKey, false) == Some(tag);
    assert Mac.Sign(p, Mac.DefaultAlgorithm, iv + ciphertext, authKey, false) == Ok(tag + (iv + ciphertext));
    assert envelope == keySalt + (tag + (iv + ciphertext));
    assert |tag| == MacTagLength;
    var ks, bs := KeySize(c), BlockSize(c);
    assert envelope[..ks] == keySalt;
    assert envelope[ks..] == tag + (iv + ciphertext);
    assert envelope[ks..ks + MacTagLength] == envelope[ks..][..MacTagLength] == tag;
    assert envelope[ks + MacTagLength..] == envelope[ks..][MacTagLength..] == iv + ciphertext;
    assert envelope[ks + MacTagLength..ks + MacTagLength + bs] == (iv + ciphertext)[..bs] == iv;
    assert envelope[ks + MacTagLength + bs..] == (iv + ciphertext)[bs..] == ciphertext;
  }

  /**
   * Encrypt-then-MAC: the envelope depends on the plaintext only through the
   * ciphertext, so plaintexts that encrypt alike give the same envelope.
   */
  lemma EnvelopeIgnoresPlaintext(p: Primitives, c: Config, data: Bytes, data': Bytes, passwordBased: bool,
                                 secret: Bytes, info: string, keySalt: Bytes, iv: Bytes)
    requires Valid(c) && |keySalt| == KeySize(c) && |iv| == BlockSize(c)
    requires var key := DeriveKey(p, c, passwordBased, secret, info, keySalt);
             key.Ok? ==> p.encrypt(data, c.cipher, key.value, iv) == p.encrypt(data', c.cipher, key.value, iv)
    ensures Encrypt(p, c, data, passwordBased, secret, info, keySalt, iv)
         == Encrypt(p, c, data', passwordBased, secret, info, keySalt, iv)
  {
  }

  /**
   * Encryption fails only when a primitive does: with a working HMAC it succeeds
   * exactly when both keys derive and the cipher returns a ciphertext; a cipher
   * failure is an OpenSSL failure and gives no data.
   */
  lemma EncryptOutcome(p: Primitives, c: Config, data: Bytes, passwordBased: bool, secret: Bytes, info: string,
                       keySalt: Bytes, iv: Bytes)
    requires HmacDigest(p, Mac.DefaultAlgorithm, 32)
    requires Valid(c) && |keySalt| == KeySize(c) && |iv| == BlockSize(c)
    ensures var r := Encrypt(p, c, data, passwordBased, secret, info, keySalt, iv);
            var key := DeriveKey(p, c, passwordBased, secret, info, keySalt);
            && (r.Ok? <==> key.Ok? && p.encrypt(data, c.cipher, key.value, iv).Some? && AuthKey(p, c, key.value).Ok?)
            && (key.Ok? && p.encrypt(data, c.cipher, key.value, iv).None? ==> r == Err(OpenSslFailure))
  {
    var key := DeriveKey(p, c, passwordBased, secret, info, keySalt);
    if key.Ok? && p.encrypt(data, c.cipher, key.value, iv).Some? && AuthKey(p, c, key.value).Ok? {
      var ciphertext := p.encrypt(data, c.cipher, key.value, iv).value;
      Mac.SignSucceeds(p, Mac.DefaultAlgorithm, 32, iv + ciphertext, AuthKey(p, c, key.value).value, false);
    }
  }

  /**
   * Round trip: decrypting an envelope with the same secret, info and settings
   * gives back the data, the empty data included.
   */
  lemma DecryptEncrypt(p: Primitives, c: Config, data: Bytes, passwordBased: bool, secret: Bytes,
                                          info: string, keySalt: Bytes, iv: Bytes)
    requires HmacDigest(p, Mac.DefaultAlgorithm, 32) && CipherInverse(p)
    requires Valid(c) && |keySalt| == KeySize(c) && |iv| == BlockSize(c)
    requires Encrypt(p, c, data, passwordBased, secret, info, keySalt, iv).Ok?
    ensures Decrypt(p, c, Encrypt(p, c, data, passwordBased, secret, info, keySalt, iv).value, passwordBased, secret, info)
         == Ok(data)
  {
    var envelope := Encrypt(p, c, data, passwordBased, secret, info, keySalt, iv).value;
    var key := DeriveKey(p, c, passwordBased, secret, info, keySalt).value;
    var ciphertext := p.encrypt(data, c.cipher, key, iv).value;
    var authKey := AuthKey(p, c, key).value;
    var signed := Mac.Sign(p, Mac.DefaultAlgorithm, iv + ciphertext, authKey, false).value;
    assert envelope == keySalt + signed;
    SplitConcat(keySalt, signed);
    Mac.SignThenGetMessage(p, Mac.DefaultAlgorithm, 32, iv + ciphertext, authKey, false);
    SplitConcat(iv, ciphertext);
  }

  /** Round trip of `encryptByPassword` and `decryptByPassword`. */
  lemma DecryptByPasswordEncryptByPassword(p: Primitives, c: Config, data: Bytes, password: Bytes, keySalt: Bytes, iv: Bytes)
    requires HmacDigest(p, Mac.DefaultAlgorithm, 32) && CipherInverse(p)
    requires Valid(c) && |keySalt| == KeySize(c) && |iv| == BlockSize(c)
    requires EncryptByPassword(p, c, data, password, keySalt, iv).Ok?
    ensures DecryptByPassword(p, c, EncryptByPassword(p, c, data, password, keySalt, iv).value, password) == Ok(data)
  {
    DecryptEncrypt(p, c, data, true, password, "", keySalt, iv);
  }

  /** Round trip of `encryptByKey` and `decryptByKey` with the same info. */
  lemma DecryptByKeyEncryptByKey(p: Primitives, c: Config, data: Bytes, inputKey: Bytes, info: string, keySalt: Bytes, iv: Bytes)
    requires HmacDigest(p, Mac.DefaultAlgorithm, 32) && CipherInverse(p)
    requires Valid(c) && |keySalt| == KeySize(c) && |iv| == BlockSize(c)
    requires EncryptByKey(p, c, data, inputKey, info, keySalt, iv).Ok?
    ensures DecryptByKey(p, c, EncryptByKey(p, c, data, inputKey, info, keySalt, iv).value, inputKey, info) == Ok(data)
  {
    DecryptEncrypt(p, c, data, false, inputKey, info, keySalt, iv);
  }

  /**
   * Decryption takes its key from exactly the first keySize bytes: the salt
   * matters only through the key it derives, so two inputs that agree after the
   * salt and whose salts derive the same key decrypt alike. The password path
   * ignores `info`.
   */
  lemma DecryptKeyFromSalt(p: Primitives, c: Config, data: Bytes, data': Bytes, passwordBased: bool, secret: Bytes, info: string)
    requires Valid(c)
    requires |data| >= KeySize(c) && |data'| >= KeySize(c) && data[KeySize(c)..] == data'[KeySize(c)..]
    requires DeriveKey(p, c, passwordBased, secret, info, data[..KeySize(c)])
          == DeriveKey(p, c, passwordBased, secret, info, data'[..KeySize(c)])
    ensures Decrypt(p, c, data, passwordBased, secret, info) == Decrypt(p, c, data', passwordBased, secret, info)
    ensures passwordBased ==> Decrypt(p, c, data, true, secret, info) == Decrypt(p, c, data, true, secret, "")
  {
    var ks := KeySize(c);
    assert ByteSubstring(data, 0, ks) == data[..ks];
    assert ByteSubstring(data', 0, ks) == data'[..ks];
    assert ByteSuffix(data, ks) == data[ks..] == data'[ks..] == ByteSuffix(data', ks);
  }

  /**
   * What decryption does with any input whose keys derive: the key comes from the
   * first keySize bytes and serves both to derive the authentication key and to
   * decrypt. When the input holds a full tag that is the HMAC of the rest, the
   * result is the cipher's decryption of what follows the IV under that key;
   * any other input is an authentication failure.
   */
  lemma DecryptExact(p: Primitives, c: Config, data: Bytes, passwordBased: bool, secret: Bytes, info: string)
    requires HmacDigest(p, Mac.DefaultAlgorithm, 32)
    requires Valid(c)
    requires var key := DeriveKey(p, c, passwordBased, secret, info, ByteSubstring(data, 0, KeySize(c)));
             key.Ok? && AuthKey(p, c, key.value).Ok?
    ensures var (ks, bs) := (KeySize(c), BlockSize(c));
            var key := DeriveKey(p, c, passwordBased, secret, info, ByteSubstring(data, 0, ks)).value;
            var authKey := AuthKey(p, c, key).value;
            Decrypt(p, c, data, passwordBased, secret, info) ==
              if |data| >= ks + MacTagLength &&
                 data[ks..ks + MacTagLength] == LowerHex(p.hmac(Mac.DefaultAlgorithm, data[ks + MacTagLength..], authKey).value)
              then p.decrypt(ByteSuffix(data, ks + MacTagLength + bs), c.cipher, key,
                             ByteSubstring(data, ks + MacTagLength, bs)).ToResult(OpenSslFailure)
              else Err(AuthenticationFailure)
  {
    var ks, bs := KeySize(c), BlockSize(c);
    var key := DeriveKey(p, c, passwordBased, secret, info, ByteSubstring(data, 0, ks)).value;
    var authKey := AuthKey(p, c, key).value;
    var rest := ByteSuffix(data, ks);
    Mac.GetMessageExact(p, Mac.DefaultAlgorithm, 32, rest, authKey, false);
    Mac.TagLengthFixed(p, Mac.DefaultAlgorithm, 32, [], [], false);
    if |data| >= ks + MacTagLength {
      assert rest == data[ks..];
      assert rest[MacTagLength..] == data[ks + MacTagLength..];
      assert rest[..MacTagLength] == data[ks..ks + MacTagLength];
      var signed := rest[MacTagLength..];
      assert ByteSubstring(signed, 0, bs) == ByteSubstring(data, ks + MacTagLength, bs);
      assert ByteSuffix(signed, bs) == ByteSuffix(data, ks + MacTagLength + bs);
    }
  }

  /**
   * A successful decryption has checked the tag: the input holds a salt and a full
   * tag, and the tag is the HMAC of everything after it under the authentication
   * key derived from the salt.
   */
  lemma DecryptAuthenticated(p: Primitives, c: Config, data: Bytes, passwordBased: bool, secret: Bytes, info: string)
    requires HmacDigest(p, Mac.DefaultAlgorithm, 32)
    requires Valid(c)
    requires Decrypt(p, c, data, passwordBased, secret, info).Ok?
    ensures var ks := KeySize(c);
            && |data| >= ks + MacTagLength
            && var key := DeriveKey(p, c, passwordBased, secret, info, data[..ks]).value;
               var authKey := AuthKey(p, c, key).value;
               data[ks..ks + MacTagLength] == LowerHex(p.hmac(Mac.DefaultAlgorithm, data[ks + MacTagLength..], authKey).value)
  {
    var ks := KeySize(c);
    var key := DeriveKey(p, c, passwordBased, secret, info, ByteSubstring(data, 0, ks)).value;
    var authKey := AuthKey(p, c, key).value;
    var rest := ByteSuffix(data, ks);
    Mac.GetMessageExact(p, Mac.DefaultAlgorithm, 32, rest, authKey, false);
    assert ByteSubstring(data, 0, ks) == data[..ks];
    assert rest == data[ks..];
    assert rest[MacTagLength..] == data[ks + MacTagLength..];
    assert rest[..MacTagLength] == data[ks..ks + MacTagLength];
  }

  /**
   * Input too short to hold a salt and a tag is an authentication failure (once
   * the keys derive), and the cipher is never consulted for it.
   */
  lemma DecryptRejectsShortInput(p: Primitives, c: Config, data: Bytes, passwordBased: bool, secret: Bytes, info: string)
    requires HmacDigest(p, Mac.DefaultAlgorithm, 32)
    requires Valid(c)
    requires |data| < KeySize(c) + MacTagLength
    requires var key := DeriveKey(p, c, passwordBased, secret, info, ByteSubstring(data, 0, KeySize(c)));
             key.Ok? && AuthKey(p, c, key.value).Ok?
    ensures Decrypt(p, c, data, passwordBased, secret, info) == Err(AuthenticationFailure)
  {
    var key := DeriveKey(p, c, passwordBased, secret, info, ByteSubstring(data, 0, KeySize(c))).value;
    Mac.GetMessageExact(p, Mac.DefaultAlgorithm, 32, ByteSuffix(data, KeySize(c)), AuthKey(p, c, key).value, false);
  }

  /**
   * An authentication failure comes from the tag check alone: once the keys
   * derive, decryption fails authentication exactly when the tag check reports
   * tampered data, and it does so before decrypting, so swapping in any other
   * decryption primitive gives the same failure.
   */
  lemma AuthenticationFailureBeforeDecryption(p: Primitives, c: Config, data: Bytes, passwordBased: bool, secret: Bytes,
                                              info: string, decrypt: (Bytes, string, Bytes, Bytes) -> Option<Bytes>)
    requires Valid(c)
    ensures Decrypt(p, c, data, passwordBased, secret, info) == Err(AuthenticationFailure) ==>
              Decrypt(p.(decrypt := decrypt), c, data, passwordBased, secret, info) == Err(AuthenticationFailure)
    ensures var key := DeriveKey(p, c, passwordBased, secret, info, ByteSubstring(data, 0, KeySize(c)));
            key.Ok? && AuthKey(p, c, key.value).Ok? ==>
              (Decrypt(p, c, data, passwordBased, secret, info) == Err(AuthenticationFailure) <==>
               Mac.GetMessage(p, Mac.DefaultAlgorithm, ByteSuffix(data, KeySize(c)), AuthKey(p, c, key.value).value, false)
                 == Err(DataIsTampered))
  {
  }

  /** A cipher failure while decrypting an authentic envelope is an OpenSSL failure and gives no data. */
  lemma DecryptCipherFailure(p: Primitives, c: Config, data: Bytes, passwordBased: bool, secret: Bytes, info: string)
    requires Valid(c)
    requires var key := DeriveKey(p, c, passwordBased, secret, info, ByteSubstring(data, 0, KeySize(c)));
             key.Ok? && AuthKey(p, c, key.value).Ok? &&
             var message := Mac.GetMessage(p, Mac.DefaultAlgorithm, ByteSuffix(data, KeySize(c)), AuthKey(p, c, key.value).value, false);
             message.Ok? &&
             p.decrypt(ByteSuffix(message.value, BlockSize(c)), c.cipher, key.value,
                       ByteSubstring(message.value, 0, BlockSize(c))).None?
    ensures Decrypt(p, c, data, passwordBased, secret, info) == Err(OpenSslFailure)
  {
  }
}
