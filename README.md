# yiisoft/security: authenticated encryption envelope, MAC and token mask

A Dafny model of the byte-level logic of the library's encrypt-then-MAC envelope
(`Crypt`), its message signing (`Mac`) and its XOR token masking (`TokenMask`).

- `Crypt` encrypts data under a password (PBKDF2) or a key (HKDF) and produces
  `keySalt ‖ tag ‖ iv ‖ ciphertext`. The tag is the HMAC-SHA256 of `iv ‖ ciphertext`
  under an authentication key that HKDF derives from the encryption key. Decryption
  re-derives both keys from the leading salt, checks the tag, and only then decrypts.
- `Mac` prefixes a message with its HMAC tag, and strips and checks that tag.
- `TokenMask` encodes `mask ‖ (mask XOR token)` with base64url, and undoes it.

The cryptographic built-ins (`hash_hmac`, `hash_pbkdf2`, `hash_hkdf`,
`openssl_encrypt`, `openssl_decrypt`) and base64url are parameters of the model: the
records `Primitives.Primitives` and `Primitives.Base64Url`. Lemmas that need
something of them say so in their preconditions:
- `HmacDigest`: the HMAC never fails and has a fixed digest length per algorithm.
- `KdfLengths`: a derived key has the requested length, when that length is positive.
- `CipherInverse`: decryption undoes encryption under the same key and IV.
- `RoundTrips`: base64url decoding undoes encoding.

The random salt, IV and mask are parameters too. So every operation is a
deterministic function, and every exception is an `Errors.Error` value.

Files: `errors.dfy` (exceptions, `Option`, `Result`), `byte_strings.dfy` (byte
substrings, `^`, PHP truthiness, lowercase hex), `primitives.dfy`, `mac.dfy`,
`crypt.dfy`, `token_mask.dfy`.

Points where the code may differ from what a reader expects:
- The tag is lowercase hex, not raw bytes. `Crypt` signs with `new Mac()`, whose
  `rawHash` defaults to false, so the tag is 64 bytes for SHA-256.
- The MAC algorithm is always `sha256`, whatever `kdfAlgorithm` is set to.
- Decryption has no minimum-length check of its own. Only the length check in
  `Mac::getMessage` applies, so input shorter than `keySize + 64` is rejected
  (`DecryptRejectsShortInput`). Input between `keySize + 64` and
  `keySize + 64 + blockSize` bytes goes on to the tag check.
- An unsupported key-derivation algorithm is not rejected up front. The PHP built-in
  throws a `\ValueError` at the point of use (`PrimitiveError`).

## Model

| member | source | states |
|---|---|---|
| ByteStrings.ByteSubstring | src/Crypt.php:287 | the substring of a given start and length, clamped to the string: its length and each byte |
| ByteStrings.ByteSuffix | src/Crypt.php:297 | everything from a start offset on, empty past the end: its length and each byte |
| ByteStrings.SubstringSuffixJoin | src/Mac.php:93-94 | the leading substring and the rest join back into the whole input |
| ByteStrings.SplitConcat | src/Crypt.php:302-303 | splitting `a ‖ b` at `|a|` gives back `a` and `b` |
| ByteStrings.Xor | src/TokenMask.php:33 | PHP string `^`: length is the shorter operand's, each byte the XOR of the two |
| ByteStrings.XorCancel | src/TokenMask.php:54 | `(m XOR t) XOR m = t` for equal-length `m`, `t` |
| ByteStrings.LowerHex | src/Mac.php:36-37 | the non-raw `hash_hmac` output: twice the digest length, all lowercase hex digits |
| ByteStrings.FromHexLowerHex | src/Mac.php:54 | reading the hex form back gives the raw digest |
| ByteStrings.LowerHexInjective | src/Mac.php:98 | hex tags are equal exactly when the raw digests are equal |
| Mac.HashHmac | src/Mac.php:54 | `hash_hmac` fails exactly when the primitive fails; raw output is the digest; hex output has twice its length and decodes back to it |
| Mac.Sign | src/Mac.php:48-60 | output is tag ‖ data, longer than the data and ending with it; fails with the HMAC failure exactly when `hash_hmac` is falsy |
| Mac.GetMessage | src/Mac.php:81-104 | HMAC failure exactly when the empty-input probe is falsy; success returns `data[L..]` and `data[..L]` is the tag of it; input shorter than `L` is tampered; no other error kinds |
| Mac.TagLengthFixed | src/Mac.php:87-91 | the probed tag length is that of every tag of the algorithm, whatever the message and key |
| Mac.SignSucceeds | src/Mac.php:54-59 | with a working algorithm, signing succeeds and adds exactly one tag length |
| Mac.GetMessageExact | src/Mac.php:92-103 | `getMessage` returns the rest if and only if the input is at least a tag long and its leading tag matches; otherwise `DataIsTampered` |
| Mac.SignThenGetMessage | src/Mac.php:48-104 | `getMessage(sign(m, k), k) == m` for every `m`, the empty one included |
| Mac.GetMessageHmacFailure | src/Mac.php:87-90 | a failing primitive makes `getMessage` fail with the HMAC failure for every input and key, before any split or comparison |
| Crypt.New | src/Crypt.php:22-57 | only the three AES-CBC names are accepted, each with block 16 and key 16/24/32; any other name is `CipherNotAllowed`; other settings start at their defaults |
| Crypt.DefaultCipherSizes | src/Crypt.php:22-49 | the constructor's default cipher AES-128-CBC (line 49) is accepted by the table (line 23), with a 16-byte block and a 16-byte key |
| Crypt.WithKdfAlgorithm | src/Crypt.php:64-69 | the copy differs from the receiver in `kdfAlgorithm` only and stays valid |
| Crypt.WithAuthorizationKeyInfo | src/Crypt.php:76-81 | the copy differs from the receiver in `authorizationKeyInfo` only and stays valid |
| Crypt.WithDerivationIterations | src/Crypt.php:89-94 | the copy differs from the receiver in `derivationIterations` only and stays valid |
| Crypt.SettersIndependent | src/Crypt.php:64-94 | setters of different fields commute, and a second setting of a field replaces the first |
| Crypt.DeriveKey | src/Crypt.php:232-237 | the key has `keySize` bytes when derivation succeeds; a KDF error is the only failure |
| Crypt.AuthKey | src/Crypt.php:250 | the authentication key has `keySize` bytes when derivation succeeds; a KDF error is the only failure |
| Crypt.Encrypt | src/Crypt.php:223-260 | output starts with the salt and is longer than salt plus IV; failures are KDF, OpenSSL or HMAC failures only |
| Crypt.Decrypt | src/Crypt.php:278-315 | failures are KDF, HMAC, authentication or OpenSSL failures; `DataIsTampered` never escapes |
| Crypt.EnvelopeLayout | src/Crypt.php:250-259 | envelope is salt(keySize) ‖ hex HMAC-SHA256 of iv ‖ ciphertext (64) ‖ iv(blockSize) ‖ ciphertext, length the sum |
| Crypt.EnvelopeIgnoresPlaintext | src/Crypt.php:241-251 | the envelope depends on the plaintext only through the ciphertext (the plaintext is never MACed) |
| Crypt.EncryptOutcome | src/Crypt.php:232-251 | encryption succeeds if and only if both keys derive and the cipher succeeds; a cipher failure is `OpenSslFailure` |
| Crypt.DecryptEncrypt | src/Crypt.php:223-315 | decrypt of encrypt's output with the same secret, info and settings returns the data, empty data included |
| Crypt.DecryptByPasswordEncryptByPassword | src/Crypt.php:121-180 | password round trip of the public wrappers |
| Crypt.DecryptByKeyEncryptByKey | src/Crypt.php:151-205 | key round trip of the public wrappers with the same info |
| Crypt.DecryptKeyFromSalt | src/Crypt.php:287-292 | decrypt depends on the first `keySize` bytes only through the key they derive: inputs with the same rest and equally-deriving salts decrypt alike; the password path ignores `info` |
| Crypt.DecryptExact | src/Crypt.php:285-314 | once the keys derive from the first `keySize` bytes, decrypt returns the cipher's decryption (under that key) of what follows the IV if the input holds a full tag equal to the HMAC of the rest, and `AuthenticationFailure` otherwise |
| Crypt.DecryptAuthenticated | src/Crypt.php:294-305 | success implies input of at least salt plus tag, whose tag is the HMAC of the rest under the derived authentication key |
| Crypt.DecryptRejectsShortInput | src/Crypt.php:296-300 | input shorter than `keySize + 64` is an `AuthenticationFailure` once the keys derive |
| Crypt.AuthenticationFailureBeforeDecryption | src/Crypt.php:296-305 | once the keys derive, decrypt fails authentication if and only if the tag check reports tampered data; an authentication failure does not depend on the decryption primitive |
| Crypt.DecryptCipherFailure | src/Crypt.php:305-312 | a cipher failure on an authentic envelope is `OpenSslFailure`, with no data |
| TokenMask.Apply | src/TokenMask.php:26-34 | fails exactly for the empty token; the decoded payload is `mask ‖ (mask XOR token)`, of length `2·|token|` |
| TokenMask.Remove | src/TokenMask.php:43-55 | odd decoded length gives `''`; otherwise half the length, each byte second half XOR first half |
| TokenMask.RemoveApply | src/TokenMask.php:26-55 | `remove(apply(t)) == t` for every non-empty token and every mask |
| TokenMask.RemoveEmpty | src/TokenMask.php:47-54 | input that decodes to nothing unmasks to `''` |

## Left out

- src/PasswordHasher.php and src/Random.php are not part of this model. They are thin wrappers over PHP built-ins.
- The cryptographic primitives themselves (HMAC-SHA256, PBKDF2, HKDF, AES-CBC with padding) are abstract. The model assumes only the predicates named above.
- Unforgeability is not stated. The same goes for tamper detection "with overwhelming probability", and for a wrong password or info failing. These are cryptographic assumptions; the model proves only that success implies a matching tag.
- The constant-time behaviour of `hash_equals` is modelled as plain equality, because timing cannot be expressed.
- The `extension_loaded('openssl')` check in the constructor is left out. It probes the environment.
- `random_bytes` is left out. The salt, IV and mask are parameters with the lengths the code draws.
- How OpenSSL treats a short IV or key is not modelled. It lives inside the abstract cipher primitive.
- Base64url and the `StringHelper` internals are an abstract pair. So the test's "masked form longer than twice the token" is not stated, because it depends on the encoding's expansion.
- `hash_hmac` with an unknown or non-cryptographic algorithm is not modelled. From PHP 8.0 it throws a `\ValueError` rather than returning `false`. The model follows the `false` return the code guards against (src/Mac.php:55, 88), which it reports as `HmacFailure`.
- The exception messages are not modelled. Each exception is one `Errors.Error` variant.
- Crypt.EncryptByPassword, Crypt.EncryptByKey, Crypt.DecryptByPassword and Crypt.DecryptByKey carry no contract of their own. They only fix `passwordBased` and `info`, and their round trips are the two wrapper lemmas.
