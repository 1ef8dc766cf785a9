/**
 * `Mac`: signs a message by prefixing it with its HMAC tag, and strips and checks
 * that tag. The Mac's one field, its hash algorithm, is the `algorithm` argument.
 */
module Mac {
  import opened ByteStrings
  import opened Errors
  import opened Primitives

  /** The algorithm `new Mac()` uses, and so the one Crypt always uses. */
  const DefaultAlgorithm: string := "sha256"

  /** The length of a tag for an `n`-byte digest: `n` raw, `2n` as hexadecimal. */
  function TagLength(n: nat, rawHash: bool): nat {
    if rawHash then n else 2 * n
  }

  /**
   * `hash_hmac($algorithm, $data, $key, $rawHash)`: the raw digest, or its lowercase
   * hexadecimal form, which loses no information about the digest.
   */
  function HashHmac(p: Primitives, algorithm: string, data: Bytes, key: Bytes, rawHash: bool): (r: Option<Bytes>)
    ensures r.Some? <==> p.hmac(algorithm, data, key).Some?
    ensures r.Some? ==> |r.value| == TagLength(|p.hmac(algorithm, data, key).value|, rawHash)
    ensures r.Some? && rawHash ==> r.value == p.hmac(algorithm, data, key).value
    ensures r.Some? && !rawHash ==>
              (forall i :: 0 <= i < |r.value| ==> IsLowerHexDigit(r.value[i])) &&
              |r.value| % 2 == 0 &&
              FromHex(r.value) == p.hmac(algorithm, data, key).value
  {
    match p.hmac(algorithm, data, key)
    case None => None
    case Some(digest) =>
      if rawHash then Some(digest)
      else
        FromHexLowerHex(digest);
        Some(LowerHex(digest))
  }

  /**
   * `sign`: the tag of `data` under `key`, followed by `data`. Fails with the HMAC
   * failure exactly when `hash_hmac` returns a falsy value.
   */
  function Sign(p: Primitives, algorithm: string, data: Bytes, key: Bytes, rawHash: bool): (r: Result<Bytes>)
    ensures r.Ok? <==> HashHmac(p, algorithm, data, key, rawHash).Some? &&
                       !Falsy(HashHmac(p, algorithm, data, key, rawHash).value)
    ensures r.Err? ==> r.error == HmacFailure
    ensures r.Ok? ==> r.value == HashHmac(p, algorithm, data, key, rawHash).value + data
    ensures r.Ok? ==> |r.value| > |data| && ByteSuffix(r.value, |r.value| - |data|) == data
  {
    var hash := HashHmac(p, algorithm, data, key, rawHash);
    if hash.None? || Falsy(hash.value) then Err(HmacFailure)
    else
      SplitConcat(hash.value, data);
      Ok(hash.value + data)
  }

  /**
   * `getMessage`: the tag length is that of the tag of the empty message under the
   * empty key. Input at least that long is split into a leading tag and the rest;
   * the rest is returned when the tag is the one it should have, and anything
   * else is tampered data.
   */
  function GetMessage(p: Primitives, algorithm: string, data: Bytes, key: Bytes, rawHash: bool): (r: Result<Bytes>)
    ensures var test := HashHmac(p, algorithm, [], [], rawHash);
            (r == Err(HmacFailure) <==> test.None? || Falsy(test.value))
    ensures r.Err? ==> r.error in {HmacFailure, DataIsTampered, PrimitiveError}
    ensures var test := HashHmac(p, algorithm, [], [], rawHash);
            r.Ok? ==> test.Some? && |test.value| <= |data| &&
                      r.value == data[|test.value|..] &&
                      HashHmac(p, algorithm, r.value, key, rawHash) == Some(data[..|test.value|])
    ensures var test := HashHmac(p, algorithm, [], [], rawHash);
            test.Some? && !Falsy(test.value) && |data| < |test.value| ==> r == Err(DataIsTampered)
  {
    var test := HashHmac(p, algorithm, [], [], rawHash);
    if test.None? || Falsy(test.value) then Err(HmacFailure)
    else
      var hashLength := |test.value|;
      if |data| >= hashLength then
        var hash := ByteSubstring(data, 0, hashLength);
        var pureData := ByteSuffix(data, hashLength);
        var calculatedHash := HashHmac(p, algorithm, pureData, key, rawHash);
        assert hash == data[..hashLength] && pureData == data[hashLength..];
        // hash_equals() given `false` under strict types throws a \TypeError
        if calculatedHash.None? then Err(PrimitiveError)
        else if hash == calculatedHash.value then Ok(pureData)
        else Err(DataIsTampered)
      else Err(DataIsTampered)
  }

  /**
   * The tag length `getMessage` works out from the empty message and key is the
   * length of every tag of the algorithm, whatever the message and key.
   */
  lemma TagLengthFixed(p: Primitives, algorithm: string, n: nat, data: Bytes, key: Bytes, rawHash: bool)
    requires HmacDigest(p, algorithm, n)
    ensures HashHmac(p, algorithm, data, key, rawHash).Some?
    ensures |HashHmac(p, algorithm, data, key, rawHash).value| == TagLength(n, rawHash)
    ensures |HashHmac(p, algorithm, [], [], rawHash).value| == TagLength(n, rawHash)
  {
  }

  /** Signing succeeds whenever the algorithm works and has a digest of two bytes or more. */
  lemma SignSucceeds(p: Primitives, algorithm: string, n: nat, data: Bytes, key: Bytes, rawHash: bool)
    requires HmacDigest(p, algorithm, n) && n >= 2
    ensures Sign(p, algorithm, data, key, rawHash).Ok?
    ensures |Sign(p, algorithm, data, key, rawHash).value| == TagLength(n, rawHash) + |data|
  {
    TagLengthFixed(p, algorithm, n, data, key, rawHash);
  }

  /**
   * Verification is exact: `getMessage` returns exactly when the input is at least
   * a tag long and its leading tag is the tag of the rest; otherwise the data is
   * reported as tampered.
   */
  lemma GetMessageExact(p: Primitives, algorithm: string, n: nat, data: Bytes, key: Bytes, rawHash: bool)
    requires HmacDigest(p, algorithm, n) && n >= 2
    ensures var t := TagLength(n, rawHash);
            GetMessage(p, algorithm, data, key, rawHash) ==
              if t <= |data| && HashHmac(p, algorithm, data[t..], key, rawHash) == Some(data[..t])
              then Ok(data[t..])
              else Err(DataIsTampered)
  {
    TagLengthFixed(p, algorithm, n, [], [], rawHash);
    if TagLength(n, rawHash) <= |data| {
      TagLengthFixed(p, algorithm, n, data[TagLength(n, rawHash)..], key, rawHash);
    }
  }

  /** `getMessage(sign(m, k), k) == m` for every message, the empty one included. */
  lemma SignThenGetMessage(p: Primitives, algorithm: string, n: nat, data: Bytes, key: Bytes, rawHash: bool)
    requires HmacDigest(p, algorithm, n) && n >= 2
    ensures Sign(p, algorithm, data, key, rawHash).Ok?
    ensures GetMessage(p, algorithm, Sign(p, algorithm, data, key, rawHash).value, key, rawHash) == Ok(data)
  {
    SignSucceeds(p, algorithm, n, data, key, rawHash);
    var tag := HashHmac(p, algorithm, data, key, rawHash).value;
    var signed := Sign(p, algorithm, data, key, rawHash).value;
    assert signed == tag + data;
    var t := TagLength(n, rawHash);
    assert signed[t..] == data && signed[..t] == tag;
    GetMessageExact(p, algorithm, n, signed, key, rawHash);
  }

  /**
   * When the algorithm fails, `getMessage` fails with the HMAC failure before it
   * looks at the input: the outcome is the same for every input and key.
   */
  lemma GetMessageHmacFailure(p: Primitives, algorithm: string, data: Bytes, key: Bytes, data': Bytes, key': Bytes, rawHash: bool)
    requires p.hmac(algorithm, [], []).None?
    ensures GetMessage(p, algorithm, data, key, rawHash) == Err(HmacFailure)
    ensures GetMessage(p, algorithm, data, key, rawHash) == GetMessage(p, algorithm, data', key', rawHash)
  {
  }
}
