/**
 * `TokenMask`: hides a token behind a random mask of the same length so that the
 * masked form differs on every output. The random mask is a parameter.
 */
module TokenMask {
  import opened ByteStrings
  import opened Errors
  import opened Primitives

  /**
   * `apply`: the base64url encoding of `mask ‖ (mask XOR token)`. Drawing a mask for
   * the empty token is `random_bytes(0)`, which throws a \ValueError.
   */
  function Apply(b: Base64Url, token: Bytes, mask: Bytes): (r: Result<string>)
    requires |mask| == |token|
    ensures r.Err? <==> token == []
    ensures r.Err? ==> r.error == PrimitiveError
    ensures r.Ok? && RoundTrips(b) ==>
              var payload := b.decode(r.value);
              |payload| == 2 * |token| &&
              payload[..|token|] == mask &&
              forall i :: 0 <= i < |token| ==> payload[|token| + i] == mask[i] ^ token[i]
  {
    if |token| == 0 then Err(PrimitiveError)
    else Ok(b.encode(mask + Xor(mask, token)))
  }

  /**
   * `remove`: decode, give up with the empty string when the decoded length is
   * odd, and otherwise exclusive-or the second half with the first.
   */
  function Remove(b: Base64Url, maskedToken: string): (r: Bytes)
    ensures var decoded := b.decode(maskedToken);
            |decoded| % 2 == 1 ==> r == []
    ensures var decoded := b.decode(maskedToken);
            var half := |decoded| / 2;
            |decoded| % 2 == 0 ==>
              |r| == half && forall i :: 0 <= i < half ==> r[i] == decoded[half + i] ^ decoded[i]
  {
    var decoded := b.decode(maskedToken);
    if |decoded| % 2 != 0 then []
    else
      var length := |decoded| / 2;
      Xor(ByteSubstring(decoded, length, length), ByteSubstring(decoded, 0, length))
  }

  /** Removing an applied mask gives the token back, whatever the mask. */
  lemma RemoveApply(b: Base64Url, token: Bytes, mask: Bytes)
    requires RoundTrips(b)
    requires |mask| == |token| && token != []
    ensures Apply(b, token, mask).Ok?
    ensures Remove(b, Apply(b, token, mask).value) == token
  {
    var payload := mask + Xor(mask, token);
    assert b.decode(b.encode(payload)) == payload;
    SplitConcat(mask, Xor(mask, token));
    assert ByteSubstring(payload, |token|, |token|) == Xor(mask, token);
    XorCancel(mask, token);
  }

  /** Input that decodes to nothing unmasks to the empty string. */
  lemma RemoveEmpty(b: Base64Url, maskedToken: string)
    requires b.decode(maskedToken) == []
    ensures Remove(b, maskedToken) == []
  {
  }
}
