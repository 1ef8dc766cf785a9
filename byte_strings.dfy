/**
 * PHP strings are byte strings. This module gives the operations the core applies
 * to them: `StringHelper::byteSubstring`, the string `^` operator, PHP's truthiness
 * test on a string, and the lowercase hexadecimal form `hash_hmac` returns when it
 * is not asked for raw output.
 */
module ByteStrings {

  type Byte = bv8
  type Bytes = seq<Byte>

  function Min(a: int, b: int): int {
    if a <= b then a else b
  }

  /**
   * `StringHelper::byteSubstring($s, $start, $length)` for a non-negative start and
   * length: `mb_substr` in '8bit' mode, which clamps both ends to the string, so a
   * start or length past the end yields a shorter or empty string.
   */
  function ByteSubstring(s: Bytes, start: nat, length: nat): (r: Bytes)
    ensures |r| == if start >= |s| then 0 else Min(length, |s| - start)
    ensures forall i :: 0 <= i < |r| ==> r[i] == s[start + i]
  {
    if start >= |s| then [] else s[start..start + Min(length, |s| - start)]
  }

  /** `StringHelper::byteSubstring($s, $start)` with no length: everything from `$start` on. */
  function ByteSuffix(s: Bytes, start: nat): (r: Bytes)
    ensures |r| == if start >= |s| then 0 else |s| - start
    ensures forall i :: 0 <= i < |r| ==> r[i] == s[start + i]
  {
    if start >= |s| then [] else s[start..]
  }

  /** Cutting a string at any point and joining the two pieces gives the string back. */
  lemma SubstringSuffixJoin(s: Bytes, n: nat)
    ensures ByteSubstring(s, 0, n) + ByteSuffix(s, n) == s
  {
    if n < |s| {
      assert ByteSubstring(s, 0, n) == s[..n];
      assert ByteSuffix(s, n) == s[n..];
    }
  }

  /** Cutting `a + b` at `|a|` gives back `a` and `b`. */
  lemma SplitConcat(a: Bytes, b: Bytes)
    ensures ByteSubstring(a + b, 0, |a|) == a
    ensures ByteSuffix(a + b, |a|) == b
  {
    assert (a + b)[..|a|] == a;
    assert (a + b)[|a|..] == b;
  }

  /** PHP's `^` on two strings: byte-wise exclusive or, cut to the shorter operand. */
  function Xor(a: Bytes, b: Bytes): (r: Bytes)
    ensures |r| == Min(|a|, |b|)
    ensures forall i :: 0 <= i < |r| ==> r[i] == a[i] ^ b[i]
  {
    seq(Min(|a|, |b|), i requires 0 <= i < Min(|a|, |b|) => a[i] ^ b[i])
  }

  /** Exclusive or with the same mask twice gives the original bytes back. */
  lemma XorCancel(mask: Bytes, t: Bytes)
    requires |mask| == |t|
    ensures Xor(Xor(mask, t), mask) == t
  {
    var r := Xor(Xor(mask, t), mask);
    assert |r| == |t|;
    forall i | 0 <= i < |t|
      ensures r[i] == t[i]
    {
      assert r[i] == (mask[i] ^ t[i]) ^ mask[i];
    }
  }

  /** `!$s` holds of a PHP string exactly when it is "" or "0". */
  predicate Falsy(s: Bytes) {
    s == [] || s == [0x30]
  }

  predicate IsLowerHexDigit(c: Byte) {
    (0x30 <= c <= 0x39) || (0x61 <= c <= 0x66)
  }

  /** The character '0'..'9', 'a'..'f' for a nibble. */
  function HexDigit(v: Byte): (c: Byte)
    requires v < 16
    ensures IsLowerHexDigit(c)
  {
    if v < 10 then 0x30 + v else 0x57 + v
  }

  /** The nibble a lowercase hexadecimal digit stands for. */
  function HexValue(c: Byte): (v: Byte)
    requires IsLowerHexDigit(c)
    ensures v < 16 && HexDigit(v) == c
  {
    if c <= 0x39 then c - 0x30 else c - 0x57
  }

  /**
   * The lowercase hexadecimal form of a digest, high nibble first: what `hash_hmac`
   * returns when its `$binary` argument is false.
   */
  function LowerHex(s: Bytes): (r: Bytes)
    ensures |r| == 2 * |s|
    ensures forall i :: 0 <= i < |r| ==> IsLowerHexDigit(r[i])
  {
    if s == [] then [] else [HexDigit(s[0] >> 4), HexDigit(s[0] & 0xF)] + LowerHex(s[1..])
  }

  /** Reads an even-length string of lowercase hexadecimal digits back into bytes. */
  function FromHex(h: Bytes): (r: Bytes)
    requires |h| % 2 == 0
    requires forall i :: 0 <= i < |h| ==> IsLowerHexDigit(h[i])
    ensures |r| == |h| / 2
  {
    if h == [] then [] else [(HexValue(h[0]) << 4) | HexValue(h[1])] + FromHex(h[2..])
  }

  /** The hexadecimal form loses nothing: reading it back gives the digest. */
  lemma {:induction false} FromHexLowerHex(s: Bytes)
    ensures FromHex(LowerHex(s)) == s
  {
    if s != [] {
      var h := LowerHex(s);
      assert h[2..] == LowerHex(s[1..]);
      FromHexLowerHex(s[1..]);
      var hi, lo := s[0] >> 4, s[0] & 0xF;
      assert HexValue(h[0]) == hi && HexValue(h[1]) == lo;
      assert (hi << 4) | lo == s[0];
    }
  }

  /**
   * Two digests are equal exactly when their hexadecimal forms are, so comparing
   * hex tags is as strong as comparing raw digests.
   */
  lemma LowerHexInjective(a: Bytes, b: Bytes)
    ensures LowerHex(a) == LowerHex(b) <==> a == b
  {
    if LowerHex(a) == LowerHex(b) {
      FromHexLowerHex(a);
      FromHexLowerHex(b);
    }
  }
}
