/**
  Hex byte strings as the test helpers write them: a `0x` prefix followed by
  hex digits. Two constants and a helper that drops the prefix.
 */
module Bytes {

  /** `n` copies of `c`: JavaScript's `c.repeat(n)` for a one-character `c`. */
  function Repeat(c: char, n: nat): (r: string)
    ensures |r| == n
    ensures forall k | 0 <= k < n :: r[k] == c
  {
    if n == 0 then "" else [c] + Repeat(c, n - 1)
  }

  const BytePrefix: string := "0x"

  /** The empty byte string. */
  const EmptyBytes: string := BytePrefix

  /** Thirty-two zero bytes: the prefix and sixty-four `0` digits. */
  const ZeroBytes32: string := BytePrefix + Repeat('0', 64)

  /** `s` starts with the lower-case prefix `0x` (the comparison is case-sensitive). */
  predicate HasBytePrefix(s: string) {
    |s| >= 2 && s[0] == '0' && s[1] == 'x'
  }

  /**
    Drops a leading `0x`, once, and leaves any other string alone. The source
    compares the first two characters (`substring(0, 2)`) with `0x`, which for
    a string shorter than two characters is never equal.
   */
  function StripBytePrefix(bytes: string): (r: string)
    ensures HasBytePrefix(bytes) ==> BytePrefix + r == bytes
    ensures !HasBytePrefix(bytes) ==> r == bytes
    ensures |r| == |bytes| || |r| == |bytes| - 2
  {
    if |bytes| >= 2 && bytes[..2] == BytePrefix then bytes[2..] else bytes
  }

  /** Adding the prefix and stripping it is the identity, whatever follows the prefix. */
  lemma StripAddedPrefix(hex: string)
    ensures StripBytePrefix(BytePrefix + hex) == hex
  {
    assert HasBytePrefix(BytePrefix + hex);
    assert (BytePrefix + hex)[2..] == hex;
  }

  /** Only one prefix is removed: `0x0xab` becomes `0xab`. */
  lemma StripRemovesOnePrefix()
    ensures StripBytePrefix("0x0xab") == "0xab"
  {
    StripAddedPrefix("0xab");
    assert "0x0xab" == BytePrefix + "0xab";
  }

  /** The upper-case `0X` is not a prefix, so the string is returned unchanged. */
  lemma StripIsCaseSensitive(hex: string)
    ensures StripBytePrefix("0X" + hex) == "0X" + hex
  {
    assert ("0X" + hex)[1] == 'X';
  }

  /**
    The strings stripping leaves alone are exactly those without the prefix;
    so stripping twice is stripping once exactly when the stripped string is
    bare, and `0x0x…` is where the two differ.
   */
  lemma StripFixesExactlyBare(s: string)
    ensures StripBytePrefix(s) == s <==> !HasBytePrefix(s)
    ensures StripBytePrefix(StripBytePrefix(s)) == StripBytePrefix(s) <==> !HasBytePrefix(StripBytePrefix(s))
  {
  }

  /** `EMPTY_BYTES` is exactly `0x`, and stripping it leaves the empty string. */
  lemma EmptyBytesFacts()
    ensures EmptyBytes == "0x" && |EmptyBytes| == 2
    ensures StripBytePrefix(EmptyBytes) == ""
  {
    StripAddedPrefix("");
    assert EmptyBytes == BytePrefix + "";
  }

  /** `ZERO_BYTES32` is `0x` and 64 zeros, 66 characters, and strips to the 64 zeros. */
  lemma ZeroBytes32Facts()
    ensures |ZeroBytes32| == 66
    ensures ZeroBytes32[..2] == "0x"
    ensures forall k | 2 <= k < 66 :: ZeroBytes32[k] == '0'
    ensures StripBytePrefix(ZeroBytes32) == Repeat('0', 64)
  {
    StripAddedPrefix(Repeat('0', 64));
  }
}
