/** PKCS#7 padding to the 16-byte AES block (section 6.3 of RFC 5652), as the
    padder and unpadder of the cryptography library apply it. */
module Pkcs7 {
  import opened Wrappers
  import opened Bytes

  /** The AES block size in bytes (128 bits). */
  const BlockSize: nat := 16

  datatype PaddingError = InvalidPadding

  /** Number of pad bytes appended to a message of length `n`. */
  function PadLength(n: nat): (k: nat)
    ensures 1 <= k <= BlockSize
    ensures (n + k) % BlockSize == 0
  {
    BlockSize - n % BlockSize
  }

  /** A well-formed padded block sequence: a positive whole number of blocks
      whose last byte k lies in 1..16 and whose final k bytes all equal k. */
  predicate IsPadded(p: seq<byte>)
  {
    && |p| > 0
    && |p| % BlockSize == 0
    && 1 <= p[|p| - 1] <= BlockSize
    && forall i | |p| - p[|p| - 1] <= i < |p| :: p[i] == p[|p| - 1]
  }

  /** Appends k bytes of value k, where k = 16 - (|m| mod 16). */
  function Pad(m: seq<byte>): (p: seq<byte>)
    ensures |p| % BlockSize == 0
    ensures |m| < |p| <= |m| + BlockSize
    ensures p[..|m|] == m
    ensures forall i | |m| <= i < |p| :: p[i] == |p| - |m|
  {
    var k := PadLength(|m|);
    m + seq(k, _ => k as byte)
  }

  /** Strips the padding, failing when the input is not a padded block
      sequence (empty, not whole blocks, last byte 0 or above 16, or a pad
      byte that differs from the last byte). */
  function Unpad(p: seq<byte>): (r: Result<seq<byte>, PaddingError>)
    ensures r.Success? <==> IsPadded(p)
    ensures r.Success? ==> Pad(r.value) == p
    ensures r.Success? ==> |p| - BlockSize <= |r.value| < |p|
  {
    if |p| == 0 || |p| % BlockSize != 0 then
      Failure(InvalidPadding)
    else
      var k := p[|p| - 1] as int;
      if k == 0 || k > BlockSize then
        Failure(InvalidPadding)
      else if !(forall i | |p| - k <= i < |p| :: p[i] == k) then
        Failure(InvalidPadding)
      else
        PadOfStripped(p);
        Success(p[..|p| - k])
  }

  /** Padding what `Unpad` keeps of a padded sequence gives that sequence back. */
  lemma PadOfStripped(p: seq<byte>)
    requires IsPadded(p)
    ensures Pad(p[..|p| - p[|p| - 1]]) == p
  {
    var k := p[|p| - 1] as int;
    var m := p[..|p| - k];
    assert PadLength(|m|) == k;
    var q := Pad(m);
    assert |q| == |p|;
    forall i | 0 <= i < |p|
      ensures q[i] == p[i]
    {
      if i < |m| {
        assert q[..|m|][i] == q[i];
      }
    }
  }

  /** Unpadding inverts padding. */
  lemma UnpadPad(m: seq<byte>)
    ensures Unpad(Pad(m)) == Success(m)
  {
    var p := Pad(m);
    assert p[|p| - 1] == |p| - |m|;
    assert IsPadded(p);
  }
}
