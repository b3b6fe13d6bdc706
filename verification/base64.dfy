/** Base64 text encoding with the standard alphabet and `=` padding
    (section 4 of RFC 4648), as `base64.b64encode` produces it. Bytes are
    taken three at a time; each group becomes four characters of six bits. */
module Base64 {
  import opened Wrappers
  import opened Bytes

  /** A six-bit value, the index of a character in the alphabet. */
  type sextet = x: int | 0 <= x < 64

  const PadChar: char := '='

  datatype DecodeError = Malformed

  function CharOf(i: sextet): char
  {
    if i < 26 then ('A' as int + i) as char
    else if i < 52 then ('a' as int + (i - 26)) as char
    else if i < 62 then ('0' as int + (i - 52)) as char
    else if i == 62 then '+'
    else '/'
  }

  predicate InAlphabet(c: char)
  {
    ('A' <= c <= 'Z') || ('a' <= c <= 'z') || ('0' <= c <= '9') || c == '+' || c == '/'
  }

  function IndexOf(c: char): (i: sextet)
    requires InAlphabet(c)
    ensures CharOf(i) == c
  {
    if 'A' <= c <= 'Z' then c as int - 'A' as int
    else if 'a' <= c <= 'z' then c as int - 'a' as int + 26
    else if '0' <= c <= '9' then c as int - '0' as int + 52
    else if c == '+' then 62
    else 63
  }

  /** Every sextet maps to an alphabet character that maps back to it. */
  lemma CharOfIndexOf(i: sextet)
    ensures InAlphabet(CharOf(i)) && IndexOf(CharOf(i)) == i
  {
  }

  /** Three bytes become four characters. */
  function EncodeGroup(b0: byte, b1: byte, b2: byte): string
  {
    [CharOf(b0 / 4), CharOf((b0 % 4) * 16 + b1 / 16), CharOf((b1 % 16) * 4 + b2 / 64), CharOf(b2 % 64)]
  }

  /** A final single byte becomes two characters and two pad characters. */
  function EncodeOne(b0: byte): string
  {
    [CharOf(b0 / 4), CharOf((b0 % 4) * 16), PadChar, PadChar]
  }

  /** A final pair of bytes becomes three characters and one pad character. */
  function EncodeTwo(b0: byte, b1: byte): string
  {
    [CharOf(b0 / 4), CharOf((b0 % 4) * 16 + b1 / 16), CharOf((b1 % 16) * 4), PadChar]
  }

  predicate InOutput(c: char)
  {
    InAlphabet(c) || c == PadChar
  }

  function Encode(b: seq<byte>): (s: string)
    ensures |s| == 4 * ((|b| + 2) / 3)
    ensures forall i | 0 <= i < |s| :: InOutput(s[i])
    decreases |b|
  {
    if |b| == 0 then ""
    else if |b| == 1 then EncodeOne(b[0])
    else if |b| == 2 then EncodeTwo(b[0], b[1])
    else
      GroupCount(|b|);
      EncodeGroup(b[0], b[1], b[2]) + Encode(b[3..])
  }

  /** Three more bytes take one more group of four characters. */
  lemma GroupCount(n: int)
    requires n >= 3
    ensures 4 * ((n + 2) / 3) == 4 + 4 * ((n - 3 + 2) / 3)
  {
  }

  /** The three bytes carried by four alphabet characters. */
  function DecodeGroup(c0: sextet, c1: sextet, c2: sextet, c3: sextet): (r: seq<byte>)
    ensures |r| == 3
  {
    [c0 * 4 + c1 / 16, (c1 % 16) * 16 + c2 / 4, (c2 % 4) * 64 + c3]
  }

  /** The last group of four characters, which may end in one or two pad
      characters. Bits left over below the last byte are ignored. */
  function DecodeLast(q: string): (r: Result<seq<byte>, DecodeError>)
    requires |q| == 4
    ensures r.Success? ==> 1 <= |r.value| <= 3
  {
    if !(InAlphabet(q[0]) && InAlphabet(q[1])) then Failure(Malformed)
    else
      var full := DecodeGroup(IndexOf(q[0]), IndexOf(q[1]),
                              if InAlphabet(q[2]) then IndexOf(q[2]) else 0,
                              if InAlphabet(q[3]) then IndexOf(q[3]) else 0);
      if InAlphabet(q[2]) && InAlphabet(q[3]) then Success(full)
      else if InAlphabet(q[2]) && q[3] == PadChar then Success(full[..2])
      else if q[2] == PadChar && q[3] == PadChar then Success(full[..1])
      else Failure(Malformed)
  }

  /** Decodes text made of whole four-character groups; only the last group
      may carry padding, and any other character is rejected. */
  function Decode(s: string): (r: Result<seq<byte>, DecodeError>)
    ensures r.Success? ==> |s| % 4 == 0
    ensures r.Success? ==> |r.value| <= 3 * (|s| / 4) <= |r.value| + 2
    ensures r.Success? && |s| > 0 ==> |r.value| > 0
    decreases |s|
  {
    if |s| == 0 then Success([])
    else if |s| < 4 then Failure(Malformed)
    else if |s| == 4 then DecodeLast(s)
    else if !(InAlphabet(s[0]) && InAlphabet(s[1]) && InAlphabet(s[2]) && InAlphabet(s[3])) then
      Failure(Malformed)
    else
      var rest :- Decode(s[4..]);
      Success(DecodeGroup(IndexOf(s[0]), IndexOf(s[1]), IndexOf(s[2]), IndexOf(s[3])) + rest)
  }

  /** Splitting `hi * 16 + lo` by 16 recovers both parts. */
  lemma Split16(hi: int, lo: int)
    requires 0 <= lo < 16
    ensures (hi * 16 + lo) / 16 == hi && (hi * 16 + lo) % 16 == lo
  {
  }

  /** Splitting `hi * 4 + lo` by 4 recovers both parts. */
  lemma Split4(hi: int, lo: int)
    requires 0 <= lo < 4
    ensures (hi * 4 + lo) / 4 == hi && (hi * 4 + lo) % 4 == lo
  {
  }

  /** The first byte survives a trip through the first two sextets. */
  lemma FirstByte(b0: byte, b1: byte)
    ensures (b0 / 4) * 4 + ((b0 % 4) * 16 + b1 / 16) / 16 == b0
    ensures ((b0 % 4) * 16 + b1 / 16) % 16 == b1 / 16
  {
    Split16(b0 % 4, b1 / 16);
  }

  /** The second byte survives a trip through the second and third sextets. */
  lemma SecondByte(b1: byte, b2: byte)
    ensures (b1 / 16) * 16 + ((b1 % 16) * 4 + b2 / 64) / 4 == b1
    ensures ((b1 % 16) * 4 + b2 / 64) % 4 == b2 / 64
  {
    Split4(b1 % 16, b2 / 64);
  }

  /** The sextets of three bytes decode back to those bytes. */
  lemma GroupArithmetic(b0: byte, b1: byte, b2: byte)
    ensures DecodeGroup(b0 / 4, (b0 % 4) * 16 + b1 / 16, (b1 % 16) * 4 + b2 / 64, b2 % 64) == [b0, b1, b2]
  {
    FirstByte(b0, b1);
    SecondByte(b1, b2);
  }

  /** Four characters of the alphabet decode to the sextets they encode. */
  lemma IndicesOfChars(c0: sextet, c1: sextet, c2: sextet, c3: sextet)
    ensures var g := [CharOf(c0), CharOf(c1), CharOf(c2), CharOf(c3)];
      && (forall k | 0 <= k < 4 :: InAlphabet(g[k]))
      && IndexOf(g[0]) == c0 && IndexOf(g[1]) == c1 && IndexOf(g[2]) == c2 && IndexOf(g[3]) == c3
  {
    CharOfIndexOf(c0);
    CharOfIndexOf(c1);
    CharOfIndexOf(c2);
    CharOfIndexOf(c3);
  }

  lemma DecodeEncodeGroup(b0: byte, b1: byte, b2: byte)
    ensures var g := EncodeGroup(b0, b1, b2);
      && (forall k | 0 <= k < 4 :: InAlphabet(g[k]))
      && DecodeGroup(IndexOf(g[0]), IndexOf(g[1]), IndexOf(g[2]), IndexOf(g[3])) == [b0, b1, b2]
  {
    IndicesOfChars(b0 / 4, (b0 % 4) * 16 + b1 / 16, (b1 % 16) * 4 + b2 / 64, b2 % 64);
    GroupArithmetic(b0, b1, b2);
  }

  lemma DecodeEncodeOne(b0: byte)
    ensures DecodeLast(EncodeOne(b0)) == Success([b0])
  {
    var c0: sextet, c1: sextet := b0 / 4, (b0 % 4) * 16;
    CharOfIndexOf(c0);
    CharOfIndexOf(c1);
    FirstByte(b0, 0);
    assert DecodeGroup(c0, c1, 0, 0)[..1] == [b0];
  }

  lemma DecodeEncodeTwo(b0: byte, b1: byte)
    ensures DecodeLast(EncodeTwo(b0, b1)) == Success([b0, b1])
  {
    var c0: sextet, c1: sextet, c2: sextet := b0 / 4, (b0 % 4) * 16 + b1 / 16, (b1 % 16) * 4;
    CharOfIndexOf(c0);
    CharOfIndexOf(c1);
    CharOfIndexOf(c2);
    FirstByte(b0, b1);
    SecondByte(b1, 0);
    assert DecodeGroup(c0, c1, c2, 0)[..2] == [b0, b1];
  }

  /** Decoding inverts encoding. */
  lemma {:induction false} DecodeEncode(b: seq<byte>)
    ensures Decode(Encode(b)) == Success(b)
    decreases |b|
  {
    if |b| == 0 {
    } else if |b| == 1 {
      DecodeEncodeOne(b[0]);
      assert b == [b[0]];
    } else if |b| == 2 {
      DecodeEncodeTwo(b[0], b[1]);
      assert b == [b[0], b[1]];
    } else {
      var g := EncodeGroup(b[0], b[1], b[2]);
      var s := Encode(b);
      DecodeEncodeGroup(b[0], b[1], b[2]);
      assert b == [b[0], b[1], b[2]] + b[3..];
      if |b| == 3 {
        assert b[3..] == [];
        assert s == g;
        assert InAlphabet(g[0]) && InAlphabet(g[1]) && InAlphabet(g[2]) && InAlphabet(g[3]);
        assert DecodeLast(g) == Success([b[0], b[1], b[2]]);
        assert b == [b[0], b[1], b[2]];
        assert Decode(s) == DecodeLast(s);
      } else {
        DecodeEncode(b[3..]);
        assert s[..4] == g;
        assert s[4..] == Encode(b[3..]);
      }
    }
  }

  /** Encoding is injective: distinct byte strings never share a text. */
  lemma EncodeInjective(a: seq<byte>, b: seq<byte>)
    requires a != b
    ensures Encode(a) != Encode(b)
  {
    DecodeEncode(a);
    DecodeEncode(b);
  }

  /** The groups that make up the test vectors of section 10 of RFC 4648. */
  lemma Rfc4648Groups()
    ensures EncodeOne(102) == "Zg==" && EncodeTwo(102, 111) == "Zm8=" && EncodeGroup(102, 111, 111) == "Zm9v"
    ensures EncodeOne(98) == "Yg==" && EncodeTwo(98, 97) == "YmE=" && EncodeGroup(98, 97, 114) == "YmFy"
  {
  }

  /** The test vectors of section 10 of RFC 4648, which pin the alphabet and
      the bit layout independently of the decoder. */
  lemma Rfc4648Vectors()
    ensures Encode([]) == ""
    ensures Encode([102]) == "Zg=="
    ensures Encode([102, 111]) == "Zm8="
    ensures Encode([102, 111, 111]) == "Zm9v"
    ensures Encode([102, 111, 111, 98]) == "Zm9vYg=="
    ensures Encode([102, 111, 111, 98, 97]) == "Zm9vYmE="
    ensures Encode([102, 111, 111, 98, 97, 114]) == "Zm9vYmFy"
  {
    Rfc4648Groups();
    var foobar: seq<byte> := [102, 111, 111, 98, 97, 114];
    assert foobar[..4][3..] == [98];
    assert foobar[..5][3..] == [98, 97];
    assert foobar[3..] == [98, 97, 114];
    assert Encode([98, 97, 114]) == "YmFy";
  }

  /** The decoder reads the longest vector back. */
  lemma Rfc4648DecodeVector()
    ensures Decode("Zm9vYmFy") == Success([102, 111, 111, 98, 97, 114])
  {
    Rfc4648Vectors();
    DecodeEncode([102, 111, 111, 98, 97, 114]);
  }
}
