/** The regression harness's decoding of expected hashes: hexadecimal text
    is turned into bytes and compared with the output buffer. */
module HashTest {
  import opened Bits

  /** `NETHASH_SIZE`: eight raw bytes followed by the 32-byte digest. */
  const NetHashSize := 8 + 32

  predicate IsHexDigit(ch: byte)
  {
    ('0' as int <= ch <= '9' as int) || ('A' as int <= ch <= 'F' as int) || ('a' as int <= ch <= 'f' as int)
  }

  /** `hex_to_int`: the value of a hexadecimal digit of either case, and
      `(unsigned char) -1`, that is 255, for any other character. */
  function HexToInt(ch: byte): (r: byte)
    ensures r < 16 <==> IsHexDigit(ch)
    ensures !IsHexDigit(ch) ==> r == 255
  {
    if '0' as int <= ch <= '9' as int then ch - '0' as int
    else if 'A' as int <= ch <= 'F' as int then ch - 'A' as int + 10
    else if 'a' as int <= ch <= 'f' as int then ch - 'a' as int + 10
    else 255
  }

  /** The lower-case digit of a nibble, as the expected hashes are written. */
  function HexLower(n: nat): (ch: byte)
    requires n < 16
    ensures IsHexDigit(ch)
  {
    if n < 10 then '0' as int + n else 'a' as int + (n - 10)
  }

  /** The upper-case digit of a nibble. */
  function HexUpper(n: nat): (ch: byte)
    requires n < 16
    ensures IsHexDigit(ch)
  {
    if n < 10 then '0' as int + n else 'A' as int + (n - 10)
  }

  /** Digits of either case decode to the nibble they spell. */
  lemma HexDigitRoundTrip(n: nat)
    requires n < 16
    ensures HexToInt(HexLower(n)) == n
    ensures HexToInt(HexUpper(n)) == n
  {
  }

  /** Every digit is the lower-case or the upper-case spelling of its value. */
  lemma HexDigitSpelling(ch: byte)
    requires IsHexDigit(ch)
    ensures ch == HexLower(HexToInt(ch)) || ch == HexUpper(HexToInt(ch))
  {
  }

  /** `(unsigned char) ((hex_to_int(a) << 4) | hex_to_int(b))`: the shifted
      value is an `int` and the assignment to `unsigned char` keeps its low
      eight bits. */
  function DecodePair(a: byte, b: byte): byte
  {
    Or(HexToInt(a) * 16, HexToInt(b)) % 256
  }

  /** Two nibbles joined by shift-or already fit in a byte. */
  lemma NibblePair(hi: nat, lo: nat)
    requires hi < 16 && lo < 16
    ensures Or(hi * 16, lo) % 256 == hi * 16 + lo
  {
    OrNibble(hi, lo);
  }

  /** Two digits decode to the byte they spell. */
  lemma DecodeDigits(a: byte, b: byte)
    requires IsHexDigit(a) && IsHexDigit(b)
    ensures DecodePair(a, b) == HexToInt(a) * 16 + HexToInt(b)
  {
    NibblePair(HexToInt(a), HexToInt(b));
  }

  /** The two lower-case digits of a byte. */
  function HexByte(x: byte): (digits: seq<byte>)
    ensures |digits| == 2 && IsHexDigit(digits[0]) && IsHexDigit(digits[1])
  {
    [HexLower(x / 16), HexLower(x % 16)]
  }

  /** The lower-case hexadecimal text of a byte string. */
  function HexString(bytes: seq<byte>): (text: seq<byte>)
    ensures |text| == 2 * |bytes|
    ensures forall j :: 0 <= j < |bytes| ==> text[2 * j] == HexByte(bytes[j])[0] && text[2 * j + 1] == HexByte(bytes[j])[1]
  {
    if bytes == [] then [] else HexByte(bytes[0]) + HexString(bytes[1..])
  }

  /** The lower-case hex of a byte decodes back to that byte. */
  lemma DecodeHexByte(x: byte)
    ensures DecodePair(HexByte(x)[0], HexByte(x)[1]) == x
  {
    HexDigitRoundTrip(x / 16);
    HexDigitRoundTrip(x % 16);
    DecodeDigits(HexByte(x)[0], HexByte(x)[1]);
  }

  /** The first `n` bytes of `buffer` are the bytes the hexadecimal text
      `expectation` spells. */
  predicate Matches(buffer: seq<byte>, expectation: seq<byte>, n: nat)
    requires n <= |buffer| && 2 * n <= |expectation|
  {
    forall j :: 0 <= j < n ==> buffer[j] == DecodePair(expectation[2 * j], expectation[2 * j + 1])
  }

  /** The comparison loop of the `RUN` macro as written: `i` steps through
      the expectation two characters at a time while `i < NETHASH_SIZE`, so
      `j` reaches only 19. The first mismatch fails the test. */
  method RunCompare(buffer: seq<byte>, expectation: seq<byte>) returns (passed: bool)
    requires |buffer| == NetHashSize && |expectation| >= NetHashSize
    ensures passed <==> Matches(buffer, expectation, NetHashSize / 2)
  {
    var i, j := 0, 0;
    while i < NetHashSize
      invariant 0 <= j <= NetHashSize / 2 && i == 2 * j
      invariant Matches(buffer, expectation, j)
    {
      var e := DecodePair(expectation[i], expectation[i + 1]);
      if buffer[j] != e {
        return false;
      }
      i, j := i + 2, j + 1;
    }
    return true;
  }

  /** The comparison as evidently intended: all 80 digits, all 40 bytes. */
  method RunCompareAll(buffer: seq<byte>, expectation: seq<byte>) returns (passed: bool)
    requires |buffer| == NetHashSize && |expectation| >= 2 * NetHashSize
    ensures passed <==> Matches(buffer, expectation, NetHashSize)
  {
    var i, j := 0, 0;
    while i < 2 * NetHashSize
      invariant 0 <= j <= NetHashSize && i == 2 * j
      invariant Matches(buffer, expectation, j)
    {
      var e := DecodePair(expectation[i], expectation[i + 1]);
      if buffer[j] != e {
        return false;
      }
      i, j := i + 2, j + 1;
    }
    return true;
  }

  /** The full comparison against the hex text of an expected output passes
      exactly when the output is that expected output. */
  lemma {:induction false} FullCompareExact(buffer: seq<byte>, expected: seq<byte>)
    requires |buffer| == |expected| == NetHashSize
    ensures Matches(buffer, HexString(expected), NetHashSize) <==> buffer == expected
  {
    var text := HexString(expected);
    forall j | 0 <= j < NetHashSize
      ensures DecodePair(text[2 * j], text[2 * j + 1]) == expected[j]
    {
      DecodeHexByte(expected[j]);
    }
  }

  /** As written, the comparison never looks at bytes 20..39: an output that
      differs from the expected one only there still passes. */
  lemma {:induction false} TailNeverCompared(buffer: seq<byte>, expected: seq<byte>)
    requires |buffer| == |expected| == NetHashSize
    requires buffer[..NetHashSize / 2] == expected[..NetHashSize / 2]
    ensures Matches(buffer, HexString(expected), NetHashSize / 2)
  {
    var text := HexString(expected);
    forall j | 0 <= j < NetHashSize / 2
      ensures buffer[j] == DecodePair(text[2 * j], text[2 * j + 1])
    {
      DecodeHexByte(expected[j]);
      assert buffer[j] == buffer[..NetHashSize / 2][j];
    }
  }

  /** A concrete pair: forty zero bytes pass the check as written against the
      expected text of forty bytes whose last one is 1. */
  lemma WrongOutputPasses()
    ensures var expected := seq(NetHashSize, j => if j == NetHashSize - 1 then 1 else 0);
      var buffer := seq(NetHashSize, j => 0);
      buffer != expected && Matches(buffer, HexString(expected), NetHashSize / 2) &&
      !Matches(buffer, HexString(expected), NetHashSize)
  {
    var expected: seq<byte> := seq(NetHashSize, j => if j == NetHashSize - 1 then 1 else 0);
    var buffer: seq<byte> := seq(NetHashSize, j => 0);
    assert buffer[NetHashSize - 1] != expected[NetHashSize - 1];
    assert buffer[..NetHashSize / 2] == expected[..NetHashSize / 2];
    TailNeverCompared(buffer, expected);
    FullCompareExact(buffer, expected);
  }
}
