/** The sentence checksum: an XOR of bytes, written after '*' as two
    hexadecimal digits, and `hex_chars_to_u8`, which reads them back. */
module Checksum {
  import opened Common

  /** XOR of all bytes of `s`, starting from 0. */
  function Xor(s: seq<byte>): (x: byte)
    ensures s == [] ==> x == 0
    ensures |s| == 1 ==> x == s[0]
  {
    if s == [] then 0 else s[0] ^ Xor(s[1..])
  }

  /** Folding one more byte into the checksum, as the scan loop does. */
  lemma {:induction false} XorSnoc(s: seq<byte>, c: byte)
    ensures Xor(s + [c]) == Xor(s) ^ c
  {
    if s != [] {
      assert (s + [c])[1..] == s[1..] + [c];
      XorSnoc(s[1..], c);
    }
  }

  /** The checksum of two pieces is the XOR of their checksums. */
  lemma {:induction false} XorAppend(a: seq<byte>, b: seq<byte>)
    ensures Xor(a + b) == Xor(a) ^ Xor(b)
  {
    if a == [] {
      assert a + b == b;
    } else {
      assert (a + b)[1..] == a[1..] + b;
      XorAppend(a[1..], b);
    }
  }

  /** One digit as `hex_chars_to_u8` computes it in u8 arithmetic: below 'A'
      it subtracts '0', otherwise it subtracts 'A' and adds 10. `None` is the
      subtraction that underflows (a byte below '0'). */
  function DigitValue(c: byte): (r: Option<byte>)
    ensures r.None? <==> c < 0x30
  {
    if c < 0x41 then (if c < 0x30 then None else Some(c - 0x30)) else Some(c - 0x41 + 10)
  }

  /** `hex_chars_to_u8` with u8 arithmetic checked as in a debug build: `None`
      when a digit subtraction underflows, when 16 times the first digit
      overflows, or when adding the second digit overflows. */
  function HexCharsToU8(h: seq<byte>): (r: Option<byte>)
    requires |h| >= 2
    ensures h[0] < 0x30 || h[1] < 0x30 ==> r == None
    ensures 0x61 <= h[0] <= 0x66 ==> r == None
  {
    match (DigitValue(h[0]), DigitValue(h[1]))
    case (Some(hi), Some(lo)) =>
      if hi >= 16 || lo > 255 - (hi << 4) then None else Some((hi << 4) + lo)
    case _ => None
  }

  /** The upper-case hexadecimal digits of the sentence format. */
  predicate IsHexDigit(c: byte) {
    (0x30 <= c <= 0x39) || (0x41 <= c <= 0x46)
  }

  function HexDigit(d: byte): (c: byte)
    requires d < 16
    ensures IsHexDigit(c)
  {
    if d < 10 then 0x30 + d else 0x41 + d - 10
  }

  /** How a sender writes a checksum: high digit first, upper case. */
  function HexEncode(b: byte): (h: seq<byte>)
    ensures |h| == 2 && IsHexDigit(h[0]) && IsHexDigit(h[1])
  {
    [HexDigit(b >> 4), HexDigit(b & 0xF)]
  }

  /** Reading back what a sender wrote gives the byte it encoded. */
  lemma HexRoundTrip(b: byte)
    ensures HexCharsToU8(HexEncode(b)) == Some(b)
  {
  }

  /** Every pair of upper-case digits is read without overflow, and it is the
      encoding of the byte read: reading is the inverse of writing. */
  lemma HexDigitsRoundTrip(h: seq<byte>)
    requires |h| == 2 && IsHexDigit(h[0]) && IsHexDigit(h[1])
    ensures HexCharsToU8(h).Some?
    ensures HexEncode(HexCharsToU8(h).value) == h
  {
  }

  /** The decodings the source's tests check: "72", "FA" and "6C". */
  lemma HexExamples()
    ensures HexCharsToU8([0x37, 0x32]) == Some(0x72)
    ensures HexCharsToU8([0x46, 0x41]) == Some(0xFA)
    ensures HexCharsToU8([0x36, 0x43]) == Some(0x6C)
  {
  }

  /** A lower-case second digit is not rejected: "0a" reads as 42, not 10,
      and "Da" as 208 + 42. After a first digit 'E' or 'F' the same misreading
      overflows: "Ea" is 224 + 42. */
  lemma LowerCaseSecondDigitMisread()
    ensures HexCharsToU8([0x30, 0x61]) == Some(42)
    ensures HexCharsToU8([0x44, 0x61]) == Some(250)
    ensures HexCharsToU8([0x45, 0x61]) == None
    ensures HexCharsToU8([0x46, 0x61]) == None
  {
  }
}
