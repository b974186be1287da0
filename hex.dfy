/** The two-character hexadecimal fields of the operator's commands.
    The bridge hands each field to `strtol(.., 16)`; on two hex digits that
    yields 16 * high + low. Both letter cases are accepted, as strtol does. */
module Hex {
  import opened Bytes

  predicate IsHexDigit(c: char) {
    ('0' <= c <= '9') || ('a' <= c <= 'f') || ('A' <= c <= 'F')
  }

  /** The value of one hex digit. */
  function HexVal(c: char): (n: nat)
    requires IsHexDigit(c)
    ensures n < 16
  {
    if '0' <= c <= '9' then c as int - '0' as int
    else if 'a' <= c <= 'f' then c as int - 'a' as int + 10
    else c as int - 'A' as int + 10
  }

  /** The upper-case digit for a value below 16, as `%X` prints it. */
  function HexChar(n: nat): (c: char)
    requires n < 16
    ensures IsHexDigit(c) && HexVal(c) == n
    ensures !('a' <= c <= 'f')
  {
    if n < 10 then ('0' as int + n) as char else ('A' as int + n - 10) as char
  }

  /** The upper-case form of a character: 'a'..'f' become 'A'..'F', the rest stay. */
  function UpperCase(c: char): char {
    if 'a' <= c <= 'f' then (c as int - 'a' as int + 'A' as int) as char else c
  }

  /** A digit is worth what its upper-case spelling is worth, and that spelling
      is the one `HexChar` gives for its value; with `HexChar`'s own contract this
      fixes every digit's value: '0'..'9' are 0..9, 'A'..'F' and 'a'..'f' are 10..15. */
  lemma HexValIgnoresCase(c: char)
    requires IsHexDigit(c)
    ensures IsHexDigit(UpperCase(c)) && HexVal(c) == HexVal(UpperCase(c))
    ensures HexChar(HexVal(c)) == UpperCase(c)
  {
  }

  /** The value of the field `hl` read as a base-16 number. */
  function ParseHexByte(h: char, l: char): Byte
    requires IsHexDigit(h) && IsHexDigit(l)
  {
    16 * HexVal(h) + HexVal(l)
  }

  /** The high digit of a field is the upper nibble of its byte, the low digit the lower one. */
  lemma ParseHexByteNibbles(h: char, l: char)
    requires IsHexDigit(h) && IsHexDigit(l)
    ensures ParseHexByte(h, l) / 16 == HexVal(h) && ParseHexByte(h, l) % 16 == HexVal(l)
  {
  }

  /** Every byte has a two-digit spelling that parses back to it. */
  lemma ParseHexByteOfHexChars(b: Byte)
    ensures ParseHexByte(HexChar(b / 16), HexChar(b % 16)) == b
  {
  }

  /** A field denotes the same byte whichever case its letters are written in. */
  lemma ParseHexByteIgnoresCase(h: char, l: char)
    requires IsHexDigit(h) && IsHexDigit(l)
    ensures IsHexDigit(UpperCase(h)) && IsHexDigit(UpperCase(l))
    ensures ParseHexByte(h, l) == ParseHexByte(UpperCase(h), UpperCase(l))
  {
    HexValIgnoresCase(h);
    HexValIgnoresCase(l);
  }

  /** Two fields denote the same byte exactly when their digits have the same values. */
  lemma ParseHexByteInjective(h: char, l: char, h': char, l': char)
    requires IsHexDigit(h) && IsHexDigit(l) && IsHexDigit(h') && IsHexDigit(l')
    ensures ParseHexByte(h, l) == ParseHexByte(h', l') <==> HexVal(h) == HexVal(h') && HexVal(l) == HexVal(l')
  {
    ParseHexByteNibbles(h, l);
    ParseHexByteNibbles(h', l');
  }
}
