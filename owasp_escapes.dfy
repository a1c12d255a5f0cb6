/**
 * The OWASP-style escape table for Jackson: every ASCII character except
 * letters and digits is escaped, and the escape is written as a JSON
 * `\uXXXX` sequence (section 7 of RFC 8259).
 */
module OwaspEscapes {

  /** Jackson's `CharacterEscapes.ESCAPE_CUSTOM`. */
  const EscapeCustom: int := -2

  /** `Character.isAlphabetic(i) || Character.isDigit(i)` restricted to ASCII code points. */
  predicate IsLetterOrDigit(i: int)
  {
    ('A' as int <= i <= 'Z' as int) || ('a' as int <= i <= 'z' as int) || ('0' as int <= i <= '9' as int)
  }

  class OwaspCharacterEscapes {
    var escapes: array<int>

    /**
     * `standard` is Jackson's `standardAsciiEscapesForJSON()`, a fresh copy of
     * its 128-entry table; the constructor overwrites every entry that is not a
     * letter or digit.
     */
    constructor (standard: seq<int>)
      requires |standard| == 128
      ensures fresh(escapes) && escapes.Length == 128
      ensures forall i :: 0 <= i < 128 && IsLetterOrDigit(i) ==> escapes[i] == standard[i]
      ensures forall i :: 0 <= i < 128 && !IsLetterOrDigit(i) ==> escapes[i] == EscapeCustom
    {
      var a := new int[128](i requires 0 <= i < 128 => standard[i]);
      var i := 0;
      while i < a.Length
        invariant 0 <= i <= a.Length == 128
        invariant forall j :: 0 <= j < 128 && (i <= j || IsLetterOrDigit(j)) ==> a[j] == standard[j]
        invariant forall j :: 0 <= j < i && !IsLetterOrDigit(j) ==> a[j] == EscapeCustom
      {
        if !IsLetterOrDigit(i) {
          a[i] := EscapeCustom;
        }
        i := i + 1;
      }
      escapes := a;
    }

    /** Hands out the table itself, not a copy. */
    method GetEscapeCodesForAscii() returns (r: array<int>)
      ensures r == escapes
    {
      r := escapes;
    }
  }

  /** Lower-case hexadecimal digit of a value in [0, 16). */
  function HexDigit(d: nat): (c: char)
    requires d < 16
    ensures d < 10 ==> c == ('0' as int + d) as char
    ensures 10 <= d ==> c == ('a' as int + d - 10) as char
  {
    "0123456789abcdef"[d]
  }

  /** `Integer.toHexString` of a non-negative value: no leading zeros, "0" for zero. */
  function Hex(n: nat): seq<char>
    decreases n
  {
    if n < 16 then [HexDigit(n)] else Hex(n / 16) + [HexDigit(n % 16)]
  }

  /** The `%04x` conversion of a Java int: negative values print as their 32-bit two's complement. */
  function FormatHex4(ch: int): seq<char>
    requires -0x8000_0000 <= ch < 0x8000_0000
  {
    var digits := Hex(if ch < 0 then ch + 0x1_0000_0000 else ch);
    if |digits| < 4 then seq(4 - |digits|, _ => '0') + digits else digits
  }

  /** `getEscapeSequence(ch)`: a backslash, `u`, then `ch` in lower-case hex, zero-padded to four digits. */
  function EscapeSequence(ch: int): (r: seq<char>)
    requires -0x8000_0000 <= ch < 0x8000_0000
    ensures |r| >= 6 && r[..2] == ['\\', 'u']
    ensures 0 <= ch <= 0xFFFF ==> |r| == 6
    ensures 0xFFFF < ch || ch < 0 ==> |r| > 6
  {
    HexLength(if ch < 0 then ch + 0x1_0000_0000 else ch);
    ['\\', 'u'] + FormatHex4(ch)
  }

  /** Hexadecimal digit value, either case, as section 7 of RFC 8259 allows. */
  function HexValue(c: char): (r: int)
    ensures -1 <= r < 16
  {
    if '0' <= c <= '9' then c as int - '0' as int
    else if 'a' <= c <= 'f' then c as int - 'a' as int + 10
    else if 'A' <= c <= 'F' then c as int - 'A' as int + 10
    else -1
  }

  /** Decodes a JSON `\uXXXX` escape to its code unit, or -1 when `s` is not one. */
  function DecodeEscape(s: seq<char>): (r: int)
    ensures -1 <= r <= 0xFFFF
  {
    if |s| == 6 && s[0] == '\\' && s[1] == 'u'
       && HexValue(s[2]) >= 0 && HexValue(s[3]) >= 0 && HexValue(s[4]) >= 0 && HexValue(s[5]) >= 0
    then ((HexValue(s[2]) * 16 + HexValue(s[3])) * 16 + HexValue(s[4])) * 16 + HexValue(s[5])
    else -1
  }

  lemma {:induction false} HexLength(n: nat)
    ensures 1 <= |Hex(n)|
    ensures n < 16 ==> |Hex(n)| == 1
    ensures 16 <= n < 256 ==> |Hex(n)| == 2
    ensures 256 <= n < 4096 ==> |Hex(n)| == 3
    ensures 4096 <= n < 0x1_0000 ==> |Hex(n)| == 4
    ensures 0x1_0000 <= n ==> |Hex(n)| > 4
    decreases n
  {
    if n >= 16 {
      HexLength(n / 16);
    }
  }

  lemma HexValueOfDigit(d: nat)
    requires d < 16
    ensures HexValue(HexDigit(d)) == d
  {
  }

  /** The four hex digits of a code unit, most significant first. */
  lemma FourDigits(ch: int)
    requires 0 <= ch <= 0xFFFF
    ensures FormatHex4(ch) == [HexDigit(ch / 4096), HexDigit(ch / 256 % 16), HexDigit(ch / 16 % 16), HexDigit(ch % 16)]
  {
    HexLength(ch);
    if ch < 16 {
      FourDigits1(ch);
    } else if ch < 256 {
      FourDigits2(ch);
    } else if ch < 4096 {
      FourDigits3(ch);
    } else {
      FourDigits4(ch);
    }
  }

  lemma FourDigits1(ch: int)
    requires 0 <= ch < 16
    ensures FormatHex4(ch) == [HexDigit(ch / 4096), HexDigit(ch / 256 % 16), HexDigit(ch / 16 % 16), HexDigit(ch % 16)]
  {
    assert Hex(ch) == [HexDigit(ch)];
    assert ch / 4096 == 0 && ch / 256 % 16 == 0 && ch / 16 % 16 == 0 && ch % 16 == ch;
  }

  lemma FourDigits2(ch: int)
    requires 16 <= ch < 256
    ensures FormatHex4(ch) == [HexDigit(ch / 4096), HexDigit(ch / 256 % 16), HexDigit(ch / 16 % 16), HexDigit(ch % 16)]
  {
    HexSplit(ch);
    assert ch / 4096 == 0 && ch / 256 % 16 == 0 && ch / 16 % 16 == ch / 16;
  }

  lemma FourDigits3(ch: int)
    requires 256 <= ch < 4096
    ensures FormatHex4(ch) == [HexDigit(ch / 4096), HexDigit(ch / 256 % 16), HexDigit(ch / 16 % 16), HexDigit(ch % 16)]
  {
    HexSplit(ch);
    HexSplit(ch / 16);
    assert ch / 4096 == 0 && ch / 256 % 16 == ch / 256 && ch / 16 / 16 == ch / 256;
  }

  lemma FourDigits4(ch: int)
    requires 4096 <= ch <= 0xFFFF
    ensures FormatHex4(ch) == [HexDigit(ch / 4096), HexDigit(ch / 256 % 16), HexDigit(ch / 16 % 16), HexDigit(ch % 16)]
  {
    HexSplit(ch);
    HexSplit(ch / 16);
    HexSplit(ch / 256);
    assert ch / 256 / 16 == ch / 4096;
    assert ch / 256 % 16 == ch / 16 / 16 % 16;
  }

  lemma HexSplit(n: nat)
    requires n >= 16
    ensures Hex(n) == Hex(n / 16) + [HexDigit(n % 16)]
    ensures n / 16 / 16 == n / 256 && n / 16 % 16 == n / 16 % 16
  {
  }

  lemma DigitsCompose(ch: int)
    requires 0 <= ch <= 0xFFFF
    ensures ((ch / 4096 * 16 + ch / 256 % 16) * 16 + ch / 16 % 16) * 16 + ch % 16 == ch
  {
    assert ch / 4096 * 16 + ch / 256 % 16 == ch / 256;
    assert ch / 256 * 16 + ch / 16 % 16 == ch / 16;
    assert ch / 16 * 16 + ch % 16 == ch;
  }

  /** For a UTF-16 code unit, the escape is exactly the four-digit form and decodes back to `ch`. */
  lemma EscapeRoundTrip(ch: int)
    requires 0 <= ch <= 0xFFFF
    ensures DecodeEscape(EscapeSequence(ch)) == ch
  {
    FourDigits(ch);
    HexValueOfDigit(ch / 4096);
    HexValueOfDigit(ch / 256 % 16);
    HexValueOfDigit(ch / 16 % 16);
    HexValueOfDigit(ch % 16);
    DigitsCompose(ch);
  }
}
