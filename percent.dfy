/** Percent-decoding (section 2.1 of RFC 3986) as Python's urllib.unquote
    performs it on the path of a link target. */
module Percent {

  predicate IsHexDigit(c: char) {
    '0' <= c <= '9' || 'a' <= c <= 'f' || 'A' <= c <= 'F'
  }

  function HexValue(c: char): (v: nat)
    requires IsHexDigit(c)
    ensures v < 16
  {
    if '0' <= c <= '9' then c as int - '0' as int
    else if 'a' <= c <= 'f' then c as int - 'a' as int + 10
    else c as int - 'A' as int + 10
  }

  /** Each '%' followed by two hexadecimal digits becomes the character whose
      code is the octet they spell; every other character, including a '%'
      that is not followed by two hexadecimal digits, is kept. */
  function Unquote(s: string): (r: string)
    ensures |r| <= |s|
    ensures r == [] <==> s == []
    ensures '%' !in s ==> r == s
  {
    if s == [] then []
    else if |s| >= 3 && s[0] == '%' && IsHexDigit(s[1]) && IsHexDigit(s[2]) then
      [(16 * HexValue(s[1]) + HexValue(s[2])) as char] + Unquote(s[3..])
    else
      [s[0]] + Unquote(s[1..])
  }

  function HexDigit(v: nat): (c: char)
    requires v < 16
    ensures IsHexDigit(c) && HexValue(c) == v
  {
    if v < 10 then ('0' as int + v) as char else ('A' as int + v - 10) as char
  }

  /** Percent-encoding of the characters in esc whose code fits in one
      octet; every other character is kept as it is. The reference against
      which Unquote is checked. */
  function EncodeWhere(s: string, esc: set<char>): string {
    if s == [] then []
    else if s[0] in esc && (s[0] as int) < 256 then
      ['%', HexDigit(s[0] as int / 16), HexDigit(s[0] as int % 16)] + EncodeWhere(s[1..], esc)
    else
      [s[0]] + EncodeWhere(s[1..], esc)
  }

  /** Decoding undoes encoding, whichever characters the encoder escapes,
      provided a literal '%' is among them. */
  lemma {:induction false} UnquoteEncode(s: string, esc: set<char>)
    requires '%' in s ==> '%' in esc
    ensures Unquote(EncodeWhere(s, esc)) == s
  {
    if s != [] {
      assert '%' in s[1..] ==> '%' in s;
      UnquoteEncode(s[1..], esc);
      var e := EncodeWhere(s, esc);
      if s[0] in esc && (s[0] as int) < 256 {
        assert e[3..] == EncodeWhere(s[1..], esc);
      } else {
        assert s[0] != '%';
        assert e[1..] == EncodeWhere(s[1..], esc);
      }
      assert s == [s[0]] + s[1..];
    }
  }

  /** Each escape is one code point: the two UTF-8 octets of a non-ASCII
      character come back as two characters, not as the one they encode. */
  lemma UnquoteKeepsOctets()
    ensures Unquote("%C3%A9") == ['\U{C3}', '\U{A9}']
    ensures Unquote("%C3%A9") != "\U{E9}"
  {
    assert Unquote("%C3%A9"[3..]) == ['\U{A9}'];
  }
}
