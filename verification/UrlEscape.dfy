/** url.QueryEscape and url.QueryUnescape of the Go standard library, on strings of bytes. */
module UrlEscape {

  predicate IsByte(c: char) {
    c as int < 256
  }

  ghost predicate IsBytes(s: string) {
    forall i :: 0 <= i < |s| ==> IsByte(s[i])
  }

  /** The characters that need no escape. */
  predicate Unreserved(c: char) {
    'a' <= c <= 'z' || 'A' <= c <= 'Z' || '0' <= c <= '9' || c == '-' || c == '_' || c == '.' || c == '~'
  }

  function HexDigit(n: nat): char
    requires n < 16
  {
    if n < 10 then '0' + n as char else 'A' + (n - 10) as char
  }

  function HexValue(c: char): (n: int)
    ensures n < 16
  {
    if '0' <= c <= '9' then (c - '0') as int
    else if 'A' <= c <= 'F' then 10 + (c - 'A') as int
    else if 'a' <= c <= 'f' then 10 + (c - 'a') as int
    else -1
  }

  function EscapeChar(c: char): string
    requires IsByte(c)
  {
    if Unreserved(c) then [c]
    else if c == ' ' then "+"
    else ['%', HexDigit(c as int / 16), HexDigit(c as int % 16)]
  }

  function QueryEscape(s: string): string
    requires IsBytes(s)
  {
    if s == "" then "" else EscapeChar(s[0]) + QueryEscape(s[1..])
  }

  /** A malformed escape stays as it is, where the library reports an error. */
  function QueryUnescape(s: string): string {
    if s == "" then ""
    else if s[0] == '+' then " " + QueryUnescape(s[1..])
    else if s[0] == '%' && |s| >= 3 && HexValue(s[1]) >= 0 && HexValue(s[2]) >= 0 then
      [(16 * HexValue(s[1]) + HexValue(s[2])) as char] + QueryUnescape(s[3..])
    else [s[0]] + QueryUnescape(s[1..])
  }

  lemma HexValueOfDigit(n: nat)
    requires n < 16
    ensures HexValue(HexDigit(n)) == n
  {
  }

  lemma UnescapeChar(c: char, rest: string)
    requires IsByte(c)
    ensures QueryUnescape(EscapeChar(c) + rest) == [c] + QueryUnescape(rest)
  {
    var e := EscapeChar(c);
    assert (e + rest)[|e|..] == rest;
    HexValueOfDigit(c as int / 16);
    HexValueOfDigit(c as int % 16);
  }

  /** Unescaping restores an escaped string, whatever follows it. */
  lemma {:induction false} UnescapeUndoesEscape(s: string, rest: string)
    requires IsBytes(s)
    ensures QueryUnescape(QueryEscape(s) + rest) == s + QueryUnescape(rest)
  {
    hide EscapeChar, QueryUnescape;
    if s == "" {
      assert QueryEscape(s) + rest == rest;
    } else {
      var tail := QueryEscape(s[1..]) + rest;
      UnescapeUndoesEscape(s[1..], rest);
      UnescapeChar(s[0], tail);
      assert QueryEscape(s) + rest == EscapeChar(s[0]) + tail;
    }
  }

  /** A character that means itself in an escaped string. */
  lemma UnescapePlain(c: char, rest: string)
    requires c != '+' && c != '%'
    ensures QueryUnescape([c] + rest) == [c] + QueryUnescape(rest)
  {
    assert ([c] + rest)[1..] == rest;
  }

  // ----- The escaped text -----

  const HEX_DIGITS: string := "0123456789ABCDEF"

  /** The characters of an escaped text: letters, digits and - _ . ~ + % only. */
  predicate Sent(c: char) {
    'a' <= c <= 'z' || 'A' <= c <= 'Z' || '0' <= c <= '9' || c in "-_.~+%"
  }

  /** No separator stands in an escaped text. */
  lemma {:induction false} EscapedIsSent(s: string)
    requires IsBytes(s)
    ensures forall i :: 0 <= i < |QueryEscape(s)| ==> Sent(QueryEscape(s)[i])
  {
    hide EscapeChar, Sent;
    if s != "" {
      EscapedCharIsSent(s[0]);
      EscapedIsSent(s[1..]);
    }
  }

  lemma EscapedCharIsSent(c: char)
    requires IsByte(c)
    ensures forall i :: 0 <= i < |EscapeChar(c)| ==> Sent(EscapeChar(c)[i])
  {
  }

  /** Letters, digits and - _ . ~ stand for themselves, a space becomes a plus, and every other byte a percent sign and
      its two hexadecimal digits. */
  lemma EscapedByte(c: char)
    requires IsByte(c)
    ensures QueryEscape([c]) ==
            if Sent(c) && c != '+' && c != '%' then [c]
            else if c == ' ' then "+"
            else ['%', HEX_DIGITS[c as int / 16], HEX_DIGITS[c as int % 16]]
  {
    HexDigitIs(c as int / 16);
    HexDigitIs(c as int % 16);
    assert [c][1..] == "" && QueryEscape("") == "";
    assert EscapeChar(c) + "" == EscapeChar(c);
  }

  lemma HexDigitIs(n: nat)
    requires n < 16
    ensures HexDigit(n) == HEX_DIGITS[n]
  {
  }

  /** A text is escaped byte by byte. */
  lemma {:induction false} EscapeConcat(s: string, t: string)
    requires IsBytes(s) && IsBytes(t)
    ensures IsBytes(s + t) && QueryEscape(s + t) == QueryEscape(s) + QueryEscape(t)
  {
    hide EscapeChar;
    if s == "" {
      assert s + t == t && QueryEscape(s) == "";
    } else {
      assert (s + t)[0] == s[0] && (s + t)[1..] == s[1..] + t;
      EscapeConcat(s[1..], t);
      assert QueryEscape(s) + QueryEscape(t) == EscapeChar(s[0]) + (QueryEscape(s[1..]) + QueryEscape(t));
    }
  }
}
