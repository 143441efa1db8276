/** Go's `url.PathEscape` and `url.PathUnescape`: percent-encoding of one
    path segment, after section 2.1 of RFC 3986. Every byte outside the
    unreserved set and the sub-delimiters allowed in a segment is written as
    `%` and two upper-case hex digits; decoding reverses this and fails on a
    `%` not followed by two hex digits. */
module Escaping {
  import opened Results
  import Strings

  /** Unreserved characters of RFC 3986 section 2.3. */
  predicate Unreserved(c: char) {
    ('a' <= c <= 'z') || ('A' <= c <= 'Z') || ('0' <= c <= '9')
    || c == '-' || c == '_' || c == '.' || c == '~'
  }

  /** Characters PathEscape leaves alone: the unreserved ones and the
      reserved ones a path segment may carry (`$ & + : = @`). A char above
      0xFF is not a byte of a Go string and passes through unchanged. */
  predicate KeptInSegment(c: char) {
    Unreserved(c) || c == '$' || c == '&' || c == '+' || c == ':' || c == '=' || c == '@'
    || c as int >= 256
  }

  const UpperHex := "0123456789ABCDEF"

  predicate IsHex(c: char) {
    ('0' <= c <= '9') || ('a' <= c <= 'f') || ('A' <= c <= 'F')
  }

  function HexValue(c: char): (v: nat)
    requires IsHex(c)
    ensures v < 16
  {
    if '0' <= c <= '9' then c as int - '0' as int
    else if 'a' <= c <= 'f' then c as int - 'a' as int + 10
    else c as int - 'A' as int + 10
  }

  /** The encoding of one byte. */
  function EscapeChar(c: char): (r: string)
    ensures |r| == 1 || |r| == 3
    ensures forall i | 0 <= i < |r| :: !Strings.IsSpace(r[i])
    ensures |r| == 1 <==> KeptInSegment(c)
  {
    if KeptInSegment(c) then [c]
    else ['%', UpperHex[c as int / 16], UpperHex[c as int % 16]]
  }

  /** `url.PathEscape`. */
  function PathEscape(s: string): (r: string)
    ensures |r| >= |s|
    ensures |r| == 0 <==> |s| == 0
    ensures Strings.NoSpace(r)
    decreases |s|
  {
    if |s| == 0 then ""
    else EscapeChar(s[0]) + PathEscape(s[1..])
  }

  /** `url.PathUnescape`; the error carries the offending `%` sequence, at
      most three characters, as Go's `EscapeError` does. */
  function PathUnescape(s: string): (r: Result<string, string>)
    ensures r.Ok? ==> |r.value| <= |s|
    ensures r.Err? ==> 1 <= |r.error| <= 3 && r.error[0] == '%'
    ensures '%' !in s ==> r == Ok(s)
    decreases |s|
  {
    if |s| == 0 then Ok("")
    else if s[0] == '%' then
      if |s| < 3 || !IsHex(s[1]) || !IsHex(s[2]) then
        Err(if |s| < 3 then s else s[..3])
      else
        match PathUnescape(s[3..])
        case Err(e) => Err(e)
        case Ok(t) => Ok([(HexValue(s[1]) * 16 + HexValue(s[2])) as char] + t)
    else
      match PathUnescape(s[1..])
      case Err(e) => Err(e)
      case Ok(t) =>
        assert '%' !in s ==> s == [s[0]] + s[1..];
        Ok([s[0]] + t)
  }

  /** The two hex digits EscapeChar writes decode to the escaped byte. */
  lemma HexDigitsDecode(c: char)
    requires c as int < 256
    ensures IsHex(UpperHex[c as int / 16]) && IsHex(UpperHex[c as int % 16])
    ensures (HexValue(UpperHex[c as int / 16]) * 16 + HexValue(UpperHex[c as int % 16])) as char == c
  {
    var hi, lo := c as int / 16, c as int % 16;
    assert HexValue(UpperHex[hi]) == hi;
    assert HexValue(UpperHex[lo]) == lo;
  }

  /** Decoding one encoded byte followed by an encoded rest. */
  lemma UnescapeOne(c: char, rest: string)
    ensures PathUnescape(EscapeChar(c) + rest) ==
      match PathUnescape(rest)
      case Err(e) => Err(e)
      case Ok(t) => Ok([c] + t)
  {
    var e := EscapeChar(c) + rest;
    if KeptInSegment(c) {
      assert e[0] == c && e[1..] == rest;
    } else {
      assert e[0] == '%' && e[3..] == rest;
      HexDigitsDecode(c);
    }
  }

  /** Decoding an encoded segment gives back the segment. */
  lemma {:induction false} UnescapeEscape(s: string)
    ensures PathUnescape(PathEscape(s)) == Ok(s)
    decreases |s|
  {
    if |s| > 0 {
      UnescapeEscape(s[1..]);
      UnescapeOne(s[0], PathEscape(s[1..]));
      assert [s[0]] + s[1..] == s;
    }
  }

  /** Escaping works byte by byte, so it distributes over concatenation. */
  lemma {:induction false} EscapeConcat(a: string, b: string)
    ensures PathEscape(a + b) == PathEscape(a) + PathEscape(b)
    decreases |a|
  {
    if |a| > 0 {
      assert (a + b)[1..] == a[1..] + b;
      EscapeConcat(a[1..], b);
    } else {
      assert a + b == b;
    }
  }

  /** A segment made only of kept characters is its own escape. */
  lemma {:induction false} EscapeKept(s: string)
    requires forall i | 0 <= i < |s| :: KeptInSegment(s[i])
    ensures PathEscape(s) == s
    decreases |s|
  {
    if |s| > 0 {
      EscapeKept(s[1..]);
      assert [s[0]] + s[1..] == s;
    }
  }
}
