/** Percent-escapes as Go's net/url writes and reads them: the escape validity check
    that url.Parse applies to paths, hosts, user information and fragments, and the
    query-component escaping of url.QueryEscape together with its inverse. A Go string
    is the UTF-8 encoding of a Dafny string, so escaping works on UTF-8 bytes. */
module Escape {
  import opened Wrappers

  type byte = b: int | 0 <= b < 256

  predicate IsHex(c: char) {
    '0' <= c <= '9' || 'a' <= c <= 'f' || 'A' <= c <= 'F'
  }

  function Unhex(c: char): (v: nat)
    requires IsHex(c)
    ensures v < 16
  {
    if '0' <= c <= '9' then c as int - '0' as int
    else if 'a' <= c <= 'f' then c as int - 'a' as int + 10
    else c as int - 'A' as int + 10
  }

  /** The upper-case hexadecimal digit that net/url writes for `v`. */
  function HexDigit(v: nat): (c: char)
    requires v < 16
    ensures IsHex(c) && Unhex(c) == v
  {
    if v < 10 then ('0' as int + v) as char else ('A' as int + v - 10) as char
  }

  /** Every `%` starts an escape made of two hexadecimal digits: what net/url's
      unescape accepts, and so what url.Parse requires of a path, a host, user
      information and a fragment. */
  predicate ValidEscapes(s: string)
    decreases |s|
  {
    if s == [] then true
    else if s[0] == '%' then |s| >= 3 && IsHex(s[1]) && IsHex(s[2]) && ValidEscapes(s[3..])
    else ValidEscapes(s[1..])
  }

  /** An ASCII control character (below 0x20, or DEL), which url.Parse refuses. */
  predicate IsCtl(c: char) {
    c < ' ' || c as int == 0x7F
  }

  predicate HasCtl(s: string) {
    exists c :: c in s && IsCtl(c)
  }

  // ---------------------------------------------------------------------------
  // UTF-8

  /** The UTF-8 encoding of one character (unicode/utf8.EncodeRune). */
  function Utf8(c: char): (b: seq<byte>)
    ensures 1 <= |b| <= 4
    ensures |b| == 1 <==> c as int < 0x80
    ensures |b| == 1 ==> b[0] == c as int
    ensures c as int >= 0x80 ==> forall i :: 0 <= i < |b| ==> b[i] >= 0x80
  {
    var n := c as int;
    if n < 0x80 then [n]
    else if n < 0x800 then [0xC0 + n / 64, 0x80 + n % 64]
    else if n < 0x10000 then [0xE0 + n / 64 / 64, 0x80 + n / 64 % 64, 0x80 + n % 64]
    else [0xF0 + n / 64 / 64 / 64, 0x80 + n / 64 / 64 % 64, 0x80 + n / 64 % 64, 0x80 + n % 64]
  }

  function Utf8Encode(s: string): (b: seq<byte>)
    decreases |s|
  {
    if s == [] then [] else Utf8(s[0]) + Utf8Encode(s[1..])
  }

  predicate IsContinuation(b: byte) {
    0x80 <= b < 0xC0
  }

  /** The character with code point `n`, if `n` is a Unicode scalar value. */
  function ScalarChar(n: int): Option<char> {
    if 0 <= n < 0xD800 || 0xE000 <= n < 0x11_0000 then Some(n as char) else None
  }

  /** The character with code point `n` written in a sequence whose shortest value
      is `least`; None for an overlong form, which unicode/utf8 refuses. */
  function SequenceChar(n: int, least: int): (r: Option<char>)
    ensures r.Some? ==> r.value as int == n && n >= least
  {
    if n < least then None else ScalarChar(n)
  }

  /** Reads one UTF-8 sequence from the front of `b`: the character and the number of
      bytes it took. An ASCII character is always a single byte. */
  function DecodeOne(b: seq<byte>): (r: Option<(char, nat)>)
    ensures r.Some? ==> 1 <= r.value.1 <= |b|
    ensures r.Some? && r.value.0 as int < 0x80 ==> r.value.1 == 1 && b[0] == r.value.0 as int
  {
    if |b| == 0 then None
    else if b[0] < 0x80 then Some((b[0] as char, 1))
    else if 0xC0 <= b[0] < 0xE0 && |b| >= 2 && IsContinuation(b[1]) then
      match SequenceChar((b[0] as int - 0xC0) * 64 + (b[1] as int - 0x80), 0x80)
      case Some(c) => Some((c, 2))
      case None => None
    else if 0xE0 <= b[0] < 0xF0 && |b| >= 3 && IsContinuation(b[1]) && IsContinuation(b[2]) then
      match SequenceChar(((b[0] as int - 0xE0) * 64 + (b[1] as int - 0x80)) * 64 + (b[2] as int - 0x80), 0x800)
      case Some(c) => Some((c, 3))
      case None => None
    else if 0xF0 <= b[0] < 0xF8 && |b| >= 4 && IsContinuation(b[1]) && IsContinuation(b[2])
      && IsContinuation(b[3]) then
      match SequenceChar((((b[0] as int - 0xF0) * 64 + (b[1] as int - 0x80)) * 64 + (b[2] as int - 0x80)) * 64 + (b[3] as int - 0x80), 0x10000)
      case Some(c) => Some((c, 4))
      case None => None
    else None
  }

  /** UTF-8 decoding; None when `b` is not valid UTF-8 (which a Dafny string cannot
      hold). */
  function Utf8Decode(b: seq<byte>): Option<string>
    decreases |b|
  {
    if b == [] then Some("")
    else
      match DecodeOne(b)
      case None => None
      case Some((c, n)) =>
        match Utf8Decode(b[n..])
        case None => None
        case Some(t) => Some([c] + t)
  }

  lemma DivMod64(n: int)
    requires n >= 0
    ensures n == n / 64 * 64 + n % 64
  {
  }

  lemma DecodeOneUtf8(c: char, rest: seq<byte>)
    ensures DecodeOne(Utf8(c) + rest) == Some((c, |Utf8(c)|))
  {
    var n := c as int;
    if n < 0x80 {
    } else if n < 0x800 {
      DecodeTwo(c, rest);
    } else if n < 0x10000 {
      DecodeThree(c, rest);
    } else {
      DecodeFour(c, rest);
    }
  }

  lemma DecodeTwo(c: char, rest: seq<byte>)
    requires 0x80 <= c as int < 0x800
    ensures DecodeOne(Utf8(c) + rest) == Some((c, 2))
  {
    var n := c as int;
    var b := Utf8(c) + rest;
    DivMod64(n);
    assert (b[0] as int - 0xC0) * 64 + (b[1] as int - 0x80) == n;
  }

  lemma DecodeThree(c: char, rest: seq<byte>)
    requires 0x800 <= c as int < 0x10000
    ensures DecodeOne(Utf8(c) + rest) == Some((c, 3))
  {
    var n := c as int;
    var b := Utf8(c) + rest;
    DivMod64(n);
    DivMod64(n / 64);
    assert ((b[0] as int - 0xE0) * 64 + (b[1] as int - 0x80)) * 64 + (b[2] as int - 0x80) == n;
  }

  lemma DecodeFour(c: char, rest: seq<byte>)
    requires 0x10000 <= c as int
    ensures DecodeOne(Utf8(c) + rest) == Some((c, 4))
  {
    var n := c as int;
    var b := Utf8(c) + rest;
    DivMod64(n);
    DivMod64(n / 64);
    DivMod64(n / 64 / 64);
    assert (((b[0] as int - 0xF0) * 64 + (b[1] as int - 0x80)) * 64 + (b[2] as int - 0x80)) * 64 + (b[3] as int - 0x80) == n;
  }

  /** Decoding undoes encoding. */
  lemma {:induction false} Utf8RoundTrip(s: string)
    ensures Utf8Decode(Utf8Encode(s)) == Some(s)
    decreases |s|
  {
    if s != [] {
      var rest := Utf8Encode(s[1..]);
      DecodeOneUtf8(s[0], rest);
      assert (Utf8(s[0]) + rest)[|Utf8(s[0])|..] == rest;
      Utf8RoundTrip(s[1..]);
      assert s == [s[0]] + s[1..];
    }
  }

  // ---------------------------------------------------------------------------
  // Query-component escaping (url.QueryEscape and url.QueryUnescape)

  /** The characters url.QueryEscape leaves alone: ASCII letters and digits and
      `-`, `_`, `.`, `~`. */
  predicate Unreserved(c: char) {
    'a' <= c <= 'z' || 'A' <= c <= 'Z' || '0' <= c <= '9' || c == '-' || c == '_' || c == '.' || c == '~'
  }

  function EscapeBytes(bs: seq<byte>): (r: string)
    ensures |r| == 3 * |bs|
    decreases |bs|
  {
    if bs == [] then ""
    else ['%', HexDigit(bs[0] / 16), HexDigit(bs[0] % 16)] + EscapeBytes(bs[1..])
  }

  function EscapeChar(c: char): string {
    if Unreserved(c) then [c] else if c == ' ' then "+" else EscapeBytes(Utf8(c))
  }

  /** What may appear in escaped text: unreserved characters, `+` and `%`. In
      particular never `&`, `=`, `#` or `?`. */
  predicate EscapedText(s: string) {
    forall i :: 0 <= i < |s| ==> Unreserved(s[i]) || s[i] == '+' || s[i] == '%'
  }

  /** url.QueryEscape: every byte outside the unreserved set is written as `%XX`, a
      space as `+`. The result uses only unreserved characters, `+` and `%`. */
  function QueryEscape(s: string): (r: string)
    ensures EscapedText(r)
    decreases |s|
  {
    if s == [] then ""
    else
      var head := EscapeChar(s[0]);
      assert EscapedText(head) by {
        if !Unreserved(s[0]) && s[0] != ' ' {
          EscapeBytesText(Utf8(s[0]));
        }
      }
      head + QueryEscape(s[1..])
  }

  lemma {:induction false} EscapeBytesText(bs: seq<byte>)
    ensures EscapedText(EscapeBytes(bs))
    decreases |bs|
  {
    if bs != [] {
      EscapeBytesText(bs[1..]);
    }
  }

  function Prepend(p: seq<byte>, o: Option<seq<byte>>): Option<seq<byte>> {
    match o
    case None => None
    case Some(t) => Some(p + t)
  }

  /** The bytes escaped text stands for: `%XX` is the byte XX, `+` a space, any other
      character its own UTF-8 bytes. None on a malformed escape. */
  function UnescapeBytes(s: string): Option<seq<byte>>
    decreases |s|
  {
    if s == [] then Some([])
    else if s[0] == '%' then
      if |s| >= 3 && IsHex(s[1]) && IsHex(s[2]) then
        Prepend([Unhex(s[1]) * 16 + Unhex(s[2])], UnescapeBytes(s[3..]))
      else None
    else Prepend(if s[0] == '+' then [0x20] else Utf8(s[0]), UnescapeBytes(s[1..]))
  }

  /** url.QueryUnescape, with the bytes read back as UTF-8. */
  function QueryUnescape(s: string): Option<string> {
    match UnescapeBytes(s)
    case None => None
    case Some(b) => Utf8Decode(b)
  }

  lemma {:induction false} UnescapeEscapeBytes(bs: seq<byte>, rest: string)
    ensures UnescapeBytes(EscapeBytes(bs) + rest) == Prepend(bs, UnescapeBytes(rest))
    decreases |bs|
  {
    if bs != [] {
      var s := EscapeBytes(bs) + rest;
      assert s[3..] == EscapeBytes(bs[1..]) + rest;
      assert s[0] == '%' && IsHex(s[1]) && IsHex(s[2]);
      assert Unhex(s[1]) * 16 + Unhex(s[2]) == bs[0];
      UnescapeEscapeBytes(bs[1..], rest);
      assert bs == [bs[0]] + bs[1..];
      match UnescapeBytes(rest)
      case None =>
      case Some(t) =>
        assert UnescapeBytes(s) == Some([bs[0]] + (bs[1..] + t));
        assert [bs[0]] + (bs[1..] + t) == bs + t;
    } else {
      assert EscapeBytes(bs) + rest == rest;
      match UnescapeBytes(rest)
      case None =>
      case Some(t) => assert bs + t == t;
    }
  }

  lemma {:induction false} UnescapeEscape(s: string)
    ensures UnescapeBytes(QueryEscape(s)) == Some(Utf8Encode(s))
    decreases |s|
  {
    if s != [] {
      var head := EscapeChar(s[0]);
      var tail := QueryEscape(s[1..]);
      UnescapeEscape(s[1..]);
      if Unreserved(s[0]) || s[0] == ' ' {
        assert (head + tail)[1..] == tail;
      } else {
        UnescapeEscapeBytes(Utf8(s[0]), tail);
      }
    }
  }

  /** Unescaping undoes url.QueryEscape. */
  lemma QueryRoundTrip(s: string)
    ensures QueryUnescape(QueryEscape(s)) == Some(s)
  {
    UnescapeEscape(s);
    Utf8RoundTrip(s);
  }

  /** So url.QueryEscape never maps two strings to the same text. */
  lemma QueryEscapeInjective(s: string, t: string)
    requires QueryEscape(s) == QueryEscape(t)
    ensures s == t
  {
    QueryRoundTrip(s);
    QueryRoundTrip(t);
  }

  /** Text without '%' has no escape to get wrong. */
  lemma {:induction false} NoPercentValid(s: string)
    requires '%' !in s
    ensures ValidEscapes(s)
    decreases |s|
  {
    if s != [] {
      NoPercentValid(s[1..]);
    }
  }

  /** url.QueryEscape works character by character. */
  lemma {:induction false} QueryEscapeConcat(s: string, t: string)
    ensures QueryEscape(s + t) == QueryEscape(s) + QueryEscape(t)
    decreases |s|
  {
    if s != [] {
      assert (s + t)[1..] == s[1..] + t;
      QueryEscapeConcat(s[1..], t);
    } else {
      assert s + t == t;
    }
  }

  /** url.QueryEscape leaves unreserved text as it is. */
  lemma {:induction false} QueryEscapeUnreserved(s: string)
    requires forall i :: 0 <= i < |s| ==> Unreserved(s[i])
    ensures QueryEscape(s) == s
    decreases |s|
  {
    if s != [] {
      QueryEscapeUnreserved(s[1..]);
      assert s == [s[0]] + s[1..];
    }
  }
}
