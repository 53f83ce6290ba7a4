/**
 * `urllib.parse.quote(s)` with its default `safe='/'`: the string is
 * encoded to UTF-8 (RFC 3629 section 3) and every byte outside the
 * unreserved set of RFC 3986 section 2.3 and `/` is written as `%XX`
 * with upper-case hexadecimal digits (RFC 3986 section 2.1).
 */
module PercentEncoding {
  import opened Wrappers

  type byte = x: int | 0 <= x < 256

  /** UTF-8 encoding of one Unicode scalar value. */
  function Utf8Char(c: char): (bs: seq<byte>)
    ensures 1 <= |bs| <= 4
    ensures |bs| == 1 <==> c as int < 0x80
    ensures c as int < 0x80 ==> bs == [c as int]
    ensures c as int >= 0x80 ==> forall k :: 0 <= k < |bs| ==> bs[k] >= 0x80
  {
    var n := c as int;
    if n < 0x80 then [n]
    else if n < 0x800 then [0xC0 + n / 0x40, 0x80 + n % 0x40]
    else if n < 0x10000 then [0xE0 + n / 0x1000, 0x80 + (n / 0x40) % 0x40, 0x80 + n % 0x40]
    else [0xF0 + n / 0x40000, 0x80 + (n / 0x1000) % 0x40, 0x80 + (n / 0x40) % 0x40, 0x80 + n % 0x40]
  }

  function Utf8(s: string): seq<byte> {
    if s == [] then [] else Utf8Char(s[0]) + Utf8(s[1..])
  }

  /** Bytes `quote` never escapes: ASCII letters, digits and `_.-~` (Python's `_ALWAYS_SAFE`). */
  predicate IsAlwaysSafe(b: byte) {
    'A' as int <= b <= 'Z' as int || 'a' as int <= b <= 'z' as int || '0' as int <= b <= '9' as int ||
    b == '_' as int || b == '.' as int || b == '-' as int || b == '~' as int
  }

  /** Always-safe bytes and the default extra safe character `/`. */
  predicate IsSafe(b: byte) {
    IsAlwaysSafe(b) || b == '/' as int
  }

  /** Upper-case hexadecimal digit of a value below 16. */
  function HexDigit(v: nat): char
    requires v < 16
  {
    if v < 10 then ('0' as int + v) as char else ('A' as int + v - 10) as char
  }

  predicate IsHex(c: char) {
    '0' <= c <= '9' || 'A' <= c <= 'F' || 'a' <= c <= 'f'
  }

  function HexValue(c: char): nat
    requires IsHex(c)
  {
    if '0' <= c <= '9' then c as int - '0' as int
    else if 'A' <= c <= 'F' then c as int - 'A' as int + 10
    else c as int - 'a' as int + 10
  }

  function QuoteByte(b: byte): string {
    if IsSafe(b) then [b as char] else ['%', HexDigit(b / 16), HexDigit(b % 16)]
  }

  function QuoteBytes(bs: seq<byte>): string {
    if bs == [] then [] else QuoteByte(bs[0]) + QuoteBytes(bs[1..])
  }

  /** `urllib.parse.quote(s)`. */
  function Quote(s: string): string {
    QuoteBytes(Utf8(s))
  }

  /**
   * Percent-decoding to bytes, the inverse of `QuoteBytes`: `%XX` gives
   * the byte XX, any other ASCII character its own code; a stray `%` or a
   * non-ASCII character is malformed.
   */
  function Unquote(q: string): Option<seq<byte>>
    decreases |q|
  {
    if q == [] then Some([])
    else if q[0] == '%' then
      if |q| >= 3 && IsHex(q[1]) && IsHex(q[2]) then
        match Unquote(q[3..])
        case Some(rest) => Some([HexValue(q[1]) * 16 + HexValue(q[2])] + rest)
        case None => None
      else None
    else if q[0] as int < 0x80 then
      match Unquote(q[1..])
      case Some(rest) => Some([q[0] as int] + rest)
      case None => None
    else None
  }

  /** Decoding the quoted form of a byte string gives back exactly those bytes. */
  lemma {:induction false} QuoteBytesRoundTrip(bs: seq<byte>)
    ensures Unquote(QuoteBytes(bs)) == Some(bs)
  {
    if bs != [] {
      var b, rest := bs[0], QuoteBytes(bs[1..]);
      var q := QuoteByte(b) + rest;
      QuoteBytesRoundTrip(bs[1..]);
      if IsSafe(b) {
        assert q[0] == b as char && q[1..] == rest;
      } else {
        assert q[0] == '%' && q[1] == HexDigit(b / 16) && q[2] == HexDigit(b % 16) && q[3..] == rest;
        assert HexValue(q[1]) * 16 + HexValue(q[2]) == b;
      }
      assert bs == [b] + bs[1..];
    }
  }

  /** `quote` loses nothing: percent-decoding its output yields the UTF-8 bytes of the input. */
  lemma QuoteRoundTrip(s: string)
    ensures Unquote(Quote(s)) == Some(Utf8(s))
  {
    QuoteBytesRoundTrip(Utf8(s));
  }

  /** A character that may appear in `quote`'s output. */
  predicate InQuotedAlphabet(c: char) {
    (c as int < 0x80 && IsSafe(c as int)) || c == '%' || '0' <= c <= '9' || 'A' <= c <= 'F'
  }

  /** The output of `quote` consists of safe characters, `%` and hexadecimal digits only; in particular it has no blank. */
  lemma {:induction false} QuoteBytesAlphabet(bs: seq<byte>)
    ensures forall c :: c in QuoteBytes(bs) ==> InQuotedAlphabet(c)
    ensures ' ' !in QuoteBytes(bs)
  {
    if bs != [] {
      QuoteBytesAlphabet(bs[1..]);
      assert forall c :: c in QuoteByte(bs[0]) ==> InQuotedAlphabet(c);
    }
  }

  lemma QuoteHasNoBlank(s: string)
    ensures forall c :: c in Quote(s) ==> InQuotedAlphabet(c)
    ensures ' ' !in Quote(s)
  {
    QuoteBytesAlphabet(Utf8(s));
  }

  /** Every character of `s` is an ASCII letter, digit, one of `_.-~` or `/`. */
  predicate IsQuoteSafe(s: string) {
    forall k :: 0 <= k < |s| ==> s[k] as int < 0x80 && IsSafe(s[k] as int)
  }

  /** ASCII letters, digits, `_.-~` and `/` pass through `quote` unchanged. */
  lemma {:induction false} QuoteSafeUnchanged(s: string)
    requires IsQuoteSafe(s)
    ensures Quote(s) == s
  {
    if s != [] {
      QuoteSafeUnchanged(s[1..]);
      assert Utf8Char(s[0]) == [s[0] as int];
      assert Utf8(s) == [s[0] as int] + Utf8(s[1..]);
      assert s == [s[0]] + s[1..];
    }
  }

  lemma {:induction false} Utf8Append(a: string, b: string)
    ensures Utf8(a + b) == Utf8(a) + Utf8(b)
  {
    if a != [] {
      assert (a + b)[0] == a[0] && (a + b)[1..] == a[1..] + b;
      Utf8Append(a[1..], b);
    } else {
      assert a + b == b;
    }
  }

  lemma {:induction false} QuoteBytesAppend(x: seq<byte>, y: seq<byte>)
    ensures QuoteBytes(x + y) == QuoteBytes(x) + QuoteBytes(y)
  {
    if x != [] {
      assert (x + y)[0] == x[0] && (x + y)[1..] == x[1..] + y;
      QuoteBytesAppend(x[1..], y);
    } else {
      assert x + y == y;
    }
  }

  /** `quote` works character by character: quoting a concatenation concatenates the quoted parts. */
  lemma QuoteAppend(a: string, b: string)
    ensures Quote(a + b) == Quote(a) + Quote(b)
  {
    Utf8Append(a, b);
    QuoteBytesAppend(Utf8(a), Utf8(b));
  }

  /** A blank becomes `%20`. */
  lemma QuoteBlank()
    ensures Quote(" ") == "%20"
  {
    assert Utf8(" ") == [0x20];
  }
}
