/**
 * `urllib.parse.quote(s)` with its default `safe='/'`: the text is encoded as
 * UTF-8 and every byte outside the unreserved set (ASCII letters, digits,
 * `_.-~`) and `/` becomes `%XX` with upper-case hexadecimal digits.
 * `UnquoteBytes` reads such text back to bytes; it is the partner used to
 * show that quoting loses nothing.
 */
module UrlQuote {
  import opened Wrappers

  type Byte = b: int | 0 <= b < 256

  /** The UTF-8 encoding of one Unicode scalar value. */
  function Utf8(c: char): (bs: seq<Byte>)
    ensures 1 <= |bs| <= 4
    ensures |bs| == 1 <==> (c as int) < 0x80
    ensures |bs| == 1 ==> bs[0] == c as int
    ensures |bs| > 1 ==> forall i :: 0 <= i < |bs| ==> bs[i] >= 0x80
  {
    var n := c as int;
    if n < 0x80 then [n]
    else if n < 0x800 then [0xC0 + n / 0x40, 0x80 + n % 0x40]
    else if n < 0x1_0000 then [0xE0 + n / 0x1000, 0x80 + (n / 0x40) % 0x40, 0x80 + n % 0x40]
    else [0xF0 + n / 0x4_0000, 0x80 + (n / 0x1000) % 0x40, 0x80 + (n / 0x40) % 0x40, 0x80 + n % 0x40]
  }

  /** `s.encode('utf-8')`. */
  function Encode(s: string): (bs: seq<Byte>)
    ensures |bs| >= |s|
  {
    if s == [] then [] else Utf8(s[0]) + Encode(s[1..])
  }

  /** Bytes `quote` leaves as they are: ASCII letters and digits, `_.-~`, and the safe `/`. */
  predicate IsSafeByte(b: Byte) {
    || ('A' as int <= b <= 'Z' as int)
    || ('a' as int <= b <= 'z' as int)
    || ('0' as int <= b <= '9' as int)
    || b == '_' as int || b == '.' as int || b == '-' as int || b == '~' as int || b == '/' as int
  }

  /** The characters a quoted string can contain. */
  predicate IsQuotedChar(c: char) {
    (c as int < 0x80 && IsSafeByte(c as int)) || c == '%'
  }

  function HexDigit(d: int): (c: char)
    requires 0 <= d < 16
    ensures IsQuotedChar(c)
  {
    if d < 10 then ('0' as int + d) as char else ('A' as int + d - 10) as char
  }

  predicate IsHexDigit(c: char) {
    ('0' <= c <= '9') || ('A' <= c <= 'F') || ('a' <= c <= 'f')
  }

  function HexValue(c: char): (d: int)
    requires IsHexDigit(c)
    ensures 0 <= d < 16
  {
    if '0' <= c <= '9' then c as int - '0' as int
    else if 'A' <= c <= 'F' then c as int - 'A' as int + 10
    else c as int - 'a' as int + 10
  }

  function QuoteByte(b: Byte): (r: string)
    ensures forall c :: c in r ==> IsQuotedChar(c)
  {
    if IsSafeByte(b) then [b as char] else ['%', HexDigit(b / 16), HexDigit(b % 16)]
  }

  function QuoteBytes(bs: seq<Byte>): (r: string)
    ensures forall c :: c in r ==> IsQuotedChar(c)
  {
    if bs == [] then [] else QuoteByte(bs[0]) + QuoteBytes(bs[1..])
  }

  /** `urllib.parse.quote(s)`. */
  function Quote(s: string): (r: string)
    ensures forall c :: c in r ==> IsQuotedChar(c)
  {
    QuoteBytes(Encode(s))
  }

  /** Reads `%XX` escapes and unreserved characters back into bytes; anything else is not quoted text. */
  function UnquoteBytes(q: string): Option<seq<Byte>>
    decreases |q|
  {
    if q == [] then Some([])
    else if q[0] == '%' && |q| >= 3 && IsHexDigit(q[1]) && IsHexDigit(q[2]) then
      match UnquoteBytes(q[3..])
      case None => None
      case Some(rest) => Some([HexValue(q[1]) * 16 + HexValue(q[2])] + rest)
    else if q[0] as int < 0x80 && IsSafeByte(q[0] as int) then
      match UnquoteBytes(q[1..])
      case None => None
      case Some(rest) => Some([q[0] as int] + rest)
    else None
  }

  lemma {:induction false} UnquoteQuoteBytes(bs: seq<Byte>)
    ensures UnquoteBytes(QuoteBytes(bs)) == Some(bs)
  {
    if bs != [] {
      UnquoteQuoteBytes(bs[1..]);
      var b, rest := bs[0], QuoteBytes(bs[1..]);
      var q := QuoteByte(b) + rest;
      assert QuoteBytes(bs) == q;
      if IsSafeByte(b) {
        assert q[0] == b as char && q[1..] == rest;
      } else {
        var hi, lo := HexDigit(b / 16), HexDigit(b % 16);
        assert q[0] == '%' && q[1] == hi && q[2] == lo && q[3..] == rest;
        assert HexValue(hi) * 16 + HexValue(lo) == b;
      }
      assert [bs[0]] + bs[1..] == bs;
    }
  }

  /** Quoting loses nothing: the quoted text reads back to exactly the UTF-8 bytes of the input. */
  lemma QuoteRoundTrip(s: string)
    ensures UnquoteBytes(Quote(s)) == Some(Encode(s))
  {
    UnquoteQuoteBytes(Encode(s));
  }

  /** Text made only of unreserved ASCII characters and `/` is left as it is. */
  lemma {:induction false} QuoteKeepsSafeText(s: string)
    requires forall i :: 0 <= i < |s| ==> s[i] as int < 0x80 && IsSafeByte(s[i] as int)
    ensures Quote(s) == s
  {
    if s != [] {
      QuoteKeepsSafeText(s[1..]);
      assert Encode(s) == [s[0] as int] + Encode(s[1..]);
      assert QuoteBytes(Encode(s)) == QuoteByte(s[0] as int) + QuoteBytes(Encode(s[1..]));
      assert [s[0]] + s[1..] == s;
    }
  }
}
