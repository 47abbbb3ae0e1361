/**
 * JavaScript's `encodeURIComponent`, which lib/fmt.js applies to a file
 * name: the unreserved characters of section 2.3 of RFC 2396 pass through,
 * every other character is written as the UTF-8 bytes of its code point,
 * each byte as `%` and two upper-case hexadecimal digits. `Decode` reads
 * such text back; `DecodeEncode` shows that no information is lost.
 */
module UriComponent {
  import opened Wrappers

  type byte = b: int | 0 <= b < 256

  /** `A-Z a-z 0-9 - _ . ! ~ * ' ( )` */
  predicate IsUnreserved(c: char) {
    || 'A' <= c <= 'Z' || 'a' <= c <= 'z' || '0' <= c <= '9'
    || c == '-' || c == '_' || c == '.' || c == '!' || c == '~'
    || c == '*' || c == '\'' || c == '(' || c == ')'
  }

  predicate IsUpperHex(c: char) {
    '0' <= c <= '9' || 'A' <= c <= 'F'
  }

  function HexDigit(d: int): (c: char)
    requires 0 <= d < 16
    ensures IsUpperHex(c)
  {
    if d < 10 then ('0' as int + d) as char else ('A' as int + d - 10) as char
  }

  /** The value of a hexadecimal digit of either case. */
  function HexValue(c: char): Option<int> {
    if '0' <= c <= '9' then Some(c as int - '0' as int)
    else if 'A' <= c <= 'F' then Some(c as int - 'A' as int + 10)
    else if 'a' <= c <= 'f' then Some(c as int - 'a' as int + 10)
    else None
  }

  lemma HexRoundTrip(d: int)
    requires 0 <= d < 16
    ensures HexValue(HexDigit(d)) == Some(d)
  {
  }

  // ---------------------------------------------------------------------------
  // UTF-8
  // ---------------------------------------------------------------------------

  /** The UTF-8 encoding of a Unicode scalar value. */
  function Utf8(c: char): (bs: seq<byte>)
    ensures 1 <= |bs| <= 4
  {
    var cp := c as int;
    if cp < 0x80 then [cp]
    else if cp < 0x800 then [0xC0 + cp / 64, 0x80 + cp % 64]
    else if cp < 0x10000 then [0xE0 + cp / 4096, 0x80 + (cp / 64) % 64, 0x80 + cp % 64]
    else [0xF0 + cp / 262144, 0x80 + (cp / 4096) % 64, 0x80 + (cp / 64) % 64, 0x80 + cp % 64]
  }

  /** How many bytes a sequence starting with `b0` has; 0 when `b0` cannot start one. */
  function SequenceLength(b0: byte): nat {
    if b0 < 0x80 then 1
    else if 0xC2 <= b0 < 0xE0 then 2
    else if 0xE0 <= b0 < 0xF0 then 3
    else if 0xF0 <= b0 < 0xF5 then 4
    else 0
  }

  predicate IsContinuation(b: byte) {
    0x80 <= b < 0xC0
  }

  /** The character whose code point is `cp`, if `cp` is a Unicode scalar value. */
  function ScalarChar(cp: int): Option<char> {
    if 0 <= cp < 0xD800 || 0xE000 <= cp < 0x110000 then Some(cp as char) else None
  }

  /** Decodes one complete UTF-8 sequence, refusing overlong forms and surrogates. */
  function DecodeUtf8(bs: seq<byte>): Option<char> {
    if |bs| == 1 && bs[0] < 0x80 then Some(bs[0] as char)
    else if |bs| == 2 && IsContinuation(bs[1]) then
      var cp := (bs[0] as int - 0xC0) * 64 + (bs[1] as int - 0x80);
      if 0x80 <= cp < 0x800 then ScalarChar(cp) else None
    else if |bs| == 3 && IsContinuation(bs[1]) && IsContinuation(bs[2]) then
      var cp := (bs[0] as int - 0xE0) * 4096 + (bs[1] as int - 0x80) * 64 + (bs[2] as int - 0x80);
      if 0x800 <= cp < 0x10000 then ScalarChar(cp) else None
    else if |bs| == 4 && IsContinuation(bs[1]) && IsContinuation(bs[2]) && IsContinuation(bs[3]) then
      var cp := (bs[0] as int - 0xF0) * 262144 + (bs[1] as int - 0x80) * 4096
        + (bs[2] as int - 0x80) * 64 + (bs[3] as int - 0x80);
      if 0x10000 <= cp < 0x110000 then ScalarChar(cp) else None
    else None
  }

  /** Three six-bit groups put back together. */
  lemma SixBitGroups(cp: int)
    requires 0 <= cp
    ensures cp / 4096 == (cp / 64) / 64
    ensures cp / 262144 == (cp / 4096) / 64
    ensures cp == (cp / 64) * 64 + cp % 64
    ensures cp / 64 == (cp / 4096) * 64 + (cp / 64) % 64
    ensures cp / 4096 == (cp / 262144) * 64 + (cp / 4096) % 64
  {
  }

  /** UTF-8 round trip for one character, and the shape the decoder relies on. */
  lemma Utf8RoundTrip(c: char)
    ensures var bs := Utf8(c);
      && SequenceLength(bs[0]) == |bs|
      && (forall i :: 1 <= i < |bs| ==> IsContinuation(bs[i]))
      && DecodeUtf8(bs) == Some(c)
  {
    var cp := c as int;
    SixBitGroups(cp);
    assert ScalarChar(cp) == Some(c);
  }

  // ---------------------------------------------------------------------------
  // Percent-encoding
  // ---------------------------------------------------------------------------

  function PercentByte(b: byte): string {
    ['%', HexDigit(b / 16), HexDigit(b % 16)]
  }

  /**
   * Text made only of unreserved characters and escapes `%XY` whose two
   * digits are upper-case hexadecimal: the shape of every output of
   * `encodeURIComponent`.
   */
  predicate WellEscaped(s: string)
    decreases |s|
  {
    if s == [] then true
    else if s[0] == '%' then |s| >= 3 && IsUpperHex(s[1]) && IsUpperHex(s[2]) && WellEscaped(s[3..])
    else IsUnreserved(s[0]) && WellEscaped(s[1..])
  }

  lemma {:induction false} WellEscapedAppend(a: string, b: string)
    requires WellEscaped(a) && WellEscaped(b)
    ensures WellEscaped(a + b)
    decreases |a|
  {
    if a == [] {
      assert a + b == b;
    } else if a[0] == '%' {
      WellEscapedAppend(a[3..], b);
      assert (a + b)[3..] == a[3..] + b;
    } else {
      WellEscapedAppend(a[1..], b);
      assert (a + b)[1..] == a[1..] + b;
    }
  }

  function PercentBytes(bs: seq<byte>): (s: string)
    ensures |s| == 3 * |bs|
    ensures WellEscaped(s)
    ensures forall i :: 0 <= i < |s| ==> s[i] == '%' || IsUpperHex(s[i])
    decreases |bs|
  {
    if bs == [] then []
    else
      WellEscapedAppend(PercentByte(bs[0]), PercentBytes(bs[1..]));
      PercentByte(bs[0]) + PercentBytes(bs[1..])
  }

  /** The characters `encodeURIComponent` can emit (upper-case hex digits are unreserved). */
  predicate IsEncodedChar(c: char) {
    IsUnreserved(c) || c == '%'
  }

  function EncodeChar(c: char): (s: string)
    ensures WellEscaped(s)
    ensures forall i :: 0 <= i < |s| ==> IsEncodedChar(s[i])
  {
    if IsUnreserved(c) then [c] else PercentBytes(Utf8(c))
  }

  /** `encodeURIComponent(s)` */
  function Encode(s: string): (r: string)
    ensures WellEscaped(r)
    ensures forall i :: 0 <= i < |r| ==> IsEncodedChar(r[i])
    ensures '/' !in r
    decreases |s|
  {
    if s == [] then []
    else
      WellEscapedAppend(EncodeChar(s[0]), Encode(s[1..]));
      EncodeChar(s[0]) + Encode(s[1..])
  }

  // ---------------------------------------------------------------------------
  // Decoding
  // ---------------------------------------------------------------------------

  /** Reads one `%XY` group at the start of `s`. */
  function ParseByte(s: string): Option<byte> {
    if |s| < 3 || s[0] != '%' then None
    else match (HexValue(s[1]), HexValue(s[2]))
      case (Some(hi), Some(lo)) => if 0 <= hi < 16 && 0 <= lo < 16 then Some(hi * 16 + lo) else None
      case _ => None
  }

  /** Reads `n` consecutive `%XY` groups at the start of `s`. */
  function ParseBytes(s: string, n: nat): (r: Option<seq<byte>>)
    ensures r.Some? ==> |r.value| == n && 3 * n <= |s|
    decreases n
  {
    if n == 0 then Some([])
    else match ParseByte(s)
      case None => None
      case Some(b) =>
        match ParseBytes(s[3..], n - 1)
        case None => None
        case Some(bs) => Some([b] + bs)
  }

  /** Decodes the first character of `s`: the character and how much text it took. */
  function DecodeOne(s: string): (r: Option<(char, nat)>)
    requires s != []
    ensures r.Some? ==> 1 <= r.value.1 <= |s|
  {
    if s[0] != '%' then Some((s[0], 1))
    else match ParseByte(s)
      case None => None
      case Some(b0) =>
        var n := SequenceLength(b0);
        if n == 0 then None
        else match ParseBytes(s, n)
          case None => None
          case Some(bs) =>
            match DecodeUtf8(bs)
            case None => None
            case Some(c) => Some((c, 3 * n))
  }

  /** `decodeURIComponent(s)`; `None` where it would throw `URIError`. */
  function Decode(s: string): Option<string>
    decreases |s|
  {
    if s == [] then Some([])
    else match DecodeOne(s)
      case None => None
      case Some((c, n)) =>
        match Decode(s[n..])
        case None => None
        case Some(r) => Some([c] + r)
  }

  // ---------------------------------------------------------------------------
  // Properties
  // ---------------------------------------------------------------------------

  /** Unreserved characters pass through: text made of them is its own encoding. */
  lemma {:induction false} EncodeUnreservedIdentity(s: string)
    requires forall i :: 0 <= i < |s| ==> IsUnreserved(s[i])
    ensures Encode(s) == s
    decreases |s|
  {
    if s != [] {
      EncodeUnreservedIdentity(s[1..]);
      assert [s[0]] + s[1..] == s;
    }
  }

  lemma {:induction false} ParsePercentBytes(bs: seq<byte>, rest: string)
    ensures ParseBytes(PercentBytes(bs) + rest, |bs|) == Some(bs)
    decreases |bs|
  {
    if bs != [] {
      var b := bs[0];
      var s := PercentBytes(bs) + rest;
      HexRoundTrip(b / 16);
      HexRoundTrip(b % 16);
      assert s[..3] == PercentByte(b);
      assert ParseByte(s) == Some(b);
      assert s[3..] == PercentBytes(bs[1..]) + rest;
      ParsePercentBytes(bs[1..], rest);
      assert [b] + bs[1..] == bs;
    }
  }

  /** The decoder reads back exactly one encoded character, and no further. */
  lemma DecodeOneEncodeChar(c: char, rest: string)
    ensures DecodeOne(EncodeChar(c) + rest) == Some((c, |EncodeChar(c)|))
  {
    var s := EncodeChar(c) + rest;
    if !IsUnreserved(c) {
      var u := Utf8(c);
      Utf8RoundTrip(c);
      ParsePercentBytes(u, rest);
      ParsePercentBytes(u[..1], PercentBytes(u[1..]) + rest);
      assert PercentBytes(u) == PercentBytes(u[..1]) + PercentBytes(u[1..]);
      assert ParseByte(s) == Some(u[0]);
    }
  }

  /** `decodeURIComponent(encodeURIComponent(s)) == s` */
  lemma {:induction false} DecodeEncode(s: string)
    ensures Decode(Encode(s)) == Some(s)
    decreases |s|
  {
    if s != [] {
      var e := Encode(s);
      var head := EncodeChar(s[0]);
      DecodeOneEncodeChar(s[0], Encode(s[1..]));
      assert e[|head|..] == Encode(s[1..]);
      DecodeEncode(s[1..]);
      assert [s[0]] + s[1..] == s;
    }
  }

  /** Distinct file names never share an encoding. */
  lemma EncodeInjective(s: string, t: string)
    requires Encode(s) == Encode(t)
    ensures s == t
  {
    DecodeEncode(s);
    DecodeEncode(t);
  }
}
