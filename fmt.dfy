/**
 * lib/fmt.js: the phone-number formatter and the builder of file URLs on
 * the document store. Missing JavaScript values (`null`, `undefined`) are
 * `None`; the `PB_HOST` environment variable is a parameter.
 */
module Fmt {
  import opened Wrappers
  import opened UriComponent
  import opened Text

  // ---------------------------------------------------------------------------
  // validateAndFormatPhoneNumber
  // ---------------------------------------------------------------------------

  predicate AllDigits(s: string) {
    forall i :: 0 <= i < |s| ==> IsDigit(s[i])
  }

  /** `s.replace(/\D/g, "")`: the digits of `s`, in order. */
  function Digits(s: string): (d: string)
    ensures AllDigits(d)
    ensures |d| <= |s|
    decreases |s|
  {
    if s == [] then []
    else if IsDigit(s[0]) then [s[0]] + Digits(s[1..])
    else Digits(s[1..])
  }

  /** The layout `(ddd) ddd-dddd`. */
  predicate IsFormatted(s: string) {
    && |s| == 14
    && s[0] == '(' && s[4] == ')' && s[5] == ' ' && s[9] == '-'
    && IsDigit(s[1]) && IsDigit(s[2]) && IsDigit(s[3])
    && IsDigit(s[6]) && IsDigit(s[7]) && IsDigit(s[8])
    && IsDigit(s[10]) && IsDigit(s[11]) && IsDigit(s[12]) && IsDigit(s[13])
  }

  /** Ten digits laid out as `(ddd) ddd-dddd`. */
  function Layout(d: string): string
    requires |d| == 10
  {
    Pieces(d[..3], d[3..6], d[6..])
  }

  /** `(a) b-c` */
  function Pieces(a: string, b: string, c: string): string {
    "(" + (a + (") " + (b + ("-" + c))))
  }

  /**
   * `validateAndFormatPhoneNumber(phone)`: a missing phone counts as the
   * empty string; anything but exactly ten digits gives `null`.
   */
  function FormatPhone(phone: Option<string>): (r: Option<string>)
    ensures var d := Digits(if phone.Some? then phone.value else "");
      && (r.Some? <==> |d| == 10)
      && (r.Some? ==> IsFormatted(r.value) && Digits(r.value) == d)
  {
    var digits := Digits(if phone.Some? then phone.value else "");
    if |digits| != 10 then None
    else
      LayoutShape(digits);
      Some(Layout(digits))
  }

  lemma {:induction false} DigitsAppend(a: string, b: string)
    ensures Digits(a + b) == Digits(a) + Digits(b)
    decreases |a|
  {
    if a == [] {
      assert a + b == b;
    } else {
      assert (a + b)[1..] == a[1..] + b;
      DigitsAppend(a[1..], b);
      if IsDigit(a[0]) {
        ConcatAssoc([a[0]], Digits(a[1..]), Digits(b));
      }
    }
  }

  lemma {:induction false} DigitsOfDigits(d: string)
    requires AllDigits(d)
    ensures Digits(d) == d
    decreases |d|
  {
    if d != [] {
      DigitsOfDigits(d[1..]);
      assert [d[0]] + d[1..] == d;
    }
  }

  /** Digits in front pass through; punctuation in front is dropped. */
  lemma DigitsFront(a: string, s: string)
    ensures AllDigits(a) ==> Digits(a + s) == a + Digits(s)
    ensures !AllDigits(a) && |a| == 1 ==> Digits(a + s) == Digits(s)
    ensures Digits(a) == [] ==> Digits(a + s) == Digits(s)
  {
    DigitsAppend(a, s);
    if AllDigits(a) {
      DigitsOfDigits(a);
    }
  }

  /** The digits of `(a) b-c` are `a`, `b` and `c` run together. */
  lemma DigitsOfPieces(a: string, b: string, c: string)
    requires AllDigits(a) && AllDigits(b) && AllDigits(c)
    ensures Digits(Pieces(a, b, c)) == a + b + c
  {
    assert Digits("(") == [] && Digits(") ") == [] && Digits("-") == [];
    DigitsFront("-", c);
    DigitsOfDigits(c);
    DigitsFront(b, "-" + c);
    DigitsFront(") ", b + ("-" + c));
    DigitsFront(a, ") " + (b + ("-" + c)));
    DigitsFront("(", a + (") " + (b + ("-" + c))));
    ConcatAssoc(a, b, c);
  }

  /** The layout is well formed and holds the ten digits, in their order. */
  lemma LayoutShape(d: string)
    requires |d| == 10 && AllDigits(d)
    ensures IsFormatted(Layout(d))
    ensures Digits(Layout(d)) == d
  {
    DigitsOfPieces(d[..3], d[3..6], d[6..]);
    assert d[..3] + d[3..6] + d[6..] == d;
  }

  /** Characters that are not digits do not affect the result. */
  lemma NonDigitIgnored(a: string, c: char, b: string)
    requires !IsDigit(c)
    ensures FormatPhone(Some(a + [c] + b)) == FormatPhone(Some(a + b))
  {
    DigitsAppend(a + [c], b);
    DigitsAppend(a, [c]);
    DigitsAppend(a, b);
    assert Digits([c]) == [];
    assert Digits(a) + [] == Digits(a);
  }

  /** Formatting a formatted number gives it back unchanged. */
  lemma FormatPhoneIdempotent(phone: Option<string>)
    requires FormatPhone(phone).Some?
    ensures FormatPhone(FormatPhone(phone)) == FormatPhone(phone)
  {
  }

  /** The formatter's fixed points are exactly the formatted numbers. */
  lemma FormattedIsFixedPoint(s: string)
    ensures FormatPhone(Some(s)) == Some(s) <==> IsFormatted(s)
  {
    if IsFormatted(s) {
      var a, b, c := s[1..4], s[6..9], s[10..14];
      assert AllDigits(a) && AllDigits(b) && AllDigits(c);
      assert s == Pieces(a, b, c);
      DigitsOfPieces(a, b, c);
      var d := a + b + c;
      assert d[..3] == a && d[3..6] == b && d[6..] == c;
    }
  }

  // ---------------------------------------------------------------------------
  // pbFileUrl
  // ---------------------------------------------------------------------------

  /** `base.replace(/\/$/, "")`: removes one trailing slash, if there is one. */
  function TrimTrailingSlash(base: string): (r: string)
    ensures |base| > 0 && base[|base| - 1] == '/' ==> base == r + "/"
    ensures !(|base| > 0 && base[|base| - 1] == '/') ==> r == base
  {
    if |base| > 0 && base[|base| - 1] == '/' then base[..|base| - 1] else base
  }

  /** `if (!base) base = process.env.PB_HOST`: a missing or empty base falls back to the host. */
  function EffectiveBase(base: Option<string>, host: Option<string>): Option<string> {
    if base.None? || base.value == "" then host else base
  }

  /** Calling `.replace` on an undefined base throws a `TypeError`. */
  datatype UrlError = BaseUndefined

  /** `pbFileUrl(base, collectionId, recordId, fileName)` with `PB_HOST` as `host`. */
  function PbFileUrl(base: Option<string>, host: Option<string>,
                     collectionId: string, recordId: string, fileName: string): (r: Result<string, UrlError>)
    ensures r.Ok? <==> EffectiveBase(base, host).Some?
  {
    match EffectiveBase(base, host)
    case None => Err(BaseUndefined)
    case Some(b) =>
      Ok(TrimTrailingSlash(b) + "/api/files/" + collectionId + "/" + recordId + "/" + Encode(fileName))
  }

  /** The text after the last `/`, or all of `s` if it has none. */
  function LastSegment(s: string): (r: string)
    ensures '/' !in r
    decreases |s|
  {
    if s == [] then []
    else if s[|s| - 1] == '/' then []
    else LastSegment(s[..|s| - 1]) + [s[|s| - 1]]
  }

  lemma {:induction false} LastSegmentAfterSlash(a: string, b: string)
    requires '/' !in b
    ensures LastSegment(a + "/" + b) == b
    decreases |b|
  {
    var s := a + "/" + b;
    if b == [] {
      assert s[|s| - 1] == '/';
    } else {
      var b' := b[..|b| - 1];
      assert s[..|s| - 1] == a + "/" + b';
      LastSegmentAfterSlash(a, b');
      assert b' + [b[|b| - 1]] == b;
    }
  }

  /**
   * The URL ends in exactly one path segment after the record id, and that
   * segment decodes back to the file name.
   */
  lemma FileNameIsLastSegment(base: Option<string>, host: Option<string>,
                              collectionId: string, recordId: string, fileName: string)
    requires PbFileUrl(base, host, collectionId, recordId, fileName).Ok?
    ensures var url := PbFileUrl(base, host, collectionId, recordId, fileName).value;
      && LastSegment(url) == Encode(fileName)
      && Decode(LastSegment(url)) == Some(fileName)
  {
    var b := EffectiveBase(base, host).value;
    var prefix := TrimTrailingSlash(b) + "/api/files/" + collectionId + "/" + recordId;
    assert PbFileUrl(base, host, collectionId, recordId, fileName).value == prefix + "/" + Encode(fileName);
    LastSegmentAfterSlash(prefix, Encode(fileName));
    DecodeEncode(fileName);
  }

  /**
   * The URL is the trimmed base, the fixed route, the collection id, the
   * record id and the encoded file name, separated by `/`; a base ending in
   * `//` keeps one of its slashes.
   */
  lemma UrlLayout(base: Option<string>, host: Option<string>,
                                 collectionId: string, recordId: string, fileName: string)
    requires PbFileUrl(base, host, collectionId, recordId, fileName).Ok?
    ensures var b := EffectiveBase(base, host).value;
      var url := PbFileUrl(base, host, collectionId, recordId, fileName).value;
      var t := TrimTrailingSlash(b);
      && url[..|t|] == t
      && url[|t|..|t| + 11] == "/api/files/"
      && url[|t| + 11..] == collectionId + "/" + recordId + "/" + Encode(fileName)
      && (|b| >= 2 && b[|b| - 2..] == "//" ==> |t| == |b| - 1 && t[|t| - 1] == '/')
  {
    var b := EffectiveBase(base, host).value;
    var t := TrimTrailingSlash(b);
    var url := PbFileUrl(base, host, collectionId, recordId, fileName).value;
    var tail := collectionId + "/" + recordId + "/" + Encode(fileName);
    assert url == t + ("/api/files/" + tail);
    assert url[..|t|] == t;
    assert url[|t|..] == "/api/files/" + tail;
    if |b| >= 2 && b[|b| - 2..] == "//" {
      assert b[|b| - 1] == '/' && b[|b| - 2] == '/';
    }
  }

  /**
   * A missing or empty base gives the same URL as a non-empty host passed
   * as the base; an undefined host makes the call fail.
   */
  lemma FalsyBaseUsesHost(host: Option<string>, other: Option<string>,
                          collectionId: string, recordId: string, fileName: string)
    ensures PbFileUrl(None, host, collectionId, recordId, fileName)
      == PbFileUrl(Some(""), host, collectionId, recordId, fileName)
    ensures host.Some? && host.value != "" ==>
      PbFileUrl(None, host, collectionId, recordId, fileName)
      == PbFileUrl(host, other, collectionId, recordId, fileName)
    ensures host.None? ==> PbFileUrl(None, host, collectionId, recordId, fileName) == Err(BaseUndefined)
  {
  }
}
