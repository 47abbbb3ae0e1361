/**
 * The data side of the mustache-like renderer (lib/renderTemplate.js):
 * the values a template can be rendered against, the splitting of a
 * dotted key into segments, the walk `v = v?.[p]` along those segments,
 * and the string form `String(v)` that replaces a token.
 */
module TemplateData {
  import opened Text

  /** The JavaScript values the renderer is given: primitives and plain objects. */
  datatype Value =
    | Undef
    | Null
    | Bool(b: bool)
    | Num(n: int)  // a safe integer: below 2^53 in magnitude
    | Str(s: string)
    | Obj(fields: map<string, Value>)

  /** `v === undefined || v === null` */
  predicate Absent(v: Value) {
    v.Undef? || v.Null?
  }

  // ---------------------------------------------------------------------------
  // key.split(".")
  // ---------------------------------------------------------------------------

  /** `key.split(".")`: the pieces between the dots, always at least one. */
  function SplitKey(key: string): (parts: seq<string>)
    ensures |parts| >= 1
    ensures forall i :: 0 <= i < |parts| ==> '.' !in parts[i]
  {
    if key == [] then [""]
    else if key[0] == '.' then [""] + SplitKey(key[1..])
    else
      var rest := SplitKey(key[1..]);
      [[key[0]] + rest[0]] + rest[1..]
  }

  /** `parts.join(".")` */
  function JoinKey(parts: seq<string>): string
    requires |parts| >= 1
  {
    if |parts| == 1 then parts[0] else parts[0] + "." + JoinKey(parts[1..])
  }

  /** Splitting loses nothing: joining the segments gives back the key. */
  lemma {:induction false} JoinSplitKey(key: string)
    ensures JoinKey(SplitKey(key)) == key
  {
    if key == [] {
    } else if key[0] == '.' {
      JoinSplitKey(key[1..]);
      var rest := SplitKey(key[1..]);
      assert SplitKey(key) == [""] + rest;
      assert ([""] + rest)[1..] == rest;
      assert key == "" + "." + key[1..];
    } else {
      JoinSplitKey(key[1..]);
      var rest := SplitKey(key[1..]);
      var parts := [[key[0]] + rest[0]] + rest[1..];
      if |rest| == 1 {
        assert key == [key[0]] + key[1..];
      } else {
        assert parts[1..] == rest[1..];
        assert JoinKey(rest) == rest[0] + "." + JoinKey(rest[1..]);
        assert key == [key[0]] + key[1..];
      }
    }
  }

  /** Conversely, dot-free segments are recovered exactly from their join. */
  lemma {:induction false} SplitJoinKey(parts: seq<string>)
    requires |parts| >= 1
    requires forall i :: 0 <= i < |parts| ==> '.' !in parts[i]
    ensures SplitKey(JoinKey(parts)) == parts
  {
    if |parts| == 1 {
      SplitNoDot(parts[0]);
    } else {
      SplitJoinKey(parts[1..]);
      SplitDotFreePrefix(parts[0], JoinKey(parts[1..]));
      assert [parts[0]] + parts[1..] == parts;
    }
  }

  /** A key without dots is a single segment. */
  lemma {:induction false} SplitNoDot(s: string)
    requires '.' !in s
    ensures SplitKey(s) == [s]
  {
    if s != [] {
      SplitNoDot(s[1..]);
      assert [s[0]] + s[1..] == s;
    }
  }

  /** A dot-free prefix followed by a dot becomes the first segment. */
  lemma {:induction false} SplitDotFreePrefix(a: string, b: string)
    requires '.' !in a
    ensures SplitKey(a + "." + b) == [a] + SplitKey(b)
  {
    if a == [] {
      assert a + "." + b == ['.'] + b;
      assert (['.'] + b)[1..] == b;
    } else {
      SplitDotFreePrefix(a[1..], b);
      var t := a + "." + b;
      assert t[0] == a[0] && t[1..] == a[1..] + "." + b;
      assert [a[0]] + a[1..] == a;
    }
  }

  // ---------------------------------------------------------------------------
  // for (const p of parts) v = v?.[p];
  // ---------------------------------------------------------------------------

  /**
   * One step `v?.[p]`: a nullish value gives `undefined` (optional chaining),
   * an object gives its own property or `undefined` when it has none.
   * Property access on a boolean, number or string is taken to be
   * `undefined` too (see README, "Left out").
   */
  function Step(v: Value, p: string): Value {
    match v
    case Obj(m) => if p in m then m[p] else Undef
    case _ => Undef
  }

  /** The value reached by walking `v` along `path`, one `Step` per segment. */
  function Lookup(v: Value, path: seq<string>): Value
    decreases |path|
  {
    if path == [] then v else Lookup(Step(v, path[0]), path[1..])
  }

  /** A walk along `a + b` is the walk along `a` followed by the walk along `b`. */
  lemma {:induction false} LookupAppend(v: Value, a: seq<string>, b: seq<string>)
    ensures Lookup(v, a + b) == Lookup(Lookup(v, a), b)
    decreases |a|
  {
    if a != [] {
      LookupAppend(Step(v, a[0]), a[1..], b);
      assert (a + b)[0] == a[0] && (a + b)[1..] == a[1..] + b;
    } else {
      assert a + b == b;
    }
  }

  /** Walking any non-empty path from a value that is not an object yields `undefined`. */
  lemma {:induction false} LookupFromNonObject(v: Value, path: seq<string>)
    requires !v.Obj? && path != []
    ensures Lookup(v, path) == Undef
    decreases |path|
  {
    if |path| > 1 {
      LookupFromNonObject(Undef, path[1..]);
    }
  }

  /**
   * A missing segment, or a null/undefined/primitive value met before the
   * last segment, makes the whole walk `undefined`: no error is raised.
   */
  lemma MissingSegmentIsUndefined(v: Value, path: seq<string>, i: nat)
    requires i < |path|
    requires !Lookup(v, path[..i]).Obj? || path[i] !in Lookup(v, path[..i]).fields
    ensures Lookup(v, path) == Undef
  {
    var u := Lookup(v, path[..i]);
    assert path == path[..i] + path[i..];
    LookupAppend(v, path[..i], path[i..]);
    assert Step(u, path[i]) == Undef;
    assert Lookup(u, path[i..]) == Lookup(Undef, path[i+1..]);
    if i + 1 < |path| {
      LookupFromNonObject(Undef, path[i+1..]);
    }
  }

  /** An absent value met at any point of the walk stays absent to its end. */
  lemma AbsentPrefixStaysAbsent(v: Value, path: seq<string>, i: nat)
    requires i <= |path|
    requires Absent(Lookup(v, path[..i]))
    ensures Absent(Lookup(v, path))
  {
    if i < |path| {
      MissingSegmentIsUndefined(v, path, i);
    } else {
      assert path[..i] == path;
    }
  }

  // ---------------------------------------------------------------------------
  // String(v)
  // ---------------------------------------------------------------------------

  function DigitChar(d: int): (c: char)
    requires 0 <= d < 10
    ensures IsDigit(c) && c as int - '0' as int == d
  {
    ('0' as int + d) as char
  }

  /** Decimal digits of `n`, most significant first, without leading zeros. */
  function NatToDecimal(n: nat): (s: string)
    ensures |s| >= 1 && forall i :: 0 <= i < |s| ==> IsDigit(s[i])
    ensures |s| > 1 ==> s[0] != '0'
  {
    if n < 10 then [DigitChar(n)] else NatToDecimal(n / 10) + [DigitChar(n % 10)]
  }

  /** Reads a string of decimal digits back as a number. */
  function DecimalValue(s: string): int
    requires forall i :: 0 <= i < |s| ==> IsDigit(s[i])
  {
    if s == [] then 0
    else DecimalValue(s[..|s|-1]) * 10 + (s[|s|-1] as int - '0' as int)
  }

  lemma {:induction false} DecimalRoundTrip(n: nat)
    ensures DecimalValue(NatToDecimal(n)) == n
  {
    if n >= 10 {
      DecimalRoundTrip(n / 10);
      var s := NatToDecimal(n);
      assert s[..|s|-1] == NatToDecimal(n / 10);
    }
  }

  /** `String(n)` for a safe integer: an optional minus sign, then its decimal digits. */
  function IntToString(n: int): string {
    if n < 0 then "-" + NatToDecimal(-n) else NatToDecimal(n)
  }

  /** Reads `IntToString`'s output back. */
  function ParseInt(s: string): int
    requires s != [] && (s[0] == '-' || IsDigit(s[0]))
    requires forall i :: 1 <= i < |s| ==> IsDigit(s[i])
  {
    if s[0] == '-' then -DecimalValue(s[1..]) else DecimalValue(s)
  }

  /** Distinct numbers print differently: the printed form reads back as the number. */
  lemma IntToStringRoundTrip(n: int)
    ensures var s := IntToString(n);
      s != [] && (s[0] == '-' || IsDigit(s[0])) &&
      (forall i :: 1 <= i < |s| ==> IsDigit(s[i])) &&
      ParseInt(s) == n
  {
    if n < 0 {
      DecimalRoundTrip(-n);
      assert IntToString(n)[1..] == NatToDecimal(-n);
    } else {
      DecimalRoundTrip(n);
    }
  }

  /**
   * What a token is replaced by: `""` for null/undefined, `String(v)` otherwise;
   * for a plain object that is "[object Object]".
   */
  function Display(v: Value): (s: string)
    ensures s == "" <==> Absent(v) || v == Str("")
    ensures v.Str? ==> s == v.s
  {
    match v
    case Undef => ""
    case Null => ""
    case Bool(b) => if b then "true" else "false"
    case Num(n) => IntToString(n)
    case Str(s) => s
    case Obj(_) => "[object Object]"
  }

  /**
   * The replacement for one token whose captured key is `key`
   * (lib/renderTemplate.js lines 24-27), as a loop over the segments.
   */
  method Substitute(data: Value, key: string) returns (s: string)
    ensures s == Display(Lookup(data, SplitKey(key)))
  {
    var parts := SplitKey(key);
    var v := data;
    for i := 0 to |parts|
      invariant Lookup(v, parts[i..]) == Lookup(data, parts)
    {
      assert parts[i..][1..] == parts[i+1..];
      v := Step(v, parts[i]);
    }
    assert parts[|parts|..] == [];
    s := if v.Undef? || v.Null? then "" else Display(v);
  }
}
