/**
 * The token scan of lib/renderTemplate.js: the global replace of
 * `\{\{\s*([\w.]+)\s*\}\}` over a template. The regular expression is
 * modelled by a greedy matcher. Its three runs are white space, key
 * characters and white space again: each run's class is disjoint from the
 * class of the run after it, and no class contains `}`, so greedy matching
 * is the only way the pattern can match, which MatchTokenComplete confirms.
 */
module TemplateScan {
  import opened Wrappers
  import opened TemplateData
  import opened Text

  /** `\s`: ECMAScript white space and line terminators. */
  predicate IsSpace(c: char) {
    || c == ' ' || c == '\t' || c == '\n' || c == '\r'
    || c as int == 0x0B || c as int == 0x0C
    || c as int == 0xA0 || c as int == 0x1680 || 0x2000 <= c as int <= 0x200A
    || c as int == 0x2028 || c as int == 0x2029 || c as int == 0x202F
    || c as int == 0x205F || c as int == 0x3000 || c as int == 0xFEFF
  }

  /** `[\w.]`: ASCII letters, digits, underscore and the dot (no `u` flag). */
  predicate IsKeyChar(c: char) {
    'A' <= c <= 'Z' || 'a' <= c <= 'z' || '0' <= c <= '9' || c == '_' || c == '.'
  }

  predicate AllSpace(s: string) {
    forall i :: 0 <= i < |s| ==> IsSpace(s[i])
  }

  /** What `([\w.]+)` can capture. */
  predicate IsKey(s: string) {
    s != [] && forall i :: 0 <= i < |s| ==> IsKeyChar(s[i])
  }

  /** The text of a token: braces, optional white space, the key, optional white space, braces. */
  function TokenText(ws1: string, key: string, ws2: string): string {
    "{{" + ws1 + key + ws2 + "}}"
  }

  /** The two character classes the pattern repeats: `\s` and `[\w.]`. */
  datatype CharClass = Space | KeyChar

  predicate InClass(c: char, k: CharClass) {
    match k
    case Space => IsSpace(c)
    case KeyChar => IsKeyChar(c)
  }

  /** Length of the longest prefix of `s` whose characters all belong to class `k`. */
  function RunLength(s: string, k: CharClass): (n: nat)
    ensures n <= |s|
    decreases |s|
  {
    if s == [] || !InClass(s[0], k) then 0 else 1 + RunLength(s[1..], k)
  }

  /** The run is as long as possible: all of it is in the class, the next character is not. */
  lemma {:induction false} RunLengthSpec(s: string, k: CharClass)
    ensures forall i :: 0 <= i < RunLength(s, k) ==> InClass(s[i], k)
    ensures RunLength(s, k) < |s| ==> !InClass(s[RunLength(s, k)], k)
    decreases |s|
  {
    if s != [] && InClass(s[0], k) {
      RunLengthSpec(s[1..], k);
      assert forall i :: 1 <= i < RunLength(s, k) ==> s[i] == s[1..][i - 1];
    }
  }

  /** RunLengthSpec for a run that starts at position `start` of `t`. */
  lemma RunAt(t: string, start: nat, k: CharClass)
    requires start <= |t|
    ensures var end := start + RunLength(t[start..], k);
      && (forall i :: start <= i < end ==> InClass(t[i], k))
      && (end < |t| ==> !InClass(t[end], k))
  {
    RunLengthSpec(t[start..], k);
    assert forall i :: start <= i < |t| ==> t[i] == t[start..][i - start];
  }

  /** A match at the start of the remaining text: the captured key and the matched length. */
  datatype Token = Token(key: string, len: nat)

  /** Where the key starts: after `{{` and the white space that follows it. */
  function KeyStart(t: string): (a: nat)
    requires |t| >= 2
    ensures 2 <= a <= |t|
  {
    2 + RunLength(t[2..], Space)
  }

  /** Where the key ends: after the longest run of key characters. */
  function KeyEnd(t: string): (e: nat)
    requires |t| >= 2
    ensures KeyStart(t) <= e <= |t|
  {
    KeyStart(t) + RunLength(t[KeyStart(t)..], KeyChar)
  }

  /** Where `}}` must start: after the white space that follows the key. */
  function CloseStart(t: string): (b: nat)
    requires |t| >= 2
    ensures KeyEnd(t) <= b <= |t|
  {
    KeyEnd(t) + RunLength(t[KeyEnd(t)..], Space)
  }

  /** Tries the token pattern at the start of `t`. */
  function MatchToken(t: string): (r: Option<Token>)
    ensures r.Some? ==> 5 <= r.value.len <= |t|
  {
    if |t| < 2 || t[0] != '{' || t[1] != '{' then None
    else
      var a, e, b := KeyStart(t), KeyEnd(t), CloseStart(t);
      if a < e && b + 2 <= |t| && t[b] == '}' && t[b + 1] == '}'
      then Some(Token(t[a..e], b + 2))
      else None
  }

  /** `tpl.replace(/\{\{\s*([\w.]+)\s*\}\}/g, ...)` with the lookup of Substitute as the callback. */
  function Render(t: string, data: Value): string
    decreases |t|
  {
    if t == [] then ""
    else match MatchToken(t)
      case Some(tok) => Display(Lookup(data, SplitKey(tok.key))) + Render(t[tok.len..], data)
      case None => [t[0]] + Render(t[1..], data)
  }

  // ---------------------------------------------------------------------------
  // The matcher agrees with the regular expression
  // ---------------------------------------------------------------------------

  lemma {:induction false} RunLengthAppend(a: string, b: string, k: CharClass)
    requires forall i :: 0 <= i < |a| ==> InClass(a[i], k)
    requires b != [] ==> !InClass(b[0], k)
    ensures RunLength(a + b, k) == |a|
    decreases |a|
  {
    if a == [] {
      assert a + b == b;
    } else {
      assert (a + b)[1..] == a[1..] + b;
      RunLengthAppend(a[1..], b, k);
    }
  }

  /**
   * Every match is laid out as the pattern says: `{{`, white space up to
   * `KeyStart`, key characters up to `KeyEnd`, white space up to
   * `CloseStart`, then `}}`; MatchTokenAt is the converse.
   */
  lemma MatchTokenSound(t: string)
    requires MatchToken(t).Some?
    ensures var a, e, b := KeyStart(t), KeyEnd(t), CloseStart(t);
      && t[0] == '{' && t[1] == '{'
      && (forall i :: 2 <= i < a ==> InClass(t[i], Space))
      && a < e && (forall i :: a <= i < e ==> InClass(t[i], KeyChar))
      && (forall i :: e <= i < b ==> InClass(t[i], Space))
      && b + 2 <= |t| && t[b] == '}' && t[b + 1] == '}'
      && MatchToken(t).value == Token(t[a..e], b + 2)
  {
    RunAt(t, 2, Space);
    RunAt(t, KeyStart(t), KeyChar);
    RunAt(t, KeyEnd(t), Space);
  }

  /** A run stops exactly where its predicate first fails. */
  lemma {:induction false} RunLengthIs(s: string, k: CharClass, n: nat)
    requires n <= |s|
    requires forall i :: 0 <= i < n ==> InClass(s[i], k)
    requires n < |s| ==> !InClass(s[n], k)
    ensures RunLength(s, k) == n
    decreases n
  {
    if n > 0 {
      RunLengthIs(s[1..], k, n - 1);
    }
  }

  /** RunLengthIs for a run that starts at position `start` of `t` and stops at `end`. */
  lemma RunEndsAt(t: string, start: nat, k: CharClass, end: nat)
    requires start <= end <= |t|
    requires forall i :: start <= i < end ==> InClass(t[i], k)
    requires end < |t| ==> !InClass(t[end], k)
    ensures start + RunLength(t[start..], k) == end
  {
    assert forall i :: start <= i < |t| ==> t[start..][i - start] == t[i];
    RunLengthIs(t[start..], k, end - start);
  }

  /** The matcher in terms of positions: it finds the token laid out at `a`, `e` and `b`. */
  lemma MatchTokenAt(t: string, a: nat, e: nat, b: nat)
    requires 2 <= a < e <= b && b + 2 <= |t|
    requires t[0] == '{' && t[1] == '{'
    requires forall i :: 2 <= i < a ==> InClass(t[i], Space)
    requires forall i :: a <= i < e ==> InClass(t[i], KeyChar)
    requires forall i :: e <= i < b ==> InClass(t[i], Space)
    requires t[b] == '}' && t[b + 1] == '}'
    ensures MatchToken(t) == Some(Token(t[a..e], b + 2))
  {
    RunEndsAt(t, 2, Space, a);
    assert KeyStart(t) == a;
    RunEndsAt(t, a, KeyChar, e);
    assert KeyEnd(t) == e;
    RunEndsAt(t, e, Space, b);
    assert CloseStart(t) == b;
  }

  /** Every token text at the start of the input is matched, with exactly its key and length. */
  lemma MatchTokenComplete(ws1: string, key: string, ws2: string, rest: string)
    requires AllSpace(ws1) && IsKey(key) && AllSpace(ws2)
    ensures MatchToken(TokenText(ws1, key, ws2) + rest)
      == Some(Token(key, |TokenText(ws1, key, ws2)|))
  {
    var t := TokenText(ws1, key, ws2) + rest;
    var a := 2 + |ws1|;
    var e := a + |key|;
    var b := e + |ws2|;
    assert forall i :: 2 <= i < a ==> t[i] == ws1[i - 2];
    assert forall i :: a <= i < e ==> t[i] == key[i - a];
    assert forall i :: e <= i < b ==> t[i] == ws2[i - e];
    assert t[b] == '}' && t[b + 1] == '}';
    MatchTokenAt(t, a, e, b);
    assert t[a..e] == key;
  }

  // ---------------------------------------------------------------------------
  // Properties of the rendered text
  // ---------------------------------------------------------------------------

  /** No match starts at any of the first `n` positions of `t`. */
  predicate NoTokenBefore(t: string, n: nat)
    requires n <= |t|
  {
    forall i :: 0 <= i < n ==> NoTokenAt(t, i)
  }

  /** No match starts at position `i` of `t`. */
  predicate NoTokenAt(t: string, i: nat)
    requires i <= |t|
  {
    MatchToken(t[i..]).None?
  }

  /** One step of the scan where no token starts: the character is copied. */
  lemma RenderNoMatch(t: string, data: Value)
    requires t != [] && MatchToken(t).None?
    ensures Render(t, data) == [t[0]] + Render(t[1..], data)
  {
  }

  /** Dropping the first character keeps the remaining positions token-free. */
  lemma NoTokenBeforeTail(t: string, n: nat)
    requires 0 < n <= |t| && NoTokenBefore(t, n)
    ensures NoTokenBefore(t[1..], n - 1)
  {
    forall i | 0 <= i < n - 1 ensures NoTokenAt(t[1..], i) {
      assert NoTokenAt(t, i + 1);
      assert t[1..][i..] == t[i + 1..];
    }
  }

  /** Text in which no token starts is copied through verbatim and in order. */
  lemma {:induction false} RenderLiteralPrefix(t: string, n: nat, data: Value)
    requires n <= |t| && NoTokenBefore(t, n)
    ensures Render(t, data) == t[..n] + Render(t[n..], data)
    decreases n
  {
    if n == 0 {
      assert t[..0] == [] && t[0..] == t;
    } else {
      var u := t[1..];
      assert NoTokenAt(t, 0);
      assert t[0..] == t;
      RenderNoMatch(t, data);
      NoTokenBeforeTail(t, n);
      RenderLiteralPrefix(u, n - 1, data);
      var r := Render(t[n..], data);
      assert u[n - 1..] == t[n..];
      assert Render(u, data) == u[..n - 1] + r;
      assert t[..n] == [t[0]] + u[..n - 1];
      ConcatAssoc([t[0]], u[..n - 1], r);
    }
  }

  /** A template in which no token starts is returned unchanged, whatever the data. */
  lemma NoTokenUnchanged(t: string, data: Value)
    requires NoTokenBefore(t, |t|)
    ensures Render(t, data) == t
  {
    RenderLiteralPrefix(t, |t|, data);
    assert t[..|t|] == t && t[|t|..] == [];
  }

  /** Text without an opening brace is copied through, and scanning resumes after it. */
  lemma NoBraceIsLiteral(a: string, b: string, data: Value)
    requires '{' !in a
    ensures Render(a + b, data) == a + Render(b, data)
  {
    var t := a + b;
    forall i | 0 <= i < |a| ensures NoTokenAt(t, i) {
      assert t[i..][0] == a[i];
    }
    RenderLiteralPrefix(t, |a|, data);
    assert t[..|a|] == a && t[|a|..] == b;
  }

  /**
   * After `{{`, a character that is neither white space, nor a key
   * character, nor `}`, reached before any `}`, rules a match out.
   */
  lemma UnclosedGroupNoMatch(t: string, j: nat)
    requires 2 <= j < |t|
    requires !IsSpace(t[j]) && !IsKeyChar(t[j]) && t[j] != '}'
    requires forall i :: 2 <= i < j ==> t[i] != '}'
    ensures MatchToken(t).None?
  {
    if t[0] == '{' && t[1] == '{' {
      RunAt(t, 2, Space);
      RunAt(t, KeyStart(t), KeyChar);
      RunAt(t, KeyEnd(t), Space);
      assert CloseStart(t) <= j;
    }
  }

  /**
   * A token is replaced by the string form of the value its dotted key
   * reaches; the replacement is not scanned again, and scanning resumes
   * right after the closing braces.
   */
  lemma RenderToken(ws1: string, key: string, ws2: string, rest: string, data: Value)
    requires AllSpace(ws1) && IsKey(key) && AllSpace(ws2)
    ensures Render(TokenText(ws1, key, ws2) + rest, data)
      == Display(Lookup(data, SplitKey(key))) + Render(rest, data)
  {
    var tt := TokenText(ws1, key, ws2);
    MatchTokenComplete(ws1, key, ws2, rest);
    assert (tt + rest)[|tt|..] == rest;
  }

  /** White space inside the braces does not change the output: `{{a.b}}` renders as `{{ a.b }}`. */
  lemma WhitespaceIgnored(ws1: string, key: string, ws2: string, rest: string, data: Value)
    requires AllSpace(ws1) && IsKey(key) && AllSpace(ws2)
    ensures Render(TokenText(ws1, key, ws2) + rest, data)
      == Render(TokenText("", key, "") + rest, data)
  {
    RenderToken(ws1, key, ws2, rest, data);
    RenderToken("", key, "", rest, data);
  }

  /** A token whose path is missing or ends in null/undefined disappears. */
  lemma AbsentTokenVanishes(ws1: string, key: string, ws2: string, rest: string, data: Value)
    requires AllSpace(ws1) && IsKey(key) && AllSpace(ws2)
    requires Absent(Lookup(data, SplitKey(key)))
    ensures Render(TokenText(ws1, key, ws2) + rest, data) == Render(rest, data)
  {
    RenderToken(ws1, key, ws2, rest, data);
  }

  /** `s` is what `\s*([\w.]+)\s*` matches in full: white space, a key, white space. */
  ghost predicate IsTokenBody(s: string) {
    exists ws1, key, ws2 :: AllSpace(ws1) && IsKey(key) && AllSpace(ws2) && s == ws1 + key + ws2
  }

  /** The text a match covers between `{{` and `}}` is a token body. */
  lemma MatchBodyIsTokenBody(t: string)
    requires MatchToken(t).Some?
    ensures IsTokenBody(t[2..CloseStart(t)])
  {
    MatchTokenSound(t);
    var a, e, b := KeyStart(t), KeyEnd(t), CloseStart(t);
    var ws1, key, ws2 := t[2..a], t[a..e], t[e..b];
    assert forall i :: 0 <= i < |ws1| ==> ws1[i] == t[i + 2];
    assert forall i :: 0 <= i < |key| ==> key[i] == t[i + a];
    assert forall i :: 0 <= i < |ws2| ==> ws2[i] == t[i + e];
    assert AllSpace(ws1) && IsKey(key) && AllSpace(ws2);
    assert t[2..b] == ws1 + key + ws2;
  }

  /** A match closes at the first `}` after the opening braces. */
  lemma MatchClosesAtFirstBrace(t: string, n: nat)
    requires MatchToken(t).Some?
    requires 2 <= n < |t| && t[n] == '}'
    requires forall i :: 2 <= i < n ==> t[i] != '}'
    ensures CloseStart(t) == n
  {
    MatchTokenSound(t);
    assert !InClass(t[n], Space) && !InClass(t[n], KeyChar);
  }

  /** The layout of a brace group `{{s}}` followed by more text. */
  lemma GroupLayout(s: string, rest: string)
    ensures var t := "{{" + s + "}}" + rest;
      && |t| == |s| + 4 + |rest|
      && t[0] == '{' && t[1] == '{' && t[2..2 + |s|] == s
      && (forall i :: 2 <= i < 2 + |s| ==> t[i] == s[i - 2])
      && t[2 + |s|] == '}' && t[3 + |s|] == '}'
      && t[..|s| + 4] == "{{" + s + "}}" && t[|s| + 4..] == rest
  {
  }

  /**
   * A match of the pattern on `{{s}}` (where `s` has no `}`) means that `s`
   * is a token body: the closing braces can only be the ones after `s`.
   */
  lemma GroupMatchIsBody(s: string, rest: string)
    requires '}' !in s
    ensures MatchToken("{{" + s + "}}" + rest).Some? ==> IsTokenBody(s)
  {
    var t := "{{" + s + "}}" + rest;
    if MatchToken(t).Some? {
      GroupLayout(s, rest);
      MatchClosesAtFirstBrace(t, 2 + |s|);
      MatchBodyIsTokenBody(t);
    }
  }

  /**
   * A brace group whose content has no braces and is not white space, a
   * key of `[\w.]` and white space is not a token: it stays verbatim, and
   * scanning resumes after it.
   */
  lemma MalformedGroupVerbatim(s: string, rest: string, data: Value)
    requires '{' !in s && '}' !in s
    requires !IsTokenBody(s)
    ensures Render("{{" + s + "}}" + rest, data) == "{{" + s + "}}" + Render(rest, data)
  {
    var g := "{{" + s + "}}";
    var t := g + rest;
    GroupLayout(s, rest);
    forall i | 0 <= i < |g| ensures NoTokenAt(t, i) {
      if i == 0 {
        assert t[0..] == t;
        GroupMatchIsBody(s, rest);
      } else {
        assert t[i..][0] == t[i];
        assert i == 1 ==> t[i..][1] == t[2];
      }
    }
    RenderLiteralPrefix(t, |g|, data);
  }

  /**
   * Every character of a token body is white space or a key character, and
   * at least one is a key character: `{{}}`, `{{ }}` and any group holding
   * another character are not tokens.
   */
  lemma TokenBodyChars(s: string)
    ensures IsTokenBody(s) ==> forall j :: 0 <= j < |s| ==> IsSpace(s[j]) || IsKeyChar(s[j])
    ensures IsTokenBody(s) ==> !AllSpace(s)
  {
    if IsTokenBody(s) {
      var ws1, key, ws2 :| AllSpace(ws1) && IsKey(key) && AllSpace(ws2) && s == ws1 + key + ws2;
      assert forall j :: 0 <= j < |s| ==>
        s[j] == if j < |ws1| then ws1[j] else if j < |ws1| + |key| then key[j - |ws1|] else ws2[j - |ws1| - |key|];
      assert s[|ws1|] == key[0] && IsKeyChar(s[|ws1|]) && !IsSpace(s[|ws1|]);
    }
  }

  /** In a token body no white space stands between two key characters: `{{first name}}` is not a token. */
  lemma TokenBodyOneKey(s: string, i: nat, j: nat, k: nat)
    requires i < j < k < |s|
    requires IsKeyChar(s[i]) && IsKeyChar(s[k])
    ensures IsTokenBody(s) ==> !IsSpace(s[j])
  {
    if IsTokenBody(s) {
      var ws1, key, ws2 :| AllSpace(ws1) && IsKey(key) && AllSpace(ws2) && s == ws1 + key + ws2;
      assert forall m :: 0 <= m < |s| ==>
        s[m] == if m < |ws1| then ws1[m] else if m < |ws1| + |key| then key[m - |ws1|] else ws2[m - |ws1| - |key|];
      assert |ws1| <= i;
      assert k < |ws1| + |key|;
      assert IsKeyChar(s[j]);
    }
  }

  /** A group of white space only, `{{}}` included, is left verbatim. */
  lemma BlankGroupVerbatim(w: string, rest: string, data: Value)
    requires AllSpace(w)
    ensures Render("{{" + w + "}}" + rest, data) == "{{" + w + "}}" + Render(rest, data)
  {
    TokenBodyChars(w);
    assert forall c :: IsSpace(c) ==> c != '{' && c != '}';
    MalformedGroupVerbatim(w, rest, data);
  }

  /** Two keys separated by white space, as in `{{first name}}`, are left verbatim. */
  lemma SpacedKeyVerbatim(k1: string, w: string, k2: string, rest: string, data: Value)
    requires IsKey(k1) && IsKey(k2) && w != [] && AllSpace(w)
    ensures var g := "{{" + (k1 + w + k2) + "}}";
      Render(g + rest, data) == g + Render(rest, data)
  {
    var s := k1 + w + k2;
    assert forall m :: 0 <= m < |s| ==>
      s[m] == if m < |k1| then k1[m] else if m < |k1| + |w| then w[m - |k1|] else k2[m - |k1| - |w|];
    TokenBodyOneKey(s, |k1| - 1, |k1|, |k1| + |w|);
    assert forall c :: IsSpace(c) || IsKeyChar(c) ==> c != '{' && c != '}';
    assert forall m :: 0 <= m < |s| ==> IsSpace(s[m]) || IsKeyChar(s[m]);
    MalformedGroupVerbatim(s, rest, data);
  }

  /** `{{a.b}}` against `{a: {b: "x"}}` renders as `x`. */
  lemma NestedPathExample(t1: string)
    requires t1 == "{{a.b}}"
    ensures Render(t1, Obj(map["a" := Obj(map["b" := Str("x")])])) == "x"
  {
    var inner := Obj(map["b" := Str("x")]);
    var d1 := Obj(map["a" := inner]);
    var key := "a" + "." + "b";
    assert t1 == TokenText("", key, "") + "";
    RenderToken("", key, "", "", d1);
    SplitDotFreePrefix("a", "b");
    SplitNoDot("b");
    assert SplitKey(key) == ["a", "b"];
    assert Step(d1, "a") == inner;
    assert Lookup(d1, ["a", "b"]) == Lookup(inner, ["b"]);
  }
  /** An unknown key renders as the empty string. */
  lemma MissingKeyExample(t2: string)
    requires t2 == "{{missing}}"
    ensures Render(t2, Obj(map[])) == ""
  {
    var key := "missing";
    assert t2 == TokenText("", key, "") + "";
    RenderToken("", key, "", "", Obj(map[]));
    assert SplitKey(key)[..0] == [];
    MissingSegmentIsUndefined(Obj(map[]), SplitKey(key), 0);
  }

  /** A value that looks like a token is inserted literally, not rendered again. */
  lemma NoRescanExample(t3: string)
    requires t3 == "{{ x }}!"
    ensures Render(t3, Obj(map["x" := Str("{{x}}")])) == "{{x}}!"
  {
    var d3 := Obj(map["x" := Str("{{x}}")]);
    assert t3 == TokenText(" ", "x", " ") + "!";
    RenderToken(" ", "x", " ", "!", d3);
    SplitNoDot("x");
    NoBraceIsLiteral("!", "", d3);
    assert "!" + "" == "!";
  }
}
