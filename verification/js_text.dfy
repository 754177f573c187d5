/** The pieces of JavaScript's string semantics the station board relies on:
    the white-space class (shared by the regular-expression escape `\s` and by
    `parseInt`'s leading-blank skip), decimal `parseInt`, and the `<` / `>`
    comparison of two strings. */
module JsText {
  import opened Wrappers

  /** WhiteSpace and LineTerminator code points of ECMAScript: TAB, LF, VT, FF,
      CR, SPACE, NBSP, the Unicode space separators, LS, PS and BOM. */
  predicate IsJsSpace(c: char) {
    || c == '\t' || c == '\n' || c == '\U{000B}' || c == '\U{000C}' || c == '\r'
    || c == ' ' || c == '\U{00A0}' || c == '\U{1680}'
    || ('\U{2000}' <= c <= '\U{200A}')
    || c == '\U{2028}' || c == '\U{2029}' || c == '\U{202F}' || c == '\U{205F}'
    || c == '\U{3000}' || c == '\U{FEFF}'
  }

  /** The regular-expression class `\d`. */
  predicate IsDigit(c: char) {
    '0' <= c <= '9'
  }

  /** The regular-expression class `[a-zA-Z]`. */
  predicate IsAsciiLetter(c: char) {
    ('a' <= c <= 'z') || ('A' <= c <= 'Z')
  }

  predicate AllDigits(s: string) {
    forall i :: 0 <= i < |s| ==> IsDigit(s[i])
  }

  predicate AllSpaces(s: string) {
    forall i :: 0 <= i < |s| ==> IsJsSpace(s[i])
  }

  function DigitValue(c: char): (d: nat)
    requires IsDigit(c)
    ensures d < 10
  {
    c as int - '0' as int
  }

  function DigitChar(d: nat): (c: char)
    requires d < 10
    ensures IsDigit(c) && DigitValue(c) == d
  {
    ('0' as int + d) as char
  }

  /** The value of a string of decimal digits, most significant first. */
  function DecimalValue(ds: string): nat
    requires AllDigits(ds)
    decreases |ds|
  {
    if |ds| == 0 then 0
    else 10 * DecimalValue(ds[..|ds| - 1]) + DigitValue(ds[|ds| - 1])
  }

  /** The shortest decimal spelling of `n`, as JavaScript's `String(n)` writes
      it for n < 10^21 (from 10^21 on, `String` switches to exponent form). */
  function FormatNat(n: nat): (ds: string)
    ensures |ds| > 0 && AllDigits(ds)
    ensures DecimalValue(ds) == n
    decreases n
  {
    if n < 10 then [DigitChar(n)]
    else
      var init := FormatNat(n / 10);
      var ds := init + [DigitChar(n % 10)];
      assert ds[..|ds| - 1] == init;
      ds
  }

  function FormatInt(n: int): (s: string)
  {
    if n < 0 then "-" + FormatNat(-n) else FormatNat(n)
  }

  /** Length of the longest prefix of `s` whose characters are all blanks. */
  function SpacePrefixLength(s: string): (n: nat)
    ensures n <= |s|
    ensures AllSpaces(s[..n])
    ensures n < |s| ==> !IsJsSpace(s[n])
    decreases |s|
  {
    if |s| == 0 || !IsJsSpace(s[0]) then 0
    else
      var n := 1 + SpacePrefixLength(s[1..]);
      assert forall i :: 1 <= i < n ==> s[i] == s[1..][i - 1];
      n
  }

  /** Length of the longest prefix of `s` whose characters are all decimal digits. */
  function DigitPrefixLength(s: string): (n: nat)
    ensures n <= |s|
    ensures AllDigits(s[..n])
    ensures n < |s| ==> !IsDigit(s[n])
    decreases |s|
  {
    if |s| == 0 || !IsDigit(s[0]) then 0
    else
      var n := 1 + DigitPrefixLength(s[1..]);
      assert forall i :: 1 <= i < n ==> s[i] == s[1..][i - 1];
      n
  }

  /** `parseInt(s)` with the default radix on a decimal label: skip leading
      blanks, take an optional sign, then the longest run of decimal digits;
      no digit at all is `NaN`, modelled as None. */
  function ParseInt(s: string): Option<int> {
    ParseSigned(s[SpacePrefixLength(s)..])
  }

  /** What `parseInt` reads once the blanks are skipped. */
  function ParseSigned(t: string): Option<int> {
    if |t| > 0 && (t[0] == '+' || t[0] == '-') then
      match ParseDigits(t[1..])
      case None => None
      case Some(m) => Some(if t[0] == '-' then -(m as int) else m)
    else ParseDigits(t)
  }

  /** The value of the leading digit run, or None when there is none. */
  function ParseDigits(u: string): Option<nat> {
    var n := DigitPrefixLength(u);
    if n == 0 then None else Some(DecimalValue(u[..n]))
  }

  /** JavaScript truthiness of `parseInt(s)`: false for `NaN` and for zero
      (including the `-0` that "-0" yields). */
  predicate ParsesNonZero(s: string) {
    match ParseInt(s)
    case Some(n) => n != 0
    case None => false
  }

  /** The value of `parseInt(s)` where it is a number, 0 where it is `NaN`. */
  function ParsedValue(s: string): int {
    ParseInt(s).GetOr(0)
  }

  /** `a < b` on two JavaScript strings: lexicographic by code unit. */
  predicate LexLess(a: string, b: string)
    decreases |a|
  {
    |b| > 0 && (|a| == 0 || a[0] < b[0] || (a[0] == b[0] && LexLess(a[1..], b[1..])))
  }

  // ---------------------------------------------------------------------
  // Properties of parseInt

  lemma {:induction false} DigitPrefixOfDigits(ds: string, rest: string)
    requires AllDigits(ds)
    requires |rest| == 0 || !IsDigit(rest[0])
    ensures DigitPrefixLength(ds + rest) == |ds|
    decreases |ds|
  {
    if |ds| == 0 {
      assert ds + rest == rest;
    } else {
      assert (ds + rest)[1..] == ds[1..] + rest;
      DigitPrefixOfDigits(ds[1..], rest);
    }
  }

  lemma {:induction false} SpacePrefixOfSpaces(ws: string, rest: string)
    requires AllSpaces(ws)
    requires |rest| == 0 || !IsJsSpace(rest[0])
    ensures SpacePrefixLength(ws + rest) == |ws|
    decreases |ws|
  {
    if |ws| == 0 {
      assert ws + rest == rest;
    } else {
      assert (ws + rest)[1..] == ws[1..] + rest;
      SpacePrefixOfSpaces(ws[1..], rest);
    }
  }

  /** parseInt reads back what String(n) writes for |n| < 10^21, past any leading blanks and
      before any trailing text that does not start with a digit. */
  lemma ParseIntFormatInt(ws: string, n: int, rest: string)
    requires AllSpaces(ws)
    requires |rest| == 0 || !IsDigit(rest[0])
    ensures ParseInt(ws + FormatInt(n) + rest) == Some(n)
  {
    var sign, ds, m := FormatIntParts(n);
    ParseIntOfParts(ws, sign, ds, rest, m);
    SameParts(ws, FormatInt(n), sign, ds, rest);
  }

  /** `String(n)` is a sign, '-' exactly for a negative `n`, and the digits of |n|. */
  lemma FormatIntParts(n: int) returns (sign: string, ds: string, m: nat)
    ensures IsSign(sign) && (sign == "-" <==> n < 0)
    ensures |ds| > 0 && AllDigits(ds) && m == DecimalValue(ds)
    ensures m == if n < 0 then -n else n
    ensures FormatInt(n) == sign + ds
  {
    m := if n < 0 then -n else n;
    sign := if n < 0 then "-" else "";
    ds := FormatNat(m);
  }

  lemma SameParts(ws: string, f: string, sign: string, ds: string, rest: string)
    requires f == sign + ds
    ensures ws + f + rest == ws + sign + ds + rest
  {
  }

  lemma SkipBlanks(ws: string, body: string)
    requires AllSpaces(ws)
    requires |body| == 0 || !IsJsSpace(body[0])
    ensures (ws + body)[SpacePrefixLength(ws + body)..] == body
  {
    SpacePrefixOfSpaces(ws, body);
  }

  /** The sign `parseInt` accepts in front of the digits: none, '+' or '-'. */
  predicate IsSign(sign: string) {
    sign == "" || sign == "+" || sign == "-"
  }

  /** `parseInt` on a label made of blanks, an optional sign, a digit run
      worth `value`, and anything that does not start with a digit: it reads
      the signed value, and the label is truthy exactly when `value` is not 0. */
  lemma ParseIntOfParts(ws: string, sign: string, ds: string, rest: string, value: nat)
    requires AllSpaces(ws) && IsSign(sign)
    requires |ds| > 0 && AllDigits(ds) && value == DecimalValue(ds)
    requires |rest| == 0 || !IsDigit(rest[0])
    ensures ParseInt(ws + sign + ds + rest) == Some(if sign == "-" then -(value as int) else value)
    ensures ParsesNonZero(ws + sign + ds + rest) <==> value != 0
  {
    DigitsThenRest(ds, rest);
    Reassociate(ws, sign, ds, rest);
    BlanksSignDigits(ws, sign, ds + rest, value);
  }

  lemma Reassociate(a: string, b: string, c: string, d: string)
    ensures a + b + c + d == a + (b + (c + d))
  {
    assert a + b + c == a + (b + c);
    assert b + c + d == b + (c + d);
  }

  lemma BlanksSignDigits(ws: string, sign: string, u: string, value: nat)
    requires AllSpaces(ws) && IsSign(sign)
    requires |u| > 0 && IsDigit(u[0]) && ParseDigits(u) == Some(value)
    ensures ParseInt(ws + (sign + u)) == Some(if sign == "-" then -(value as int) else value)
    ensures ParsesNonZero(ws + (sign + u)) <==> value != 0
  {
    SignedDigits(sign, u, value);
    ParseIntSkipsBlanks(ws, sign + u);
  }

  /** Leading blanks do not change what `parseInt` reads. */
  lemma ParseIntSkipsBlanks(ws: string, body: string)
    requires AllSpaces(ws)
    requires |body| == 0 || !IsJsSpace(body[0])
    ensures ParseInt(ws + body) == ParseInt(body)
  {
    SkipBlanks(ws, body);
    assert SpacePrefixLength(body) == 0;
  }

  lemma SignedDigits(sign: string, u: string, value: nat)
    requires IsSign(sign)
    requires |u| > 0 && IsDigit(u[0]) && ParseDigits(u) == Some(value)
    ensures |sign + u| > 0 && !IsJsSpace((sign + u)[0])
    ensures ParseInt(sign + u) == Some(if sign == "-" then -(value as int) else value)
  {
    if sign == "" {
      UnsignedDigits(sign, u);
    } else {
      SignThenDigits(sign, u);
    }
  }

  lemma UnsignedDigits(sign: string, u: string)
    requires sign == ""
    requires |u| > 0 && IsDigit(u[0])
    ensures sign + u == u
    ensures ParseInt(sign + u) == ParseDigits(u)
  {
    assert sign + u == u;
    BlankFree(u);
  }

  lemma DigitsThenRest(ds: string, rest: string)
    requires |ds| > 0 && AllDigits(ds)
    requires |rest| == 0 || !IsDigit(rest[0])
    ensures IsDigit((ds + rest)[0])
    ensures ParseDigits(ds + rest) == Some(DecimalValue(ds))
  {
    DigitPrefixOfDigits(ds, rest);
    assert (ds + rest)[..|ds|] == ds;
  }

  /** A string that starts with a digit is read from its first character. */
  lemma BlankFree(u: string)
    requires |u| > 0 && IsDigit(u[0])
    ensures ParseInt(u) == ParseDigits(u)
  {
    assert SpacePrefixLength(u) == 0;
    assert u[0..] == u;
  }

  lemma SignThenDigits(sign: string, u: string)
    requires sign == "+" || sign == "-"
    requires ParseDigits(u).Some?
    ensures |sign + u| > 0 && !IsJsSpace((sign + u)[0])
    ensures ParseInt(sign + u) == Some(if sign == "-" then -(ParseDigits(u).value as int) else ParseDigits(u).value)
  {
    var body := sign + u;
    assert body[0] == sign[0];
    assert SpacePrefixLength(body) == 0;
    assert body[0..] == body && body[1..] == u;
  }

  /** Blanks, a sign, and then no digit: `parseInt` gives NaN. Without a
      sign, the first non-blank character must not itself be a sign. */
  lemma ParseIntNaN(ws: string, sign: string, rest: string)
    requires AllSpaces(ws) && IsSign(sign)
    requires |rest| == 0 || !IsDigit(rest[0])
    requires sign == "" && |rest| > 0 ==> !IsJsSpace(rest[0]) && rest[0] != '+' && rest[0] != '-'
    ensures ParseInt(ws + sign + rest) == None
  {
    var body := sign + rest;
    assert ws + sign + rest == ws + body;
    SkipBlanks(ws, body);
    if sign != "" {
      assert body[1..] == rest;
    } else {
      assert body == rest;
    }
  }

  /** A label whose first non-blank character is a letter is never numeric. */
  lemma LetterLeadIsNaN(ws: string, c: char, rest: string)
    requires AllSpaces(ws)
    requires IsAsciiLetter(c)
    ensures ParseInt(ws + [c] + rest) == None
  {
    var s := ws + [c] + rest;
    assert s == ws + ([c] + rest);
    SpacePrefixOfSpaces(ws, [c] + rest);
    assert s[|ws|..] == [c] + rest;
  }

  // ---------------------------------------------------------------------
  // String comparison is a strict total order

  lemma {:induction false} LexLessIrreflexive(a: string)
    ensures !LexLess(a, a)
    decreases |a|
  {
    if |a| > 0 {
      LexLessIrreflexive(a[1..]);
    }
  }

  lemma {:induction false} LexLessTransitive(a: string, b: string, c: string)
    requires LexLess(a, b) && LexLess(b, c)
    ensures LexLess(a, c)
    decreases |a|
  {
    if |a| > 0 && a[0] == b[0] && b[0] == c[0] {
      LexLessTransitive(a[1..], b[1..], c[1..]);
    }
  }

  lemma {:induction false} LexLessTotal(a: string, b: string)
    ensures a == b || LexLess(a, b) || LexLess(b, a)
    decreases |a|
  {
    if |a| > 0 && |b| > 0 && a[0] == b[0] {
      LexLessTotal(a[1..], b[1..]);
      if a[1..] == b[1..] {
        assert a == [a[0]] + a[1..] && b == [b[0]] + b[1..];
      }
    }
  }
}
