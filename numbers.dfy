// Decimal text for integers, as the two halves of the system produce and read
// it: JavaScript's `String(n)` and template literals (`${n}`), JavaScript's
// `parseInt` (which reads the longest numeric prefix and yields NaN when there
// is none), and Python's `int(s)`, which FastAPI applies to an `int` path parameter.
module Numbers {
  import opened Results

  /** JavaScript truthiness of a number held in state: null and 0 are falsy. */
  predicate Truthy(n: Option<int>) {
    n.Some? && n.value != 0
  }

  predicate IsDigit(c: char) {
    '0' <= c <= '9'
  }

  predicate AllDigits(s: string) {
    forall i :: 0 <= i < |s| ==> IsDigit(s[i])
  }

  function DigitChar(d: nat): (c: char)
    requires d < 10
    ensures IsDigit(c) && c as int - '0' as int == d
  {
    ('0' as int + d) as char
  }

  function DigitsValue(s: string): nat
    requires AllDigits(s)
  {
    if s == [] then 0
    else DigitsValue(s[..|s| - 1]) * 10 + (s[|s| - 1] as int - '0' as int)
  }

  /** The decimal digits of `n`, most significant first, without leading zeros. */
  function NatToString(n: nat): (s: string)
    ensures |s| >= 1 && AllDigits(s)
    ensures |s| > 1 ==> s[0] != '0'
  {
    if n < 10 then [DigitChar(n)] else NatToString(n / 10) + [DigitChar(n % 10)]
  }

  /** `String(n)` for an integer `n`. */
  function IntToString(n: int): (s: string)
    ensures |s| >= 1
    ensures n >= 0 ==> AllDigits(s)
    ensures n < 0 ==> s[0] == '-' && AllDigits(s[1..])
  {
    if n < 0 then "-" + NatToString(-n) else NatToString(n)
  }

  /** Length of the run of digits at the start of `s`. */
  function DigitRun(s: string): (k: nat)
    ensures k <= |s| && AllDigits(s[..k])
    ensures k < |s| ==> !IsDigit(s[k])
  {
    if s == [] || !IsDigit(s[0]) then 0 else 1 + DigitRun(s[1..])
  }

  function SignLength(s: string): nat {
    if |s| > 0 && (s[0] == '-' || s[0] == '+') then 1 else 0
  }

  /** JavaScript's `parseInt(s)` in base 10: an optional sign, then the longest
      run of digits; `None` stands for NaN (no digit after the sign). */
  function ParseInt(s: string): (r: Option<int>)
    ensures r.None? <==> DigitRun(s[SignLength(s)..]) == 0
  {
    var body := s[SignLength(s)..];
    var k := DigitRun(body);
    if k == 0 then None
    else
      var v: int := DigitsValue(body[..k]);
      Some(if |s| > 0 && s[0] == '-' then -v else v)
  }

  /** The ASCII whitespace Python's `int` skips around a numeral. */
  predicate IsSpace(c: char) {
    c == ' ' || c == '\t' || c == '\n' || c == '\r' || c as int == 11 || c as int == 12
  }

  predicate AllSpaces(s: string) {
    forall i :: 0 <= i < |s| ==> IsSpace(s[i])
  }

  /** `s` without its leading whitespace. */
  function TrimStart(s: string): (t: string)
    ensures |t| <= |s| && t == s[|s| - |t|..]
    ensures t == [] || !IsSpace(t[0])
  {
    if s != [] && IsSpace(s[0]) then TrimStart(s[1..]) else s
  }

  /** `s` without its trailing whitespace. */
  function TrimEnd(s: string): (t: string)
    ensures |t| <= |s| && t == s[..|t|]
    ensures t == [] || !IsSpace(t[|t| - 1])
  {
    if s != [] && IsSpace(s[|s| - 1]) then TrimEnd(s[..|s| - 1]) else s
  }

  /** `s` without the whitespace `int` skips on either side of a numeral. */
  function Strip(s: string): string {
    TrimEnd(TrimStart(s))
  }

  /** Decimal digits, with single underscores allowed between two digits. */
  predicate DigitGroups(s: string) {
    && s != [] && IsDigit(s[0]) && IsDigit(s[|s| - 1])
    && (forall i :: 0 <= i < |s| ==> IsDigit(s[i]) || s[i] == '_')
    && (forall i :: 0 <= i < |s| - 1 ==> IsDigit(s[i]) || IsDigit(s[i + 1]))
  }

  /** `s` with its underscores dropped. */
  function Digits(s: string): (d: string)
    requires forall i :: 0 <= i < |s| ==> IsDigit(s[i]) || s[i] == '_'
    ensures AllDigits(d)
    ensures AllDigits(s) ==> d == s
  {
    if s == [] then []
    else (if s[0] == '_' then [] else [s[0]]) + Digits(s[1..])
  }

  /** Python's `int(s)` in base 10, which FastAPI applies to an `int` path
      parameter: surrounding whitespace, an optional `+` or `-`, then digits
      that may be grouped by single underscores; anything else is refused. */
  function ParseStrict(s: string): (r: Option<int>)
    ensures r.Some? <==> var t := Strip(s); DigitGroups(t[SignLength(t)..])
  {
    ParseNumeral(Strip(s))
  }

  /** The numeral `int` reads once the whitespace is gone. */
  function ParseNumeral(t: string): (r: Option<int>)
    ensures r.Some? <==> DigitGroups(t[SignLength(t)..])
    ensures r.Some? && r.value < 0 ==> t[0] == '-'
  {
    var body := t[SignLength(t)..];
    if !DigitGroups(body) then None
    else
      var v: int := DigitsValue(Digits(body));
      Some(if t[0] == '-' then -v else v)
  }

  lemma {:induction false} NatToStringValue(n: nat)
    ensures DigitsValue(NatToString(n)) == n
  {
    var s := NatToString(n);
    if n >= 10 {
      NatToStringValue(n / 10);
      assert s[..|s| - 1] == NatToString(n / 10);
    }
  }

  lemma {:induction false} DigitRunOfDigits(d: string, rest: string)
    requires AllDigits(d)
    requires rest == [] || !IsDigit(rest[0])
    ensures DigitRun(d + rest) == |d|
  {
    if d != [] {
      assert (d + rest)[1..] == d[1..] + rest;
      DigitRunOfDigits(d[1..], rest);
    }
  }

  /** `parseInt` reads back what `String(n)` wrote, whatever non-digit text follows. */
  lemma ParseIntAfterToString(n: int, rest: string)
    requires rest == [] || !IsDigit(rest[0])
    ensures ParseInt(IntToString(n) + rest) == Some(n)
  {
    var m: nat := if n < 0 then -n else n;
    NatToStringValue(m);
    if n < 0 {
      var d := NatToString(m);
      ParseIntNegative(d, rest);
      SignedText(d, rest);
    } else {
      ParseIntDigits(NatToString(m), rest);
    }
  }

  lemma SignedText(d: string, rest: string)
    ensures "-" + d + rest == "-" + (d + rest)
  {
  }

  lemma ParseIntDigits(d: string, rest: string)
    requires d != [] && AllDigits(d)
    requires rest == [] || !IsDigit(rest[0])
    ensures ParseInt(d + rest) == Some(DigitsValue(d) as int)
  {
    DigitRunOfDigits(d, rest);
    assert SignLength(d + rest) == 0;
    assert (d + rest)[..|d|] == d;
  }

  lemma ParseIntNegative(d: string, rest: string)
    requires d != [] && AllDigits(d)
    requires rest == [] || !IsDigit(rest[0])
    ensures ParseInt("-" + (d + rest)) == Some(-(DigitsValue(d) as int))
  {
    DigitRunOfDigits(d, rest);
    ParseIntMinus(d + rest, d);
  }

  lemma ParseIntMinus(x: string, d: string)
    requires d != [] && DigitRun(x) == |d| && x[..|d|] == d
    ensures ParseInt("-" + x) == Some(-(DigitsValue(d) as int))
  {
    assert ("-" + x)[1..] == x;
  }

  /** FastAPI's path conversion reads back what a template literal wrote. */
  lemma ParseStrictAfterToString(n: int)
    ensures ParseStrict(IntToString(n)) == Some(n)
  {
    StripPlain(IntToString(n));
    ParseNumeralOfString(n);
  }

  /** ...and so does it with whitespace around the number. */
  lemma ParseStrictPadded(n: int, before: string, after: string)
    requires AllSpaces(before) && AllSpaces(after)
    ensures ParseStrict(before + IntToString(n) + after) == Some(n)
  {
    StripPadded(before, IntToString(n), after);
    ParseNumeralOfString(n);
  }

  /** An explicit plus sign changes nothing. */
  lemma ParseStrictPlus(n: nat)
    ensures ParseStrict("+" + IntToString(n)) == Some(n)
  {
    StripPlain("+" + IntToString(n));
    NatToStringValue(n);
    NumeralSigned('+', NatToString(n));
  }

  lemma ParseNumeralOfString(n: int)
    ensures ParseNumeral(IntToString(n)) == Some(n)
  {
    var m: nat := if n < 0 then -n else n;
    NatToStringValue(m);
    if n < 0 {
      NumeralSigned('-', NatToString(m));
    } else {
      NumeralDigits(NatToString(m));
    }
  }

  lemma NumeralDigits(d: string)
    requires d != [] && AllDigits(d)
    ensures ParseNumeral(d) == Some(DigitsValue(d) as int)
  {
    assert SignLength(d) == 0;
  }

  lemma NumeralSigned(sign: char, d: string)
    requires sign == '-' || sign == '+'
    requires d != [] && AllDigits(d)
    ensures ParseNumeral([sign] + d) == Some(if sign == '-' then -(DigitsValue(d) as int) else DigitsValue(d) as int)
  {
    assert ([sign] + d)[1..] == d;
  }

  /** Text with no digit at all is refused. */
  lemma ParseStrictNeedsDigit(s: string)
    requires forall i :: 0 <= i < |s| ==> !IsDigit(s[i])
    ensures ParseStrict(s) == None
  {
    var t := Strip(s);
    var body := t[SignLength(t)..];
    if body != [] {
      assert body[0] == s[|s| - |TrimStart(s)| + SignLength(t)];
    }
  }

  /** An underscore between two runs of digits is skipped. */
  lemma ParseStrictUnderscore(a: string, b: string)
    requires a != [] && AllDigits(a) && b != [] && AllDigits(b)
    ensures ParseStrict(a + "_" + b) == ParseStrict(a + b) == Some(DigitsValue(a + b) as int)
  {
    var g := a + "_" + b;
    StripPlain(g);
    StripPlain(a + b);
    GroupsAroundUnderscore(a, b);
    DigitsSkipUnderscore(a, b);
    assert SignLength(g) == 0 && SignLength(a + b) == 0;
    assert AllDigits(a + b);
  }

  lemma GroupsAroundUnderscore(a: string, b: string)
    requires a != [] && AllDigits(a) && b != [] && AllDigits(b)
    ensures DigitGroups(a + "_" + b)
  {
    var g := a + "_" + b;
    forall i | 0 <= i < |g| ensures IsDigit(g[i]) || g[i] == '_' {
      if i < |a| { assert g[i] == a[i]; } else if i > |a| { assert g[i] == b[i - |a| - 1]; }
    }
    forall i | 0 <= i < |g| - 1 ensures IsDigit(g[i]) || IsDigit(g[i + 1]) {
      if i < |a| { assert g[i] == a[i]; } else { assert g[i + 1] == b[i - |a|]; }
    }
  }

  lemma {:induction false} DigitsSkipUnderscore(a: string, b: string)
    requires AllDigits(a) && AllDigits(b)
    ensures Digits(a + "_" + b) == a + b
  {
    if a == [] {
      assert a + "_" + b == "_" + b && ("_" + b)[1..] == b;
    } else {
      assert (a + "_" + b)[1..] == a[1..] + "_" + b;
      DigitsSkipUnderscore(a[1..], b);
      assert a + b == [a[0]] + (a[1..] + b);
    }
  }

  lemma {:induction false} TrimStartSpaces(before: string, t: string)
    requires AllSpaces(before)
    requires t != [] && !IsSpace(t[0])
    ensures TrimStart(before + t) == t
  {
    if before != [] {
      assert (before + t)[1..] == before[1..] + t;
      TrimStartSpaces(before[1..], t);
    } else {
      assert before + t == t;
    }
  }

  lemma {:induction false} TrimEndSpaces(t: string, after: string)
    requires AllSpaces(after)
    requires t != [] && !IsSpace(t[|t| - 1])
    ensures TrimEnd(t + after) == t
  {
    if after != [] {
      assert (t + after)[..|t + after| - 1] == t + after[..|after| - 1];
      TrimEndSpaces(t, after[..|after| - 1]);
    } else {
      assert t + after == t;
    }
  }

  lemma StripPlain(t: string)
    requires t != [] && !IsSpace(t[0]) && !IsSpace(t[|t| - 1])
    ensures Strip(t) == t
  {
  }

  /** Stripping removes exactly the padding around text that starts and ends with a non-space. */
  lemma StripPadded(before: string, t: string, after: string)
    requires AllSpaces(before) && AllSpaces(after)
    requires t != [] && !IsSpace(t[0]) && !IsSpace(t[|t| - 1])
    ensures Strip(before + t + after) == t
  {
    assert before + t + after == before + (t + after);
    TrimStartSpaces(before, t + after);
    TrimEndSpaces(t, after);
  }

  lemma IntToStringInjective(a: int, b: int)
    requires IntToString(a) == IntToString(b)
    ensures a == b
  {
    ParseStrictAfterToString(a);
    ParseStrictAfterToString(b);
  }
}
