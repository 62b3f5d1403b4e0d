/**
 * The Python string operations the source relies on: `in` on strings,
 * `str.split` / `str.join` on one separator character, `int()` of a
 * decimal literal and `str()` of an integer.
 */
module Text {
  import opened Wrappers

  /** `sub in s` for Python strings. */
  predicate Contains(s: string, sub: string) {
    exists i | 0 <= i <= |s| :: OccursAt(s, sub, i)
  }

  /** `sub` occurs in `s` starting at index `i`. */
  predicate OccursAt(s: string, sub: string, i: int) {
    0 <= i <= |s| - |sub| && s[i..i + |sub|] == sub
  }

  /** `s.endswith(suffix)`. */
  predicate EndsWith(s: string, suffix: string) {
    |suffix| <= |s| && s[|s| - |suffix|..] == suffix
  }

  /** `s[i:j]` for 0 <= i <= j: Python clamps both ends to the length. */
  function Slice(s: string, i: nat, j: nat): (r: string)
    requires i <= j
    ensures |r| <= j - i
    ensures j <= |s| ==> r == s[i..j]
  {
    var hi := if j <= |s| then j else |s|;
    var lo := if i <= hi then i else hi;
    s[lo..hi]
  }

  // ---------------------------------------------------------------- split / join

  /** `s.split(sep)`: the pieces between occurrences of `sep` (never empty; "" gives [""]). */
  function Split(s: string, sep: char): (parts: seq<string>)
    ensures |parts| >= 1
    ensures forall p | p in parts :: sep !in p
    decreases |s|
  {
    if |s| == 0 then [""]
    else
      var rest := Split(s[1..], sep);
      if s[0] == sep then [""] + rest
      else [[s[0]] + rest[0]] + rest[1..]
  }

  /** `sep.join(parts)`. */
  function Join(parts: seq<string>, sep: char): string
    decreases |parts|
  {
    if |parts| == 0 then ""
    else if |parts| == 1 then parts[0]
    else parts[0] + [sep] + Join(parts[1..], sep)
  }

  /** Splitting a joined list gives the list back when no piece holds the separator. */
  lemma {:induction false} SplitJoin(parts: seq<string>, sep: char)
    requires |parts| >= 1
    requires forall p | p in parts :: sep !in p
    ensures Split(Join(parts, sep), sep) == parts
    decreases |parts|
  {
    if |parts| == 1 {
      SplitPiece(parts[0], sep);
    } else {
      SplitJoin(parts[1..], sep);
      SplitPrefix(parts[0], Join(parts[1..], sep), sep);
    }
  }

  /** A string without the separator splits into itself. */
  lemma {:induction false} SplitPiece(p: string, sep: char)
    requires sep !in p
    ensures Split(p, sep) == [p]
    decreases |p|
  {
    if |p| > 0 {
      SplitPiece(p[1..], sep);
      assert [p[0]] + p[1..] == p;
    }
  }

  /** Splitting `p + [sep] + rest` puts `p` in front of the pieces of `rest`. */
  lemma {:induction false} SplitPrefix(p: string, rest: string, sep: char)
    requires sep !in p
    ensures Split(p + [sep] + rest, sep) == [p] + Split(rest, sep)
    decreases |p|
  {
    var s := p + [sep] + rest;
    if |p| == 0 {
      assert s[1..] == rest;
    } else {
      assert s[1..] == p[1..] + [sep] + rest;
      SplitPrefix(p[1..], rest, sep);
      assert [p[0]] + p[1..] == p;
    }
  }

  /** Two pieces without the separator, joined by it, split back into the two. */
  lemma SplitPair(a: string, b: string, sep: char)
    requires sep !in a && sep !in b
    ensures Split(a + [sep] + b, sep) == [a, b]
  {
    SplitPrefix(a, b, sep);
    SplitPiece(b, sep);
  }

  /** Joining the pieces of a split string rebuilds the string. */
  lemma {:induction false} JoinSplit(s: string, sep: char)
    ensures Join(Split(s, sep), sep) == s
    decreases |s|
  {
    if |s| > 0 {
      JoinSplit(s[1..], sep);
      var rest := Split(s[1..], sep);
      if s[0] != sep {
        var parts := [[s[0]] + rest[0]] + rest[1..];
        if |rest| == 1 {
          assert Join(parts, sep) == [s[0]] + rest[0];
        } else {
          assert parts[1..] == rest[1..];
          assert Join(rest, sep) == rest[0] + [sep] + Join(rest[1..], sep);
        }
        assert [s[0]] + s[1..] == s;
      } else {
        assert ([""] + rest)[1..] == rest;
        assert [s[0]] + s[1..] == s;
      }
    }
  }

  // ---------------------------------------------------------------- decimal integers

  predicate IsDigit(c: char) {
    '0' <= c <= '9'
  }

  function DigitValue(c: char): nat
    requires IsDigit(c)
  {
    (c as int) - ('0' as int)
  }

  function DigitChar(v: nat): char
    requires v < 10
  {
    (('0' as int) + v) as char
  }

  /** The value of a string of decimal digits, most significant first. */
  function DigitsValue(s: string): nat
    requires forall i | 0 <= i < |s| :: IsDigit(s[i])
  {
    if |s| == 0 then 0
    else DigitsValue(s[..|s| - 1]) * 10 + DigitValue(s[|s| - 1])
  }

  /** The decimal digits of `n`, without leading zeros ("0" for zero). */
  function NatDigits(n: nat): (s: string)
    ensures |s| >= 1
    ensures forall i | 0 <= i < |s| :: IsDigit(s[i])
  {
    if n < 10 then [DigitChar(n)]
    else NatDigits(n / 10) + [DigitChar(n % 10)]
  }

  /** `str(n)` for an integer. */
  function IntToString(n: int): string {
    if n < 0 then "-" + NatDigits(-n) else NatDigits(n)
  }

  /** A character `str.strip()` removes: space, or one of \t \n \x0b \x0c \r. */
  predicate IsSpace(c: char) {
    c == ' ' || (9 <= c as int <= 13)
  }

  /** `s.lstrip()`. */
  function TrimStart(s: string): (r: string)
    ensures |r| <= |s| && r == s[|s| - |r|..]
    ensures |r| > 0 ==> !IsSpace(r[0])
    ensures forall i | 0 <= i < |s| - |r| :: IsSpace(s[i])
    decreases |s|
  {
    if |s| > 0 && IsSpace(s[0]) then
      var r := TrimStart(s[1..]);
      assert forall i | 1 <= i < |s| :: s[i] == s[1..][i - 1];
      r
    else s
  }

  /** `s.rstrip()`. */
  function TrimEnd(s: string): (r: string)
    ensures |r| <= |s| && r == s[..|r|]
    ensures |r| > 0 ==> !IsSpace(r[|r| - 1])
    ensures forall i | |r| <= i < |s| :: IsSpace(s[i])
    decreases |s|
  {
    if |s| > 0 && IsSpace(s[|s| - 1]) then
      var r := TrimEnd(s[..|s| - 1]);
      assert forall i | 0 <= i < |s| - 1 :: s[i] == s[..|s| - 1][i];
      r
    else s
  }

  /** `s.strip()`, which `int()` and `float()` apply to their argument first. */
  function Strip(s: string): string {
    TrimEnd(TrimStart(s))
  }

  /** A string that neither starts nor ends with white space is its own strip. */
  lemma StripPlain(s: string)
    requires |s| > 0 && !IsSpace(s[0]) && !IsSpace(s[|s| - 1])
    ensures Strip(s) == s
  {
  }

  predicate AllSpace(s: string) {
    forall i | 0 <= i < |s| :: IsSpace(s[i])
  }

  /** Leading and trailing white space around a plain string is all `strip` removes. */
  lemma StripPadded(pre: string, t: string, post: string)
    requires AllSpace(pre) && AllSpace(post)
    requires |t| > 0 && !IsSpace(t[0]) && !IsSpace(t[|t| - 1])
    ensures Strip(pre + t + post) == t
  {
    var rest := t + post;
    assert pre + t + post == pre + rest;
    TrimStartSpaces(pre, rest);
    TrimEndSpaces(t, post);
    assert Strip(pre + rest) == TrimEnd(rest);
  }

  lemma {:induction false} TrimStartSpaces(pre: string, t: string)
    requires AllSpace(pre) && |t| > 0 && !IsSpace(t[0])
    ensures TrimStart(pre + t) == t
    decreases |pre|
  {
    if |pre| > 0 {
      assert (pre + t)[1..] == pre[1..] + t;
      TrimStartSpaces(pre[1..], t);
    }
  }

  lemma {:induction false} TrimEndSpaces(t: string, post: string)
    requires AllSpace(post) && |t| > 0 && !IsSpace(t[|t| - 1])
    ensures TrimEnd(t + post) == t
    decreases |post|
  {
    if |post| > 0 {
      var s := t + post;
      assert s[..|s| - 1] == t + post[..|post| - 1];
      TrimEndSpaces(t, post[..|post| - 1]);
    } else {
      assert t + post == t;
    }
  }

  predicate AllDigits(s: string) {
    forall i | 0 <= i < |s| :: IsDigit(s[i])
  }

  /** A literal made of an optional sign and at least one decimal digit. */
  function ParseSigned(t: string): Option<int> {
    if |t| > 0 && (t[0] == '-' || t[0] == '+') then
      var body := t[1..];
      if |body| > 0 && AllDigits(body) then
        Some(if t[0] == '-' then -(DigitsValue(body) as int) else DigitsValue(body))
      else None
    else if |t| > 0 && AllDigits(t) then
      Some(DigitsValue(t))
    else None
  }

  /** `int(s)`: surrounding white space, an optional sign, then decimal digits. */
  function ParseInt(s: string): (r: Option<int>)
    ensures r.Some? ==> |Strip(s)| > 0
  {
    ParseSigned(Strip(s))
  }

  /** `10 ** k`. */
  function Pow10(k: nat): (p: nat)
    ensures p >= 1
  {
    if k == 0 then 1 else 10 * Pow10(k - 1)
  }

  /** The exact value `mantissa / 10 ** scale` of a decimal literal. */
  datatype Decimal = Decimal(mantissa: int, scale: nat)

  /** Digits with at most one '.', and at least one digit ("1.", ".5", "1.5"). */
  function ParseUnsignedDecimal(body: string): Option<Decimal> {
    var parts := Split(body, '.');
    if |parts| == 1 then
      if |body| > 0 && AllDigits(body) then Some(Decimal(DigitsValue(body), 0)) else None
    else if |parts| == 2 && |parts[0]| + |parts[1]| > 0 && AllDigits(parts[0]) && AllDigits(parts[1]) then
      DigitsConcat(parts[0], parts[1]);
      Some(Decimal(DigitsValue(parts[0] + parts[1]), |parts[1]|))
    else None
  }

  lemma DigitsConcat(a: string, b: string)
    requires AllDigits(a) && AllDigits(b)
    ensures AllDigits(a + b)
  {
    forall i | 0 <= i < |a + b| ensures IsDigit((a + b)[i]) {
      if i < |a| {
        assert (a + b)[i] == a[i];
      } else {
        assert (a + b)[i] == b[i - |a|];
      }
    }
  }

  /**
   * `float(s)` for a plain decimal literal: surrounding white space, an
   * optional sign, digits with at most one '.'. The value is kept exactly.
   */
  function ParseDecimal(s: string): (r: Option<Decimal>)
    ensures ParseInt(s).Some? ==> r == Some(Decimal(ParseInt(s).value, 0))
  {
    ParseSignedDecimal(Strip(s))
  }

  /** An optional sign, then digits with at most one '.'. */
  function ParseSignedDecimal(t: string): (r: Option<Decimal>)
    ensures ParseSigned(t).Some? ==> r == Some(Decimal(ParseSigned(t).value, 0))
  {
    if |t| > 0 && (t[0] == '-' || t[0] == '+') then
      var body := t[1..];
      if |body| > 0 && AllDigits(body) then
        Some(Decimal(if t[0] == '-' then -(DigitsValue(body) as int) else DigitsValue(body), 0))
      else
        assert ParseSigned(t).None?;
        var d := ParseUnsignedDecimal(body);
        if d.None? then None
        else Some(if t[0] == '-' then Decimal(-d.value.mantissa, d.value.scale) else d.value)
    else
      if |t| > 0 && AllDigits(t) then
        UnsignedInteger(t);
        ParseUnsignedDecimal(t)
      else
        assert ParseSigned(t).None?;
        ParseUnsignedDecimal(t)
  }

  /** A run of digits reads as the same integer under `float()` as under `int()`. */
  lemma UnsignedInteger(body: string)
    requires |body| > 0 && AllDigits(body)
    ensures ParseUnsignedDecimal(body) == Some(Decimal(DigitsValue(body), 0))
  {
    forall i | 0 <= i < |body| ensures body[i] != '.' {
      assert IsDigit(body[i]);
    }
    SplitPiece(body, '.');
  }

  lemma {:induction false} DigitsRoundTrip(n: nat)
    ensures DigitsValue(NatDigits(n)) == n
  {
    if n >= 10 {
      DigitsRoundTrip(n / 10);
      var s := NatDigits(n);
      assert s[..|s| - 1] == NatDigits(n / 10);
    }
  }

  /** `str(n)` has no white space at either end, so `strip` leaves it alone. */
  lemma IntStringPlain(n: int)
    ensures var s := IntToString(n); |s| > 0 && !IsSpace(s[0]) && !IsSpace(s[|s| - 1])
  {
    var d := NatDigits(if n < 0 then -n else n);
    assert IsDigit(d[0]) && IsDigit(d[|d| - 1]);
    if n < 0 {
      assert IntToString(n) == "-" + d;
      assert IntToString(n)[|IntToString(n)| - 1] == d[|d| - 1];
    }
  }

  /** `int(pre + str(n) + post) == n` for white space `pre` and `post`. */
  lemma PaddedIntRoundTrip(pre: string, n: int, post: string)
    requires AllSpace(pre) && AllSpace(post)
    ensures ParseInt(pre + IntToString(n) + post) == Some(n)
  {
    IntStringPlain(n);
    StripPadded(pre, IntToString(n), post);
    IntRoundTrip(n);
  }

  /**
   * `float(p + "." + f)` for digit runs `p` and `f` is the exact decimal
   * whose digits are `p + f` and whose scale is the length of `f`.
   */
  lemma DecimalLiteral(p: string, f: string)
    requires |p| > 0 && |f| > 0 && AllDigits(p) && AllDigits(f)
    ensures ParseDecimal(p + "." + f) == Some(Decimal(DigitsValue(p + f), |f|))
  {
    var s := p + "." + f;
    assert s[0] == p[0] && s[|s| - 1] == f[|f| - 1];
    assert IsDigit(p[0]) && IsDigit(f[|f| - 1]);
    StripPlain(s);
    assert s[|p|] == '.';
    assert !AllDigits(s);
    forall i | 0 <= i < |p| ensures p[i] != '.' {
      assert IsDigit(p[i]);
    }
    forall i | 0 <= i < |f| ensures f[i] != '.' {
      assert IsDigit(f[i]);
    }
    SplitJoin([p, f], '.');
    assert Join([p, f], '.') == s;
  }

  /** `int(str(n)) == n`: the decimal rendering of an integer parses back to it. */
  lemma IntRoundTrip(n: int)
    ensures ParseInt(IntToString(n)) == Some(n)
    ensures ':' !in IntToString(n)
  {
    IntStringPlain(n);
    StripPlain(IntToString(n));
    SignedRoundTrip(n);
    IntStringNoColon(n);
  }

  lemma SignedRoundTrip(n: int)
    ensures ParseSigned(IntToString(n)) == Some(n)
  {
    if n < 0 {
      var d := NatDigits(-n);
      DigitsRoundTrip(-n);
      assert IntToString(n) == "-" + d;
      assert ("-" + d)[1..] == d;
    } else {
      DigitsRoundTrip(n);
      assert IsDigit(NatDigits(n)[0]);
    }
  }

  lemma IntStringNoColon(n: int)
    ensures ':' !in IntToString(n)
  {
    var d := NatDigits(if n < 0 then -n else n);
    assert ':' !in d by {
      forall i | 0 <= i < |d| ensures d[i] != ':' {
        assert IsDigit(d[i]);
      }
    }
    if n < 0 {
      assert IntToString(n) == "-" + d;
    }
  }
}
