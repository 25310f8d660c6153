/** The two JavaScript number/string conversions the viewer relies on:
    `Number.prototype.toString()` on an integer (used in chunk ids, titles,
    page headings and the page-number text box) and the global
    `parseInt(s, 10)` (used when the page-number text box is submitted). */
module JsNumber {
  import opened Wrappers

  predicate IsDigit(c: char) {
    '0' <= c <= '9'
  }

  function DigitValue(c: char): (d: nat)
    requires IsDigit(c)
    ensures d < 10
  {
    (c as int) - ('0' as int)
  }

  function DigitChar(d: nat): (c: char)
    requires d < 10
    ensures IsDigit(c) && DigitValue(c) == d
  {
    ('0' as int + d) as char
  }

  predicate AllDigits(s: string) {
    forall i :: 0 <= i < |s| ==> IsDigit(s[i])
  }

  /** Decimal rendering of a non-negative integer, without leading zeros. */
  function NatToString(n: nat): (s: string)
    ensures |s| >= 1 && AllDigits(s)
    ensures s[0] == '0' ==> n == 0
    decreases n
  {
    if n < 10 then [DigitChar(n)] else NatToString(n / 10) + [DigitChar(n % 10)]
  }

  /** `n.toString()` for an integer-valued JavaScript number. */
  function IntToString(n: int): (s: string)
    ensures |s| >= 1
    ensures s[0] == '-' <==> n < 0
  {
    if n < 0 then "-" + NatToString(-n) else NatToString(n)
  }

  /** The value of a string of decimal digits, most significant first. */
  function DigitsValue(s: string): nat
    requires AllDigits(s)
  {
    if s == [] then 0 else DigitsValue(s[..|s| - 1]) * 10 + DigitValue(s[|s| - 1])
  }

  /** The characters `parseInt` skips before the number: the ECMAScript
      StrWhiteSpaceChar set, i.e. WhiteSpace (TAB, VT, FF, ZWNBSP and every
      Zs space separator) and LineTerminator (LF, CR, LS, PS). */
  predicate IsStrWhiteSpace(c: char) {
    c == '\t' || c == '\n' || c == '\U{B}' || c == '\U{C}' || c == '\r' ||
    c == ' ' || c == '\U{A0}' || c == '\U{1680}' || ('\U{2000}' <= c <= '\U{200A}') ||
    c == '\U{2028}' || c == '\U{2029}' || c == '\U{202F}' || c == '\U{205F}' ||
    c == '\U{3000}' || c == '\U{FEFF}'
  }

  /** The input with its leading white space removed. */
  function TrimStart(s: string): (t: string)
    ensures t == [] || !IsStrWhiteSpace(t[0])
    ensures |t| <= |s| && t == s[|s| - |t|..]
  {
    if s != [] && IsStrWhiteSpace(s[0]) then TrimStart(s[1..]) else s
  }

  /** The length of the longest prefix of `s` made of decimal digits. */
  function LeadingDigits(s: string): (n: nat)
    ensures n <= |s| && AllDigits(s[..n])
    ensures n < |s| ==> !IsDigit(s[n])
  {
    if s != [] && IsDigit(s[0]) then
      var n := 1 + LeadingDigits(s[1..]);
      assert s[..n] == [s[0]] + s[1..][..n - 1];
      n
    else 0
  }

  /** The input after white space and an optional sign, and whether the sign
      was a minus. */
  function Unsigned(s: string): (string, bool) {
    TakeSign(TrimStart(s))
  }

  /** `t` without its leading sign, and whether that sign was a minus. */
  function TakeSign(t: string): (string, bool) {
    if t != [] && (t[0] == '-' || t[0] == '+') then (t[1..], t[0] == '-') else (t, false)
  }

  /** `parseInt(s, 10)`: skip leading white space, take an optional sign and
      the longest run of decimal digits after it; `None` stands for `NaN`,
      the result when that run is empty. The rest of the string is ignored. */
  function ParseInt(s: string): (r: Option<int>)
    ensures r.None? <==> LeadingDigits(Unsigned(s).0) == 0
  {
    var (u, negative) := Unsigned(s);
    ParseDigits(u, negative)
  }

  /** The number the leading digits of `u` spell, negated when `negative`. */
  function ParseDigits(u: string, negative: bool): (r: Option<int>)
    ensures r.None? <==> LeadingDigits(u) == 0
  {
    var n := LeadingDigits(u);
    if n == 0 then None
    else
      var v: int := DigitsValue(u[..n]);
      Some(if negative then -v else v)
  }

  lemma {:induction false} DigitsValueOfNatToString(n: nat)
    ensures DigitsValue(NatToString(n)) == n
    decreases n
  {
    var s := NatToString(n);
    if n < 10 {
      assert s[..|s| - 1] == [];
    } else {
      assert s[..|s| - 1] == NatToString(n / 10);
      DigitsValueOfNatToString(n / 10);
    }
  }

  lemma {:induction false} LeadingDigitsOfDigits(d: string, rest: string)
    requires AllDigits(d)
    requires rest == [] || !IsDigit(rest[0])
    ensures LeadingDigits(d + rest) == |d|
    decreases |d|
  {
    if d != [] {
      assert (d + rest)[1..] == d[1..] + rest;
      LeadingDigitsOfDigits(d[1..], rest);
    } else {
      assert d + rest == rest;
    }
  }

  /** Text that starts with a digit or a sign is not trimmed. */
  lemma TrimStartOfSignOrDigit(s: string)
    requires s != [] && (IsDigit(s[0]) || s[0] == '-' || s[0] == '+')
    ensures TrimStart(s) == s
  {
    assert !IsStrWhiteSpace(s[0]);
  }

  lemma ParseIntOfUnsigned(s: string, d: string, rest: string, negative: bool)
    requires Unsigned(s) == (d + rest, negative)
    requires d != [] && AllDigits(d) && (rest == [] || !IsDigit(rest[0]))
    ensures ParseInt(s) == Some(if negative then -(DigitsValue(d) as int) else DigitsValue(d) as int)
  {
    LeadingDigitsOfDigits(d, rest);
    assert (d + rest)[..|d|] == d;
  }

  lemma UnsignedOfDigits(t: string)
    requires t != [] && IsDigit(t[0])
    ensures Unsigned(t) == (t, false)
  {
    TrimStartOfSignOrDigit(t);
  }

  lemma UnsignedOfMinus(t: string)
    ensures Unsigned("-" + t) == (t, true)
  {
    var s := "-" + t;
    assert s[0] == '-' && s[1..] == t;
    TrimStartOfSignOrDigit(s);
  }

  /** Round trip: `parseInt` reads back what `toString` wrote, whatever
      non-digit text follows it. */
  lemma ParseIntOfIntToString(n: int, rest: string)
    requires rest == [] || !IsDigit(rest[0])
    ensures ParseInt(IntToString(n) + rest) == Some(n)
  {
    var m: nat := if n < 0 then -n else n;
    var d := NatToString(m);
    DigitsValueOfNatToString(m);
    if n < 0 {
      assert IntToString(n) + rest == "-" + (d + rest);
      UnsignedOfMinus(d + rest);
      ParseIntOfUnsigned(IntToString(n) + rest, d, rest, true);
    } else {
      assert IntToString(n) + rest == d + rest;
      assert (d + rest)[0] == d[0];
      UnsignedOfDigits(d + rest);
      ParseIntOfUnsigned(IntToString(n) + rest, d, rest, false);
    }
  }

  lemma {:induction false} TrimStartSkipsWhiteSpace(w: string, s: string)
    requires forall i :: 0 <= i < |w| ==> IsStrWhiteSpace(w[i])
    ensures TrimStart(w + s) == TrimStart(s)
    decreases |w|
  {
    if w != [] {
      assert (w + s)[0] == w[0];
      assert (w + s)[1..] == w[1..] + s;
      TrimStartSkipsWhiteSpace(w[1..], s);
    } else {
      assert w + s == s;
    }
  }

  /** Leading white space does not change what `parseInt` reads. */
  lemma ParseIntSkipsWhiteSpace(w: string, s: string)
    requires forall i :: 0 <= i < |w| ==> IsStrWhiteSpace(w[i])
    ensures ParseInt(w + s) == ParseInt(s)
  {
    TrimStartSkipsWhiteSpace(w, s);
    ParseIntOfSameUnsigned(w + s, s);
  }

  /** `parseInt` reads only what is left after white space and sign. */
  lemma ParseIntOfSameUnsigned(x: string, y: string)
    requires TrimStart(x) == TrimStart(y)
    ensures ParseInt(x) == ParseInt(y)
  {
    assert Unsigned(x) == Unsigned(y);
  }

  /** `toString` is one-to-one on integers. */
  lemma IntToStringInjective(m: int, n: int)
    requires IntToString(m) == IntToString(n)
    ensures m == n
  {
    ParseIntOfIntToString(m, "");
    ParseIntOfIntToString(n, "");
    assert IntToString(m) + "" == IntToString(n) + "";
  }

  lemma NatToStringInjective(m: nat, n: nat)
    requires NatToString(m) == NatToString(n)
    ensures m == n
  {
    DigitsValueOfNatToString(m);
    DigitsValueOfNatToString(n);
  }
}
