/** The JavaScript built-in `parseInt(string)` with no radix argument, as the
    detail screen applies it to its navigation parameter: leading white space
    is skipped, one sign is read, a `0x`/`0X` prefix switches to base 16, and
    the longest run of digits that follows is converted; an empty run gives
    `NaN`, modelled as `None`. */
module JsParseInt {
  import opened Wrappers

  /** The StrWhiteSpaceChar production: white space and line terminators. */
  predicate IsStrWhiteSpace(c: char) {
    c == '\t' || c == '\U{B}' || c == '\U{C}' || c == ' ' || c == '\U{A0}' || c == '\U{FEFF}'
    || c == '\n' || c == '\r' || c == '\U{2028}' || c == '\U{2029}'
    || c == '\U{1680}' || ('\U{2000}' <= c <= '\U{200A}') || c == '\U{202F}' || c == '\U{205F}' || c == '\U{3000}'
  }

  /** The value of `c` as a digit of any radix up to 36, or 36 when it is none. */
  function DigitValue(c: char): (d: nat)
    ensures d <= 36
  {
    if '0' <= c <= '9' then c as int - '0' as int
    else if 'a' <= c <= 'z' then c as int - 'a' as int + 10
    else if 'A' <= c <= 'Z' then c as int - 'A' as int + 10
    else 36
  }

  predicate IsDigitIn(c: char, radix: nat) {
    DigitValue(c) < radix
  }

  /** Number of white-space characters at the start of `s`. */
  function LeadingSpaceCount(s: string): (n: nat)
    ensures n <= |s|
    ensures forall i :: 0 <= i < n ==> IsStrWhiteSpace(s[i])
    ensures n < |s| ==> !IsStrWhiteSpace(s[n])
  {
    if s == [] || !IsStrWhiteSpace(s[0]) then 0
    else
      var n := LeadingSpaceCount(s[1..]);
      assert forall i :: 1 <= i < n + 1 ==> s[i] == s[1..][i - 1];
      1 + n
  }

  /** `s` with its leading white space removed. */
  function TrimStart(s: string): string {
    s[LeadingSpaceCount(s)..]
  }

  lemma TrimStartKeeps(s: string)
    requires s != [] && !IsStrWhiteSpace(s[0])
    ensures TrimStart(s) == s
  {
  }

  /** Length of the longest prefix of `s` made of radix-`radix` digits. */
  function DigitRunLength(s: string, radix: nat): (n: nat)
    ensures n <= |s|
    ensures forall i :: 0 <= i < n ==> IsDigitIn(s[i], radix)
    ensures n < |s| ==> !IsDigitIn(s[n], radix)
  {
    if s == [] || !IsDigitIn(s[0], radix) then 0
    else
      var n := DigitRunLength(s[1..], radix);
      assert forall i :: 1 <= i < n + 1 ==> s[i] == s[1..][i - 1];
      1 + n
  }

  /** The number a run of digits denotes, most significant digit first. */
  function DigitsValue(s: string, radix: nat): nat {
    if s == [] then 0 else DigitsValue(s[..|s| - 1], radix) * radix + DigitValue(s[|s| - 1])
  }

  predicate HasHexPrefix(s: string) {
    |s| >= 2 && s[0] == '0' && (s[1] == 'x' || s[1] == 'X')
  }

  /** The digits after the sign: base 16 behind a `0x`/`0X` prefix, base 10
      otherwise; no digit at all gives `NaN`. */
  function ParseUnsigned(u: string): (r: Option<nat>)
    ensures r.Some? ==> StartsWithDecimalDigit(u)
  {
    var radix := if HasHexPrefix(u) then 16 else 10;
    var v := if HasHexPrefix(u) then u[2..] else u;
    var n := DigitRunLength(v, radix);
    if n == 0 then None else Some(DigitsValue(v[..n], radix))
  }

  predicate StartsWithDecimalDigit(u: string) {
    u != [] && IsDigitIn(u[0], 10)
  }

  /** `t` without its one optional leading sign. */
  function DropSign(t: string): string {
    if t != [] && (t[0] == '-' || t[0] == '+') then t[1..] else t
  }

  /** One optional sign, then the unsigned part. */
  function ParseSigned(t: string): (r: Option<int>)
    ensures r.Some? ==> StartsWithDecimalDigit(DropSign(t))
    ensures r.Some? && r.value < 0 ==> t[0] == '-'
  {
    match ParseUnsigned(DropSign(t))
    case None => None
    case Some(m) => Some(if t != [] && t[0] == '-' then -(m as int) else m as int)
  }

  /** `parseInt(s)`; `None` stands for `NaN`. A number is read only when the
      first character after the white space and the sign is a decimal digit,
      and it is negative only behind a `-`. */
  function ParseInt(s: string): (r: Option<int>)
    ensures r.Some? ==> StartsWithDecimalDigit(DropSign(TrimStart(s)))
    ensures r.Some? && r.value < 0 ==> TrimStart(s)[0] == '-'
  {
    ParseSigned(TrimStart(s))
  }

  /** The decimal text of a natural number, as `Number.prototype.toString`
      writes it for integers. */
  function NaturalString(n: nat): (s: string)
    ensures s != []
    ensures forall i :: 0 <= i < |s| ==> IsDigitIn(s[i], 10)
  {
    if n < 10 then [('0' as int + n) as char]
    else NaturalString(n / 10) + [('0' as int + n % 10) as char]
  }

  /** `n.toString()` for an integer `n`, the form in which list screens pass a
      `topicID` to the detail screen. */
  function DecimalString(n: int): (s: string)
    ensures s != [] && (s[0] == '-' <==> n < 0)
    ensures forall i :: 0 <= i < |s| ==> IsDigitIn(s[i], 10) || (i == 0 && s[i] == '-')
    ensures var digits := if n < 0 then s[1..] else s; digits != [] && (digits[0] == '0' ==> s == "0")
  {
    if n < 0 then
      NaturalStringLead(-n);
      "-" + NaturalString(-n)
    else
      NaturalStringLead(n);
      NaturalString(n)
  }

  lemma {:induction false} NaturalStringValue(n: nat)
    ensures DigitsValue(NaturalString(n), 10) == n
  {
    if n >= 10 {
      var s := NaturalString(n);
      assert s[..|s| - 1] == NaturalString(n / 10);
      NaturalStringValue(n / 10);
    }
  }

  lemma NaturalStringLead(n: nat)
    ensures |NaturalString(n)| >= 2 ==> NaturalString(n)[0] != '0'
    ensures NaturalString(n)[0] == '0' <==> n == 0
  {
    if n >= 10 {
      NaturalStringLead(n / 10);
    }
  }

  lemma DigitRunOfDigitsThenOther(d: string, rest: string, radix: nat)
    requires forall i :: 0 <= i < |d| ==> IsDigitIn(d[i], radix)
    requires rest == [] || !IsDigitIn(rest[0], radix)
    ensures DigitRunLength(d + rest, radix) == |d|
  {
    if d == [] {
      assert d + rest == rest;
    } else {
      var t := d + rest;
      assert t[0] == d[0];
      assert t[1..] == d[1..] + rest;
      assert forall i :: 0 <= i < |d| - 1 ==> d[1..][i] == d[i + 1];
      DigitRunOfDigitsThenOther(d[1..], rest, radix);
    }
  }

  lemma UnsignedDigitsThenOther(m: nat, rest: string)
    requires rest == [] || !IsDigitIn(rest[0], 10)
    requires m == 0 && rest != [] ==> rest[0] != 'x' && rest[0] != 'X'
    ensures ParseUnsigned(NaturalString(m) + rest) == Some(m)
  {
    var d := NaturalString(m);
    var u := d + rest;
    NaturalStringLead(m);
    NaturalStringValue(m);
    assert !HasHexPrefix(u);
    DigitRunOfDigitsThenOther(d, rest, 10);
    assert u[..|d|] == d;
  }

  /** `parseInt` reads back what `toString` wrote, and ignores whatever
      non-digit text follows the number (`parseInt("12abc")` is 12). A
      lone `0` followed by `x` would instead select base 16. */
  lemma {:induction false} ParseDecimalPrefix(n: int, rest: string)
    requires rest == [] || !IsDigitIn(rest[0], 10)
    requires n == 0 && rest != [] ==> rest[0] != 'x' && rest[0] != 'X'
    ensures ParseInt(DecimalString(n) + rest) == Some(n)
  {
    if n < 0 {
      ParseNegativeDecimal(n, rest);
      NegativeText(n, rest);
    } else {
      ParseNaturalDecimal(n, rest);
    }
  }

  lemma NegativeText(n: int, rest: string)
    requires n < 0
    ensures DecimalString(n) + rest == ['-'] + (NaturalString(-n) + rest)
  {
  }

  lemma ParseNaturalDecimal(m: nat, rest: string)
    requires rest == [] || !IsDigitIn(rest[0], 10)
    requires m == 0 && rest != [] ==> rest[0] != 'x' && rest[0] != 'X'
    ensures ParseInt(NaturalString(m) + rest) == Some(m)
  {
    UnsignedDigitsThenOther(m, rest);
    ParseLeadingDigit(NaturalString(m) + rest, m);
  }

  lemma ParseNegativeDecimal(n: int, rest: string)
    requires n < 0
    requires rest == [] || !IsDigitIn(rest[0], 10)
    ensures ParseInt(['-'] + (NaturalString(-n) + rest)) == Some(n)
  {
    UnsignedDigitsThenOther(-n, rest);
    ParseNegative(NaturalString(-n) + rest, -n);
  }

  lemma ParseNegative(u: string, m: nat)
    requires ParseUnsigned(u) == Some(m)
    ensures ParseInt(['-'] + u) == Some(-(m as int))
  {
    TrimStartKeeps(['-'] + u);
    SignedMinus(u);
  }

  lemma ParseLeadingDigit(t: string, m: nat)
    requires t != [] && IsDigitIn(t[0], 10)
    requires ParseUnsigned(t) == Some(m)
    ensures ParseInt(t) == Some(m)
  {
    TrimStartKeeps(t);
    SignedDigit(t);
  }

  lemma SignedMinus(u: string)
    ensures ParseSigned(['-'] + u) == (match ParseUnsigned(u) case None => None case Some(m) => Some(-(m as int)))
  {
    assert (['-'] + u)[1..] == u;
  }

  lemma SignedDigit(t: string)
    requires t != [] && IsDigitIn(t[0], 10)
    ensures ParseSigned(t) == (match ParseUnsigned(t) case None => None case Some(m) => Some(m as int))
  {
  }

  /** Round trip: `parseInt(n.toString()) == n`. */
  lemma ParseDecimalString(n: int)
    ensures ParseInt(DecimalString(n)) == Some(n)
  {
    ParseDecimalPrefix(n, []);
    assert DecimalString(n) + [] == DecimalString(n);
  }

  /** A parameter whose first character after white space and sign is not a
      decimal digit parses to `NaN`. */
  lemma NoDigitIsNaN(s: string)
    requires !StartsWithDecimalDigit(DropSign(TrimStart(s)))
    ensures ParseInt(s) == None
  {
  }

  /** A missing navigation parameter reaches `parseInt` as `"undefined"`. */
  lemma UndefinedIsNaN()
    ensures ParseInt("undefined") == None
  {
    var s := "undefined";
    assert s[0] == 'u' && !IsStrWhiteSpace(s[0]) && !IsDigitIn(s[0], 10);
    assert LeadingSpaceCount(s) == 0;
    assert TrimStart(s) == s;
    assert DropSign(s) == s;
    NoDigitIsNaN(s);
  }
}
