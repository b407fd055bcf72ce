/** Decimal integers: `String(n)` for integers and `parseInt(s, 10)`, as the
    study code applies them to publication years, and the array index keys
    that `Object.entries` produces. */
module Numbers {
  import opened Wrappers
  import opened Text

  predicate IsDigit(c: char) {
    '0' <= c <= '9'
  }

  predicate AllDigits(s: string) {
    forall i :: 0 <= i < |s| ==> IsDigit(s[i])
  }

  function DigitChar(d: nat): (c: char)
    requires d < 10
    ensures IsDigit(c)
  {
    ('0' as int + d) as char
  }

  function DigitValue(c: char): (d: nat)
    requires IsDigit(c)
    ensures d < 10 && DigitChar(d) == c
  {
    c as int - '0' as int
  }

  /** `String(n)` for a natural number: its decimal digits, without leading
      zeros. */
  function NatToString(n: nat): (r: string)
    ensures r != [] && AllDigits(r)
    ensures r[0] == '0' ==> r == "0"
  {
    if n < 10 then [DigitChar(n)] else NatToString(n / 10) + [DigitChar(n % 10)]
  }

  /** `String(k)` for an integer. */
  function IntToString(k: int): (r: string)
    ensures r != [] && (r[0] == '-' <==> k < 0)
  {
    if k < 0 then "-" + NatToString(-k) else NatToString(k)
  }

  /** The number a string of decimal digits denotes. */
  function DigitsValue(s: string): nat
    requires AllDigits(s)
  {
    if s == [] then 0 else DigitsValue(s[..|s| - 1]) * 10 + DigitValue(s[|s| - 1])
  }

  /** The length of the longest prefix of `s` made of digits. */
  function DigitRun(s: string): (n: nat)
    ensures n <= |s| && AllDigits(s[..n])
    ensures n == |s| || !IsDigit(s[n])
  {
    if s != [] && IsDigit(s[0]) then
      var n := 1 + DigitRun(s[1..]);
      assert forall i :: 1 <= i < n ==> s[..n][i] == s[1..][..n - 1][i - 1];
      n
    else 0
  }

  /** `parseInt(s, 10)`: leading whitespace is skipped, one `+` or `-` is
      read, then the longest run of digits; no digits at all is `NaN`,
      written `None`. */
  function ParseInt(s: string): Option<int> {
    ParseDigits(TrimStart(s))
  }

  /** `parseInt` after the leading whitespace. */
  function ParseDigits(t: string): Option<int> {
    var signed := t != [] && (t[0] == '-' || t[0] == '+');
    var u := if signed then t[1..] else t;
    var n := DigitRun(u);
    var v: int := DigitsValue(u[..n]);
    if n == 0 then None
    else if signed && t[0] == '-' then Some(-v)
    else Some(v)
  }

  /** `Math.trunc`: rounding toward zero. */
  function Trunc(x: real): (k: int)
    ensures 0.0 <= x ==> k as real <= x < k as real + 1.0
    ensures x < 0.0 ==> k as real - 1.0 < x <= k as real
  {
    if x >= 0.0 then x.Floor else -((-x).Floor)
  }

  /** An integer is its own truncation. */
  lemma TruncOfInt(k: int)
    ensures Trunc(k as real) == k
  {
  }

  lemma {:induction false} DigitsValueOfNatToString(n: nat)
    ensures DigitsValue(NatToString(n)) == n
  {
    var r := NatToString(n);
    if n >= 10 {
      DigitsValueOfNatToString(n / 10);
      assert r[..|r| - 1] == NatToString(n / 10);
    }
  }

  lemma {:induction false} DigitRunOfDigits(s: string, rest: string)
    requires AllDigits(s) && (rest == [] || !IsDigit(rest[0]))
    ensures DigitRun(s + rest) == |s|
    decreases |s|
  {
    if s != [] {
      assert (s + rest)[1..] == s[1..] + rest;
      DigitRunOfDigits(s[1..], rest);
    } else {
      assert s + rest == rest;
    }
  }

  /** `parseInt` after the whitespace reads an unsigned run of digits up to
      the first character that is not a digit. */
  lemma ParseDigitsUnsigned(t: string, digits: string, rest: string)
    requires t == digits + rest && digits != [] && AllDigits(digits)
    requires rest == [] || !IsDigit(rest[0])
    ensures ParseDigits(t) == Some(DigitsValue(digits))
  {
    assert t[0] == digits[0];
    DigitRunOfDigits(digits, rest);
    assert t[..|digits|] == digits;
  }

  /** `parseInt` after the whitespace reads `-` and a run of digits as the
      negated number. */
  lemma ParseDigitsNegative(t: string, digits: string)
    requires t == "-" + digits && digits != [] && AllDigits(digits)
    ensures ParseDigits(t) == Some(-(DigitsValue(digits) as int))
  {
    assert t[1..] == digits + [];
    DigitRunOfDigits(digits, []);
    assert digits[..|digits|] == digits;
  }

  /** Reading the decimal form of `n` back, followed by anything that does
      not start with a digit (`"2020"`, `"2020.5"`, `"2020 AD"`), gives `n`. */
  lemma ParseIntNatToString(n: nat, rest: string)
    requires rest == [] || !IsDigit(rest[0])
    ensures ParseInt(NatToString(n) + rest) == Some(n)
  {
    var r := NatToString(n);
    var s := r + rest;
    assert s[0] == r[0] && IsDigit(r[0]);
    assert TrimStart(s) == s;
    ParseDigitsUnsigned(s, r, rest);
    DigitsValueOfNatToString(n);
  }

  /** `parseInt(String(k), 10) == k` for every integer. */
  lemma ParseIntIntToString(k: int)
    ensures ParseInt(IntToString(k)) == Some(k)
  {
    if k < 0 {
      ParseIntOfNegative(k);
    } else {
      ParseIntOfNat(k);
    }
  }

  lemma ParseIntOfNegative(k: int)
    requires k < 0
    ensures ParseInt(IntToString(k)) == Some(k)
  {
    var n: nat := -k;
    assert IntToString(k) == "-" + NatToString(n);
    ParseIntNegative(n);
  }

  lemma ParseIntOfNat(n: nat)
    ensures ParseInt(NatToString(n)) == Some(n)
  {
    var r := NatToString(n);
    assert r + [] == r;
    ParseIntNatToString(n, []);
  }

  lemma ParseIntNegative(n: nat)
    ensures ParseInt("-" + NatToString(n)) == Some(-(n as int))
  {
    var s := "-" + NatToString(n);
    assert TrimStart(s) == s;
    ParseDigitsNegative(s, NatToString(n));
    DigitsValueOfNatToString(n);
  }

  /** Leading whitespace does not change what `parseInt` reads. */
  lemma {:induction false} ParseIntSkipsSpace(w: string, s: string)
    requires AllSpace(w)
    ensures ParseInt(w + s) == ParseInt(s)
  {
    TrimStartSkips(w, s);
  }

  lemma {:induction false} TrimStartSkips(w: string, s: string)
    requires AllSpace(w)
    ensures TrimStart(w + s) == TrimStart(s)
  {
    if w != [] {
      assert (w + s)[1..] == w[1..] + s;
      TrimStartSkips(w[1..], s);
    } else {
      assert w + s == s;
    }
  }

  /** A string with no digit after its optional sign is `NaN`. */
  lemma ParseIntNoDigits(s: string)
    requires s == [] || (!IsDigit(s[0]) && !IsSpace(s[0]) && s[0] != '-' && s[0] != '+')
    ensures ParseInt(s) == None
  {
  }
}
