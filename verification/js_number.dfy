/** The JavaScript numeric conversions the application relies on: the
    truncating remainder operator and `Number(text)`. */
module JsNumber {
  import opened Wrappers
  import opened Strings

  /** JavaScript's `a % b` for a positive divisor: the remainder takes the
      sign of the dividend (truncating division), unlike Dafny's `%`. */
  function JsRem(a: int, b: int): (r: int)
    requires 0 < b
    ensures -b < r < b
    ensures 0 <= a ==> 0 <= r
    ensures a < 0 ==> r <= 0
  {
    if 0 <= a then a % b else -((-a) % b)
  }

  /** On a non-negative dividend the two remainders agree. */
  lemma JsRemNonNegative(a: int, b: int)
    requires 0 <= a && 0 < b
    ensures JsRem(a, b) == a % b
  {
  }

  /** A dividend already below the divisor is its own remainder. */
  lemma JsRemBelow(a: int, b: int)
    requires 0 <= a < b
    ensures JsRem(a, b) == a
  {
    assert a == (a / b) * b + a % b;
    assert a / b == 0;
  }

  /** The remainder is an odd function of the dividend. */
  lemma JsRemOdd(a: int, b: int)
    requires 0 < b
    ensures JsRem(-a, b) == -JsRem(a, b)
  {
  }

  /** `-1 % n` is `-1` in JavaScript, so an index `(i + 1) % n` with
      `i == -2` is out of range. */
  lemma JsRemMinusOne(b: int)
    requires 1 < b
    ensures JsRem(-1, b) == -1
  {
  }

  /** Digits with an optional leading `-` or `+`. */
  function SignedDigits(t: string): (r: Option<int>)
    ensures r.Some? ==> 0 < |t|
  {
    if 0 < |t| && (t[0] == '-' || t[0] == '+') then
      var u := t[1..];
      if 0 < |u| && AllDigits(u) then
        var v: int := RadixValue(u, false);
        Some(if t[0] == '-' then -v else v)
      else None
    else if 0 < |t| && AllDigits(t) then var v: int := RadixValue(t, false); Some(v)
    else None
  }

  /** `Number(text)` for an integer numeral: surrounding blanks are ignored,
      blank text is 0, and anything that is not an optionally signed run of
      decimal digits is NaN (`None`). */
  function ToNumber(s: string): Option<int> {
    var t := Trim(s);
    if t == "" then Some(0) else SignedDigits(t)
  }

  lemma TrimDigits(d: string)
    requires 0 < |d| && AllDigits(d)
    ensures Trim(d) == d
  {
    AllRadixDigitsIff(d, false);
    TrimStartNoBlank(d);
    assert !IsJsSpace(d[|d| - 1]);
  }

  /** `Number` reads a run of decimal digits as its decimal value. */
  lemma ToNumberOfDigits(d: string)
    requires 0 < |d| && AllDigits(d)
    ensures ToNumber(d).Some? && ToNumber(d).value == RadixValue(d, false)
  {
    TrimDigits(d);
    AllRadixDigitsIff(d, false);
    assert IsDigit(d[0]);
  }

  /** `Number` of blank text is 0, as for `Number("")`. */
  lemma ToNumberBlank(s: string)
    requires forall i :: 0 <= i < |s| ==> IsJsSpace(s[i])
    ensures ToNumber(s) == Some(0)
  {
    TrimEmptyIff(s);
  }
}
