/** `decodeUnicode(str)` of src/renderer/js/asmaUI.js, which unescapes the
    texts of the names-of-Allah data: `\uXXXX` escapes become the code unit
    they name, then `\'`, `\"` and `\\` lose their backslash. JavaScript
    strings are sequences of UTF-16 code units, and so is the model's text
    (a lone surrogate such as `\uD83D` is a code unit of its own). */
module Asma {
  import opened Wrappers

  /** A UTF-16 code unit. */
  type Unit = x: int | 0 <= x < 0x1_0000

  const Backslash: Unit := 92
  const Quote: Unit := 39
  const DoubleQuote: Unit := 34

  /** The `u` of an escape; the regular expression's `i` flag lets an
      upper-case `U` through as well. */
  predicate IsU(c: Unit) { c == 117 || c == 85 }

  /** `[\dA-F]` under the `i` flag. */
  predicate IsHex(c: Unit) { 48 <= c <= 57 || 65 <= c <= 70 || 97 <= c <= 102 }

  function HexValue(c: Unit): (d: nat)
    requires IsHex(c)
    ensures d < 16
  {
    if c <= 57 then c - 48 else if c <= 70 then c - 55 else c - 87
  }

  /** The escape `\uXXXX` at the head of `s`. */
  predicate EscapeAt(s: seq<Unit>) {
    6 <= |s| && s[0] == Backslash && IsU(s[1]) && IsHex(s[2]) && IsHex(s[3]) && IsHex(s[4]) && IsHex(s[5])
  }

  /** `parseInt(grp, 16)` of the four hex digits: a code unit. */
  function Hex4(s: seq<Unit>): (u: Unit)
    requires 4 <= |s| && IsHex(s[0]) && IsHex(s[1]) && IsHex(s[2]) && IsHex(s[3])
  {
    ((HexValue(s[0]) * 16 + HexValue(s[1])) * 16 + HexValue(s[2])) * 16 + HexValue(s[3])
  }

  /** The first `replace`, global: escapes are matched left to right and
      do not overlap; each becomes `String.fromCharCode` of its value. */
  function DecodeEscapes(s: seq<Unit>): (r: seq<Unit>)
    ensures |r| <= |s|
    decreases |s|
  {
    if |s| == 0 then []
    else if EscapeAt(s) then [Hex4(s[2..6])] + DecodeEscapes(s[6..])
    else [s[0]] + DecodeEscapes(s[1..])
  }

  /** A global `replace` of the two-unit pattern `a b` by the unit `rep`,
      matches left to right and not overlapping. */
  function ReplacePair(s: seq<Unit>, a: Unit, b: Unit, rep: Unit): (r: seq<Unit>)
    ensures |r| <= |s|
    decreases |s|
  {
    if |s| < 2 then s
    else if s[0] == a && s[1] == b then [rep] + ReplacePair(s[2..], a, b, rep)
    else [s[0]] + ReplacePair(s[1..], a, b, rep)
  }

  /** `decodeUnicode(str)`: the empty text for a falsy argument (`None` or
      the empty text), otherwise the four replacements in order. */
  function DecodeUnicode(str: Option<seq<Unit>>): (r: seq<Unit>)
    ensures str.None? || str.value == [] ==> r == []
  {
    if str.None? || str.value == [] then []
    else
      var s1 := DecodeEscapes(str.value);
      var s2 := ReplacePair(s1, Backslash, Quote, Quote);
      var s3 := ReplacePair(s2, Backslash, DoubleQuote, DoubleQuote);
      ReplacePair(s3, Backslash, Backslash, Backslash)
  }

  /** Text without a backslash has no escape in it. */
  lemma {:induction false} EscapesNeedBackslash(s: seq<Unit>)
    requires Backslash !in s
    ensures DecodeEscapes(s) == s
    decreases |s|
  {
    if |s| > 0 {
      assert Backslash !in s[1..];
      EscapesNeedBackslash(s[1..]);
      assert s == [s[0]] + s[1..];
    }
  }

  /** A pattern starting with a unit that is absent never matches. */
  lemma {:induction false} PairNeedsFirst(s: seq<Unit>, a: Unit, b: Unit, rep: Unit)
    requires a !in s
    ensures ReplacePair(s, a, b, rep) == s
    decreases |s|
  {
    if |s| >= 2 {
      assert a !in s[1..];
      PairNeedsFirst(s[1..], a, b, rep);
      assert s == [s[0]] + s[1..];
    }
  }

  /** A text without a backslash comes back unchanged. */
  lemma NoBackslashUnchanged(s: seq<Unit>)
    requires Backslash !in s
    ensures DecodeUnicode(Some(s)) == s
  {
    EscapesNeedBackslash(s);
    PairNeedsFirst(s, Backslash, Quote, Quote);
    PairNeedsFirst(s, Backslash, DoubleQuote, DoubleQuote);
    PairNeedsFirst(s, Backslash, Backslash, Backslash);
  }

  // ---------------------------------------------------------------------
  // The escape of a code unit, as a reference for the decoder

  /** The upper-case hex digit of a value below 16. */
  function HexDigit(d: nat): (c: Unit)
    requires d < 16
    ensures IsHex(c) && HexValue(c) == d
  {
    if d < 10 then 48 + d else 55 + d
  }

  /** `\uXXXX` for a code unit, with upper-case digits. */
  function Escape(c: Unit): (e: seq<Unit>)
    ensures |e| == 6 && EscapeAt(e)
  {
    [Backslash, 117, HexDigit(c / 4096), HexDigit((c / 256) % 16), HexDigit((c / 16) % 16), HexDigit(c % 16)]
  }

  /** Every unit written as an escape. */
  function EscapeAll(s: seq<Unit>): (e: seq<Unit>)
    ensures |e| == 6 * |s|
  {
    if |s| == 0 then [] else Escape(s[0]) + EscapeAll(s[1..])
  }

  /** The four digits of an escape read back as its unit. */
  lemma Hex4OfEscape(c: Unit)
    ensures Hex4(Escape(c)[2..6]) == c
  {
    var a, b, d, e := c / 4096, (c / 256) % 16, (c / 16) % 16, c % 16;
    var e6 := Escape(c);
    assert HexValue(e6[2]) == a && HexValue(e6[3]) == b && HexValue(e6[4]) == d && HexValue(e6[5]) == e;
    DigitsRecompose(c);
  }

  lemma DigitsRecompose(c: Unit)
    ensures ((c / 4096 * 16 + (c / 256) % 16) * 16 + (c / 16) % 16) * 16 + c % 16 == c
  {
    var q1 := c / 16;
    assert c == q1 * 16 + c % 16;
    var q2 := q1 / 16;
    assert q1 == q2 * 16 + q1 % 16;
    var q3 := q2 / 16;
    assert q2 == q3 * 16 + q2 % 16;
    assert c / 256 == q2 by {
      assert c == q2 * 256 + (q1 % 16) * 16 + c % 16;
    }
    assert c / 4096 == q3 by {
      assert c == q3 * 4096 + (q2 % 16) * 256 + (q1 % 16) * 16 + c % 16;
    }
  }

  /** Decoding undoes escaping: the escapes of any text decode back to
      it. */
  lemma {:induction false} DecodeEscapeAll(s: seq<Unit>)
    ensures DecodeEscapes(EscapeAll(s)) == s
    decreases |s|
  {
    if |s| > 0 {
      var e := EscapeAll(s);
      assert e[..6] == Escape(s[0]) && e[6..] == EscapeAll(s[1..]);
      assert EscapeAt(e);
      Hex4OfEscape(s[0]);
      assert e[2..6] == Escape(s[0])[2..6];
      DecodeEscapeAll(s[1..]);
      assert s == [s[0]] + s[1..];
    }
  }

  /** A fully escaped text without backslashes decodes to itself through
      `decodeUnicode`. */
  lemma DecodeUnicodeOfEscaped(s: seq<Unit>)
    requires s != [] && Backslash !in s
    ensures DecodeUnicode(Some(EscapeAll(s))) == s
  {
    DecodeEscapeAll(s);
    PairNeedsFirst(s, Backslash, Quote, Quote);
    PairNeedsFirst(s, Backslash, DoubleQuote, DoubleQuote);
    PairNeedsFirst(s, Backslash, Backslash, Backslash);
  }

  /** The escapes go first: in `\\u0041` the second backslash starts an
      escape, so the text becomes a backslash and `A`, where unescaping the
      backslash first would have left the six characters `\u0041`. */
  lemma EscapesBeforeBackslashes()
    ensures DecodeUnicode(Some([Backslash, Backslash, 117, 48, 48, 52, 49])) == [Backslash, 65]
  {
    var s: seq<Unit> := [Backslash, Backslash, 117, 48, 48, 52, 49];
    assert !EscapeAt(s);
    assert s[1..] == [Backslash, 117, 48, 48, 52, 49];
    assert EscapeAt(s[1..]) && Hex4(s[1..][2..6]) == 65;
    assert DecodeEscapes(s[1..][6..]) == [];
    assert DecodeEscapes(s) == [Backslash, 65];
    var t: seq<Unit> := [Backslash, 65];
    assert t[1..] == [65];
    assert ReplacePair(t, Backslash, Quote, Quote) == t;
    assert ReplacePair(t, Backslash, DoubleQuote, DoubleQuote) == t;
    assert ReplacePair(t, Backslash, Backslash, Backslash) == t;
  }

  /** Each of the three two-character escapes loses its backslash. */
  lemma QuoteEscapes()
    ensures DecodeUnicode(Some([Backslash, Quote])) == [Quote]
    ensures DecodeUnicode(Some([Backslash, DoubleQuote])) == [DoubleQuote]
    ensures DecodeUnicode(Some([Backslash, Backslash])) == [Backslash]
  {
    var q: seq<Unit> := [Backslash, Quote];
    var d: seq<Unit> := [Backslash, DoubleQuote];
    var b: seq<Unit> := [Backslash, Backslash];
    assert !EscapeAt(q) && !EscapeAt(d) && !EscapeAt(b);
    assert q[1..] == [Quote] && d[1..] == [DoubleQuote] && b[1..] == [Backslash];
    assert DecodeEscapes(q) == q && DecodeEscapes(d) == d && DecodeEscapes(b) == b;
    assert q[2..] == [] && d[2..] == [] && b[2..] == [];
    assert ReplacePair(d, Backslash, Quote, Quote) == d;
    assert ReplacePair(b, Backslash, Quote, Quote) == b;
    assert ReplacePair(b, Backslash, DoubleQuote, DoubleQuote) == b;
  }
}
