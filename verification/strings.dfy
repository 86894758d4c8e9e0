/** String operations with the semantics of the JavaScript built-ins the
    application calls: `split` on one character, `startsWith`, `endsWith`,
    `includes`, a literal `replaceAll`, `trim`, `padStart`, `String(n)` for
    integers, and `parseInt`. */
module Strings {
  import opened Wrappers

  // ---------------------------------------------------------------- digits

  predicate IsDigit(c: char) { '0' <= c <= '9' }

  predicate IsHexDigit(c: char) { IsDigit(c) || 'a' <= c <= 'f' || 'A' <= c <= 'F' }

  /** A digit of radix 16 when `hex`, of radix 10 otherwise. */
  predicate IsRadixDigit(c: char, hex: bool) { if hex then IsHexDigit(c) else IsDigit(c) }

  /** Every character is a digit of the radix (stated from the last
      character, the way `RadixValue` consumes them). */
  predicate AllRadixDigits(s: string, hex: bool) {
    |s| == 0 || (AllRadixDigits(s[..|s| - 1], hex) && IsRadixDigit(s[|s| - 1], hex))
  }

  /** The recursive definition agrees with the character-wise one. */
  lemma {:induction false} AllRadixDigitsIff(s: string, hex: bool)
    ensures AllRadixDigits(s, hex) <==> forall i :: 0 <= i < |s| ==> IsRadixDigit(s[i], hex)
  {
    if 0 < |s| {
      var p := s[..|s| - 1];
      AllRadixDigitsIff(p, hex);
      assert forall i :: 0 <= i < |p| ==> p[i] == s[i];
    }
  }

  lemma AllRadixDigitsAppend(a: string, b: string, hex: bool)
    requires AllRadixDigits(a, hex) && AllRadixDigits(b, hex)
    ensures AllRadixDigits(a + b, hex)
  {
    AllRadixDigitsIff(a, hex);
    AllRadixDigitsIff(b, hex);
    AllRadixDigitsIff(a + b, hex);
  }

  /** A character that is not a digit does not occur in a digit string. */
  lemma NonDigitAbsent(d: string, c: char, hex: bool)
    requires AllRadixDigits(d, hex) && !IsRadixDigit(c, hex)
    ensures c !in d
  {
    AllRadixDigitsIff(d, hex);
  }

  predicate AllDigits(s: string) { AllRadixDigits(s, false) }

  function RadixDigitValue(c: char, hex: bool): (d: nat)
    requires IsRadixDigit(c, hex)
    ensures d < (if hex then 16 else 10)
  {
    if IsDigit(c) then c as int - '0' as int
    else if 'a' <= c <= 'f' then c as int - 'a' as int + 10
    else c as int - 'A' as int + 10
  }

  function DigitChar(d: nat): (c: char)
    requires d < 10
    ensures IsDigit(c) && RadixDigitValue(c, false) == d
  {
    ('0' as int + d) as char
  }

  /** The value of a string of radix digits, most significant first. */
  function RadixValue(s: string, hex: bool): nat
    requires AllRadixDigits(s, hex)
  {
    if |s| == 0 then 0
    else if hex then RadixValue(s[..|s| - 1], hex) * 16 + RadixDigitValue(s[|s| - 1], hex)
    else RadixValue(s[..|s| - 1], hex) * 10 + RadixDigitValue(s[|s| - 1], hex)
  }

  /** JavaScript's `String(n)` for a non-negative integer. */
  function NatToString(n: nat): (s: string)
    ensures 1 <= |s| && AllDigits(s)
    ensures n < 10 <==> |s| == 1
    ensures s[0] == '0' ==> n == 0
  {
    if n < 10 then
      var s := [DigitChar(n)];
      assert s[..0] == [];
      s
    else
      var p := NatToString(n / 10);
      var s := p + [DigitChar(n % 10)];
      assert s[..|s| - 1] == p;
      s
  }

  /** Printing a natural number and reading the digits back gives the number. */
  lemma {:induction false} NatToStringRoundTrip(n: nat)
    ensures RadixValue(NatToString(n), false) == n
  {
    if n >= 10 {
      var s := NatToString(n);
      assert s[..|s| - 1] == NatToString(n / 10);
      NatToStringRoundTrip(n / 10);
    }
  }

  lemma NatToStringInjective(a: nat, b: nat)
    requires NatToString(a) == NatToString(b)
    ensures a == b
  {
    NatToStringRoundTrip(a);
    NatToStringRoundTrip(b);
  }

  /** JavaScript's `String(i)` for an integer. */
  function IntToString(i: int): string {
    if i < 0 then "-" + NatToString(-i) else NatToString(i)
  }

  /** `n` copies of `c`. */
  function Fill(c: char, n: nat): (r: string)
    ensures |r| == n
    ensures forall i :: 0 <= i < n ==> r[i] == c
  {
    if n == 0 then [] else [c] + Fill(c, n - 1)
  }

  /** `s.padStart(width, c)` for a one-character pad. */
  function PadStart(s: string, width: nat, c: char): (r: string)
    ensures |r| == if |s| < width then width else |s|
    ensures r[|r| - |s|..] == s
    ensures forall i :: 0 <= i < |r| - |s| ==> r[i] == c
  {
    var pad := Fill(c, if |s| < width then width - |s| else 0);
    assert (pad + s)[|pad|..] == s;
    pad + s
  }

  /** `String(n).padStart(2, '0')`. */
  function Pad2(n: nat): string {
    PadStart(NatToString(n), 2, '0')
  }

  /** Below 100, `Pad2` gives exactly two digits that read back as `n`. */
  lemma Pad2Digits(n: nat)
    requires n < 100
    ensures |Pad2(n)| == 2 && AllDigits(Pad2(n))
    ensures RadixValue(Pad2(n), false) == n
  {
    NatToStringRoundTrip(n);
    if n < 10 {
      assert Pad2(n) == ['0', DigitChar(n)];
      assert Pad2(n)[..1] == ['0'];
    } else {
      assert NatToString(n) == NatToString(n / 10) + [DigitChar(n % 10)];
      assert |NatToString(n / 10)| == 1;
    }
  }

  // ---------------------------------------------------------------- search

  /** `s.indexOf(c)`: the first position of `c`, or -1. */
  function IndexOf(s: string, c: char): (i: int)
    ensures -1 <= i < |s|
    ensures i == -1 <==> c !in s
    ensures 0 <= i ==> s[i] == c && c !in s[..i]
  {
    if |s| == 0 then -1
    else if s[0] == c then 0
    else
      var j := IndexOf(s[1..], c);
      if j == -1 then -1
      else
        assert s[..j + 1] == [s[0]] + s[1..][..j];
        j + 1
  }

  predicate StartsWith(s: string, p: string) { |p| <= |s| && s[..|p|] == p }

  predicate EndsWith(s: string, p: string) { |p| <= |s| && s[|s| - |p|..] == p }

  /** `s.includes(p)`. */
  predicate Contains(s: string, p: string)
    decreases |s|
  {
    StartsWith(s, p) || (0 < |s| && Contains(s[1..], p))
  }

  /** A present, non-empty text: a truthy one. */
  predicate Truthy(a: Option<string>) {
    a.Some? && a.value != ""
  }

  /** `a || b` for a text that may be missing: `undefined` and the empty
      text are falsy. */
  function Or(a: Option<string>, b: string): (r: string)
    ensures Truthy(a) ==> r == a.value
    ensures !Truthy(a) ==> r == b
  {
    if Truthy(a) then a.value else b
  }

  // ---------------------------------------------------------------- split

  /** `s.split(c)` for a one-character separator. */
  function Split(s: string, c: char): (parts: seq<string>)
    ensures 1 <= |parts|
    ensures forall i :: 0 <= i < |parts| ==> c !in parts[i]
    decreases |s|
  {
    var i := IndexOf(s, c);
    if i == -1 then [s] else [s[..i]] + Split(s[i + 1..], c)
  }

  /** `parts.join(c)`. */
  function Join(parts: seq<string>, c: char): string
    requires 1 <= |parts|
  {
    if |parts| == 1 then parts[0] else parts[0] + [c] + Join(parts[1..], c)
  }

  /** Splitting loses nothing: joining the parts back gives the input. */
  lemma {:induction false} SplitJoin(s: string, c: char)
    ensures Join(Split(s, c), c) == s
    decreases |s|
  {
    var i := IndexOf(s, c);
    if i == -1 {
      assert Split(s, c) == [s];
    } else {
      var head, tail := s[..i], s[i + 1..];
      var rest := Split(tail, c);
      assert Split(s, c) == [head] + rest;
      JoinCons(head, rest, c);
      SplitJoin(tail, c);
      CutAt(s, i);
    }
  }

  /** A text is the part before position `i`, the character there and the
      part after it. */
  lemma CutAt(s: string, i: int)
    requires 0 <= i < |s|
    ensures s == s[..i] + [s[i]] + s[i + 1..]
  {
    assert s[..i + 1] == s[..i] + [s[i]];
    assert s == s[..i + 1] + s[i + 1..];
  }

  lemma JoinCons(x: string, rest: seq<string>, c: char)
    requires 1 <= |rest|
    ensures Join([x] + rest, c) == x + [c] + Join(rest, c)
  {
    assert ([x] + rest)[1..] == rest;
  }

  /** The first separator of `a + [c] + b` is the one after `a`. */
  lemma SplitConcat(a: string, b: string, c: char)
    requires c !in a
    ensures Split(a + [c] + b, c) == [a] + Split(b, c)
  {
    var s := a + [c] + b;
    assert s[..|a|] == a;
    assert s[|a|] == c;
    assert s[|a| + 1..] == b;
    assert IndexOf(s, c) == |a|;
  }

  /** Two separator-free parts joined by the separator split back. */
  lemma SplitPair(a: string, b: string, c: char)
    requires c !in a && c !in b
    ensures Split(a + [c] + b, c) == [a, b]
  {
    SplitConcat(a, b, c);
    SplitNoSeparator(b, c);
    ConsTwo(a, b);
  }

  /** Three separator-free parts joined by the separator split back. */
  lemma SplitTriple(a: string, b: string, d: string, c: char)
    requires c !in a && c !in b && c !in d
    ensures Split(a + [c] + b + [c] + d, c) == [a, b, d]
  {
    var t := b + [c] + d;
    var s := a + [c] + t;
    assert Split(t, c) == [b, d] by { SplitPair(b, d, c); }
    assert Split(s, c) == [a] + Split(t, c) by { SplitConcat(a, t, c); }
    ConsThree(a, b, d);
    assert s == a + [c] + b + [c] + d by {
      AppendAssoc(a + [c], b + [c], d);
      AppendAssoc(a + [c], b, [c]);
    }
  }

  /** Displays of a head and a tail. Stated for any element type, so that
      no equality of texts is examined. */
  lemma ConsTwo<T>(a: T, b: T)
    ensures [a] + [b] == [a, b]
  {
  }

  lemma ConsThree<T>(a: T, b: T, c: T)
    ensures [a] + [b, c] == [a, b, c]
  {
  }

  lemma ConsFour<T>(a: T, b: T, c: T, d: T)
    ensures [a] + [b, c, d] == [a, b, c, d]
  {
  }

  /** Concatenation is associative. */
  lemma AppendAssoc<T>(x: seq<T>, y: seq<T>, z: seq<T>)
    ensures x + (y + z) == x + y + z
  {
  }

  lemma SplitNoSeparator(s: string, c: char)
    requires c !in s
    ensures Split(s, c) == [s]
  {
  }

  // ---------------------------------------------------------------- replace

  /** `s.replaceAll(pat, rep)` with a literal, non-empty pattern: matches are
      found left to right and do not overlap. */
  function ReplaceAll(s: string, pat: string, rep: string): string
    requires 0 < |pat|
    decreases |s|
  {
    if |s| < |pat| then s
    else if s[..|pat|] == pat then rep + ReplaceAll(s[|pat|..], pat, rep)
    else [s[0]] + ReplaceAll(s[1..], pat, rep)
  }

  /** Text without an occurrence of the pattern is left alone. */
  lemma {:induction false} ReplaceAllAbsent(s: string, pat: string, rep: string)
    requires 0 < |pat| && !Contains(s, pat)
    ensures ReplaceAll(s, pat, rep) == s
    decreases |s|
  {
    if |pat| <= |s| {
      ReplaceAllAbsent(s[1..], pat, rep);
      assert s == [s[0]] + s[1..];
    }
  }

  /** Replacing a character works piecewise on a concatenation. */
  lemma {:induction false} ReplaceCharConcat(a: string, b: string, c: char, rep: string)
    ensures ReplaceAll(a + b, [c], rep) == ReplaceAll(a, [c], rep) + ReplaceAll(b, [c], rep)
    decreases |a|
  {
    if |a| == 0 {
      assert a + b == b;
    } else {
      assert (a + b)[1..] == a[1..] + b;
      assert (a + b)[..1] == a[..1];
      ReplaceCharConcat(a[1..], b, c, rep);
    }
  }

  /** A character that does not occur is not replaced. */
  lemma {:induction false} ReplaceCharAbsent(s: string, c: char, rep: string)
    requires c !in s
    ensures ReplaceAll(s, [c], rep) == s
    decreases |s|
  {
    if |s| > 0 {
      assert s[0] in s;
      assert s[..1] != [c];
      ReplaceCharAbsent(s[1..], c, rep);
      assert s == [s[0]] + s[1..];
    }
  }

  /** Replacing a character by one that differs removes every occurrence of it. */
  lemma {:induction false} ReplaceCharRemovesIt(s: string, a: char, b: char)
    requires a != b
    ensures a !in ReplaceAll(s, [a], [b])
    ensures |ReplaceAll(s, [a], [b])| == |s|
    decreases |s|
  {
    if 1 <= |s| {
      ReplaceCharRemovesIt(s[1..], a, b);
    }
  }

  /** Replacing one character by another changes exactly its occurrences,
      position by position. */
  predicate CharReplaced(s: string, a: char, b: char, r: string) {
    |r| == |s| && forall i :: 0 <= i < |s| ==> r[i] == (if s[i] == a then b else s[i])
  }

  lemma {:induction false} ReplaceCharEach(s: string, a: char, b: char)
    ensures CharReplaced(s, a, b, ReplaceAll(s, [a], [b]))
    decreases |s|
  {
    if 1 <= |s| {
      ReplaceCharEach(s[1..], a, b);
      var r := ReplaceAll(s, [a], [b]);
      var head: string := if s[0] == a then [b] else [s[0]];
      assert r == head + ReplaceAll(s[1..], [a], [b]);
      forall i | 0 <= i < |s| ensures r[i] == (if s[i] == a then b else s[i]) {
        if 0 < i {
          assert r[i] == ReplaceAll(s[1..], [a], [b])[i - 1];
          assert s[i] == s[1..][i - 1];
        }
      }
    }
  }

  // ---------------------------------------------------------------- trim

  /** The characters `String.prototype.trim` removes: WhiteSpace and
      LineTerminator of ECMAScript (section 12.2 and 12.3 of ECMA-262). */
  predicate IsJsSpace(c: char) {
    || c == ' ' || c == '\t' || c == '\n' || c == '\r'
    || c == '\U{000B}' || c == '\U{000C}' || c == '\U{00A0}' || c == '\U{1680}'
    || ('\U{2000}' <= c <= '\U{200A}') || c == '\U{2028}' || c == '\U{2029}'
    || c == '\U{202F}' || c == '\U{205F}' || c == '\U{3000}' || c == '\U{FEFF}'
  }

  function TrimStart(s: string): (r: string)
    ensures |r| <= |s|
    ensures r == s[|s| - |r|..]
    ensures forall i :: 0 <= i < |s| - |r| ==> IsJsSpace(s[i])
    ensures 0 < |r| ==> !IsJsSpace(r[0])
  {
    if 0 < |s| && IsJsSpace(s[0]) then TrimStart(s[1..]) else s
  }

  function TrimEnd(s: string): (r: string)
    ensures |r| <= |s|
    ensures r == s[..|r|]
    ensures forall i :: |r| <= i < |s| ==> IsJsSpace(s[i])
    ensures 0 < |r| ==> !IsJsSpace(r[|r| - 1])
  {
    if 0 < |s| && IsJsSpace(s[|s| - 1]) then TrimEnd(s[..|s| - 1]) else s
  }

  lemma TrimStartNoBlank(s: string)
    requires 0 < |s| && !IsJsSpace(s[0])
    ensures TrimStart(s) == s
  {
  }

  /** `s.trim()`. */
  function Trim(s: string): string {
    TrimEnd(TrimStart(s))
  }

  /** Trimming leaves the empty string exactly when the text is all blanks. */
  lemma TrimEmptyIff(s: string)
    ensures Trim(s) == "" <==> forall i :: 0 <= i < |s| ==> IsJsSpace(s[i])
  {
    var t := TrimStart(s);
    if Trim(s) == "" {
      assert |t| == 0;
    } else {
      assert 0 < |t|;
      assert !IsJsSpace(t[0]);
      assert s[|s| - |t|] == t[0];
    }
  }

  // ---------------------------------------------------------------- parseInt

  /** Length of the longest prefix of radix digits. */
  function RadixPrefixLength(s: string, hex: bool): (k: nat)
    ensures k <= |s| && AllRadixDigits(s[..k], hex)
    ensures k < |s| ==> !IsRadixDigit(s[k], hex)
  {
    if 0 < |s| && IsRadixDigit(s[0], hex) then
      var k := RadixPrefixLength(s[1..], hex) + 1;
      assert s[..k] == [s[0]] + s[1..][..k - 1];
      AllRadixDigitsIff(s[1..][..k - 1], hex);
      AllRadixDigitsIff(s[..k], hex);
      k
    else 0
  }

  /** The digits at the start of `d + rest` are exactly `d`. */
  lemma {:induction false} RadixPrefixOfDigits(d: string, rest: string, hex: bool)
    requires AllRadixDigits(d, hex) && (0 < |rest| ==> !IsRadixDigit(rest[0], hex))
    ensures RadixPrefixLength(d + rest, hex) == |d|
  {
    if 0 < |d| {
      AllRadixDigitsIff(d, hex);
      AllRadixDigitsIff(d[1..], hex);
      assert (d + rest)[1..] == d[1..] + rest;
      RadixPrefixOfDigits(d[1..], rest, hex);
    } else {
      assert d + rest == rest;
    }
  }

  /** The unsigned part of `parseInt`: an optional `0x` prefix when
      `allowHex`, then the longest run of digits of the radix; `None` when that
      run is empty. */
  function ParseUnsigned(u: string, allowHex: bool): Option<nat> {
    var hex := allowHex && 2 <= |u| && u[0] == '0' && (u[1] == 'x' || u[1] == 'X');
    var body := if hex then u[2..] else u;
    var k := RadixPrefixLength(body, hex);
    if k == 0 then None else Some(RadixValue(body[..k], hex))
  }

  /** `parseInt(s)` when `allowHex` (no radix: a `0x` prefix selects radix 16)
      and `Number.parseInt(s, 10)` otherwise, following section 19.2.5 of
      ECMA-262: leading blanks are skipped, one sign is read, then digits.
      `None` is NaN. */
  function ParseIntWith(s: string, allowHex: bool): Option<int> {
    var t := TrimStart(s);
    if 0 < |t| && t[0] == '-' then
      match ParseUnsigned(t[1..], allowHex)
      case Some(v) => var r: int := v; Some(-r)
      case None => None
    else if 0 < |t| && t[0] == '+' then
      match ParseUnsigned(t[1..], allowHex)
      case Some(v) => Some(v)
      case None => None
    else
      match ParseUnsigned(t, allowHex)
      case Some(v) => Some(v)
      case None => None
  }

  /** `parseInt(s)`. */
  function ParseInt(s: string): Option<int> { ParseIntWith(s, true) }

  /** `Number.parseInt(s, 10)`. */
  function ParseInt10(s: string): Option<int> { ParseIntWith(s, false) }

  /** A run of decimal digits without a `0x` prefix, followed by a non-digit,
      reads as the value of the run. */
  lemma ParseUnsignedDigits(d: string, rest: string, allowHex: bool)
    requires 0 < |d| && AllDigits(d) && (0 < |rest| ==> !IsDigit(rest[0]))
    requires 2 <= |d + rest| && d[0] == '0' ==> (d + rest)[1] != 'x' && (d + rest)[1] != 'X'
    ensures ParseUnsigned(d + rest, allowHex) == Some(RadixValue(d, false))
  {
    var u := d + rest;
    assert !(allowHex && 2 <= |u| && u[0] == '0' && (u[1] == 'x' || u[1] == 'X'));
    RadixPrefixOfDigits(d, rest, false);
    assert u[..|d|] == d;
  }

  /** A sign in front of an unsigned numeral is read as such. */
  lemma ParseSigned(d: string, allowHex: bool, v: nat)
    requires 0 < |d| && IsDigit(d[0]) && ParseUnsigned(d, allowHex) == Some(v)
    ensures ParseIntWith(d, allowHex) == Some(v)
    ensures ParseIntWith("-" + d, allowHex) == Some(-(v as int))
  {
    TrimStartNoBlank(d);
    var s := "-" + d;
    TrimStartNoBlank(s);
    assert s[1..] == d;
  }

  /** `parseInt` reads back what `String` printed, with or without radix 10. */
  lemma ParseIntOfIntToString(i: int, allowHex: bool)
    ensures ParseIntWith(IntToString(i), allowHex) == Some(i)
  {
    var n: nat := if i < 0 then -i else i;
    var d := NatToString(n);
    NatToStringRoundTrip(n);
    assert d + "" == d;
    ParseUnsignedDigits(d, "", allowHex);
    ParseSigned(d, allowHex, n);
  }

  /** `parseInt` stops at the first character that is not a digit. */
  lemma ParseIntDigitPrefix(d: string, rest: string)
    requires 0 < |d| && AllDigits(d) && (0 < |rest| ==> !IsDigit(rest[0]))
    requires 2 <= |d + rest| && d[0] == '0' ==> (d + rest)[1] != 'x' && (d + rest)[1] != 'X'
    ensures ParseInt(d + rest) == Some(RadixValue(d, false))
    ensures ParseInt10(d + rest) == Some(RadixValue(d, false))
  {
    var s := d + rest;
    AllRadixDigitsIff(d, false);
    assert IsDigit(s[0]);
    TrimStartNoBlank(s);
    ParseUnsignedDigits(d, rest, true);
    ParseUnsignedDigits(d, rest, false);
  }
}
