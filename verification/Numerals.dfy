/** Decimal formatting and base-prefix parsing of unsigned numbers, and
    splitting at a separator: the text helpers the network configuration uses. */
module Numerals {
  import opened Bytes

  function DigitChar(d: nat): (c: char)
    requires d < 10
  {
    '0' + d as char
  }

  /** Decimal text without leading zeros, as %d prints it. */
  function Format(n: nat): string {
    if n < 10 then [DigitChar(n)] else Format(n / 10) + [DigitChar(n % 10)]
  }

  function DigitValue(c: char): Option<nat> {
    if '0' <= c <= '9' then Some((c - '0') as nat)
    else if 'a' <= c <= 'z' then Some((c - 'a') as nat + 10)
    else if 'A' <= c <= 'Z' then Some((c - 'A') as nat + 10)
    else None
  }

  /** The number s denotes in the given base, absent when a digit is not one of that base. */
  function Value(s: string, base: nat): Option<nat> {
    if s == "" then Some(0)
    else
      var init, last := Value(s[..|s| - 1], base), DigitValue(s[|s| - 1]);
      if init.Some? && last.Some? && last.value < base then Some(init.value * base + last.value) else None
  }

  /** strconv.ParseUint with base 0: 0b, 0o and 0x prefixes, and octal after any other leading zero. */
  function ParseUint(s: string, max: nat): (r: Option<nat>)
    ensures r.Some? ==> r.value <= max
  {
    if s == "" then None
    else
      var v := if s[0] != '0' then Value(s, 10)
               else if |s| >= 3 && s[1] in {'b', 'B'} then Value(s[2..], 2)
               else if |s| >= 3 && s[1] in {'o', 'O'} then Value(s[2..], 8)
               else if |s| >= 3 && s[1] in {'x', 'X'} then Value(s[2..], 16)
               else Value(s[1..], 8);
      if v.Some? && v.value <= max then v else None
  }

  predicate AllDigits(s: string) {
    forall i :: 0 <= i < |s| ==> '0' <= s[i] <= '9'
  }

  /** Text a number could have been printed as: digits, no superfluous leading zero. */
  predicate Canonical(s: string) {
    s != "" && AllDigits(s) && (s[0] == '0' ==> s == "0")
  }

  lemma {:induction false} FormatIsCanonical(n: nat)
    ensures Canonical(Format(n)) && Value(Format(n), 10) == Some(n)
    ensures Format(n)[0] == '0' <==> n == 0
  {
    if n < 10 {
      assert Format(n)[..0] == "";
    } else {
      FormatIsCanonical(n / 10);
      assert Format(n)[..|Format(n)| - 1] == Format(n / 10);
    }
  }

  /** A non-zero first digit keeps the value positive. */
  lemma {:induction false} PositiveValue(s: string)
    requires s != "" && AllDigits(s) && s[0] != '0'
    ensures Value(s, 10).Some? && Value(s, 10).value > 0
  {
    if |s| == 1 {
      assert s[..0] == "";
      assert Value("", 10) == Some(0);
    } else {
      PositiveValue(s[..|s| - 1]);
    }
  }

  lemma DigitRoundTrip(c: char)
    requires '0' <= c <= '9'
    ensures DigitValue(c).Some? && DigitValue(c).value < 10 && DigitChar(DigitValue(c).value) == c
  {
  }

  lemma FormatMore(n: nat, d: nat)
    requires n > 0 && d < 10
    ensures Format(n * 10 + d) == Format(n) + [DigitChar(d)]
  {
  }

  /** Every canonical text is the printed form of its own value. */
  lemma {:induction false} CanonicalIsFormat(s: string)
    requires Canonical(s)
    ensures Value(s, 10).Some? && s == Format(Value(s, 10).value)
  {
    DigitRoundTrip(s[|s| - 1]);
    var last := DigitValue(s[|s| - 1]).value;
    if |s| == 1 {
      assert s[..0] == "";
      assert Value("", 10) == Some(0);
    } else {
      hide DigitValue;
      hide DigitChar;
      hide Format;
      CanonicalIsFormat(s[..|s| - 1]);
      PositiveValue(s[..|s| - 1]);
      FormatMore(Value(s[..|s| - 1], 10).value, last);
      assert s == s[..|s| - 1] + [s[|s| - 1]];
    }
  }

  /** Printing and parsing a number gives it back, up to the bound. */
  lemma ParseFormat(n: nat, max: nat)
    ensures ParseUint(Format(n), max) == if n <= max then Some(n) else None
  {
    FormatIsCanonical(n);
    if n == 0 { assert Format(0)[1..] == ""; }
  }

  /** Digits of any base up to 36 are 0 to 9 and then letters of either case. */
  lemma DigitsOfAnyBase(d: nat)
    requires d < 36
    ensures d < 10 ==> DigitValue('0' + d as char) == Some(d)
    ensures d >= 10 ==> DigitValue('a' + (d - 10) as char) == DigitValue('A' + (d - 10) as char) == Some(d)
  {
  }

  /** The number within the bound. */
  function Bounded(v: Option<nat>, max: nat): Option<nat> {
    if v.Some? && v.value <= max then v else None
  }

  /** A prefix of either case sets the base of the digits after it. */
  lemma PrefixSetsBase(c: char, base: nat, s: string, max: nat)
    requires s != ""
    requires (c in "bB" && base == 2) || (c in "oO" && base == 8) || (c in "xX" && base == 16)
    ensures ParseUint(['0', c] + s, max) == Bounded(Value(s, base), max)
  {
    hide Value;
    var text := ['0', c] + s;
    assert text[0] == '0' && text[1] == c && text[2..] == s;
  }

  /** A prefix without digits after it is no number. */
  lemma BarePrefixFails(c: char, max: nat)
    requires c in "bBoOxX"
    ensures ParseUint(['0', c], max) == None
  {
    assert ['0', c][1..] == [c] && [c][..0] == "";
    assert DigitValue(c).value >= 8;
    assert Value([c], 8) == None;
  }

  /** Dropping a leading zero does not change a decimal value. */
  lemma {:induction false} DropZero(s: string)
    requires s != "" && s[0] == '0' && AllDigits(s)
    ensures Value(s[1..], 10) == Value(s, 10)
  {
    if |s| == 1 {
      assert s[1..] == "" && s[..0] == "";
      assert Value("", 10) == Some(0);
    } else {
      DropZero(s[..|s| - 1]);
      assert s[..|s| - 1][1..] == s[1..][..|s| - 2];
    }
  }

  /** The same digits read in base 8 and in base 10: equal below 8, otherwise smaller or not octal. */
  lemma {:induction false} OctalVersusDecimal(s: string)
    requires AllDigits(s)
    ensures Value(s, 10).Some?
    ensures Value(s, 10).value < 8 ==> Value(s, 8) == Value(s, 10)
    ensures Value(s, 10).value >= 8 ==> Value(s, 8).None? || Value(s, 8).value < Value(s, 10).value
  {
    if s != "" {
      OctalVersusDecimal(s[..|s| - 1]);
    }
  }

  /** When base-0 parsing reads a digit string as the decimal number it looks
      like: exactly when it has no leading zero or stays below 8. */
  lemma ReadsAsDecimal(s: string, max: nat)
    requires s != "" && AllDigits(s) && Value(s, 10).Some? && Value(s, 10).value <= max
    ensures ParseUint(s, max) == Value(s, 10) <==> s[0] != '0' || Value(s, 10).value < 8
  {
    if s[0] == '0' {
      DropZero(s);
      OctalVersusDecimal(s[1..]);
    }
  }

  /** "010" is read as 8, and "08" is refused. */
  lemma LeadingZeroIsOctal()
    ensures ParseUint("010", 65535) == Some(8) && ParseUint("08", 65535) == None
  {
    assert "010"[1..] == "10" && "10"[..1] == "1" && "1"[..0] == "";
    assert Value("", 8) == Some(0);
    assert Value("1", 8) == Some(1);
    assert "08"[1..] == "8" && "8"[..0] == "";
  }

  // ---------------------------------------------------------------- splitting

  function IndexOf(s: string, c: char): (i: nat)
    ensures i <= |s| && (i < |s| ==> s[i] == c)
    ensures forall k :: 0 <= k < i ==> s[k] != c
  {
    if s == "" || s[0] == c then 0 else 1 + IndexOf(s[1..], c)
  }

  /** strings.Split with a one-character separator. */
  function Split(s: string, c: char): (parts: seq<string>)
    ensures |parts| > 0
    decreases |s|
  {
    var i := IndexOf(s, c);
    if i == |s| then [s] else [s[..i]] + Split(s[i + 1..], c)
  }

  lemma SplitFirst(a: string, c: char, rest: string)
    requires c !in a
    ensures IndexOf(a + [c] + rest, c) == |a|
    ensures Split(a + [c] + rest, c) == [a] + Split(rest, c)
  {
    var s := a + [c] + rest;
    assert s[|a|] == c;
    assert forall k :: 0 <= k < |a| ==> s[k] == a[k] && a[k] in a;
    assert IndexOf(s, c) == |a|;
    assert s[..|a|] == a && s[|a| + 1..] == rest;
  }

  lemma SplitLast(a: string, c: char)
    requires c !in a
    ensures Split(a, c) == [a]
  {
    assert IndexOf(a, c) == |a|;
  }
}
