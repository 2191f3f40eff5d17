/**
 * The two Ruby `String` methods the menu relies on: `chomp` (line 32) and
 * `to_i` (line 41), plus the decimal rendering `index + 1` is printed with
 * (line 28), which is what a user types back.
 */
module RubyText {
  import opened Chars

  // ---------------------------------------------------------------------
  // String#chomp
  // ---------------------------------------------------------------------

  /**
   * `chomp` with the default separator: removes one trailing "\r\n", "\n"
   * or "\r", and nothing else.
   */
  function Chomp(line: string): (r: string)
    ensures r <= line
    ensures line[|r|..] in {"", "\n", "\r", "\r\n"}
    ensures |r| == |line| ==> line == [] || (line[|line| - 1] != '\n' && line[|line| - 1] != '\r')
    ensures |line| >= 2 && line[|line| - 2] == '\r' && line[|line| - 1] == '\n' ==> |r| == |line| - 2
    ensures |line| >= 1 && line[|line| - 1] == '\r' ==> |r| == |line| - 1
    ensures |line| >= 1 && line[|line| - 1] == '\n' && (|line| == 1 || line[|line| - 2] != '\r') ==> |r| == |line| - 1
  {
    var n := |line|;
    if n >= 2 && line[n - 2] == '\r' && line[n - 1] == '\n' then
      assert line[n - 2..] == "\r\n";
      line[..n - 2]
    else if n >= 1 && (line[n - 1] == '\n' || line[n - 1] == '\r') then
      assert line[n - 1..] == [line[n - 1]];
      line[..n - 1]
    else
      assert line[n..] == [];
      line
  }

  /** A line read with its newline comes back without it. */
  lemma ChompLine(text: string)
    requires text == [] || text[|text| - 1] != '\r'
    ensures Chomp(text + "\n") == text
    ensures Chomp(text + "\r\n") == text
  {
    var a, b := text + "\n", text + "\r\n";
    assert a[..|a| - 1] == text;
    assert b[..|b| - 2] == text;
    assert |a| >= 2 ==> a[|a| - 2] == text[|text| - 1];
  }

  // ---------------------------------------------------------------------
  // Decimal digits
  // ---------------------------------------------------------------------

  function DigitValue(c: char): (d: nat)
    requires IsDigit(c)
    ensures d < 10
  {
    (c as int) - ('0' as int)
  }

  function DigitChar(d: nat): (c: char)
    requires d < 10
    ensures IsDigit(c) && DigitValue(c) == d
  {
    ('0' as int + d) as char
  }

  /** The number a string of decimal digits denotes. */
  function Decimal(ds: string): nat
    requires AllDigits(ds)
  {
    if ds == [] then 0 else Decimal(ds[..|ds| - 1]) * 10 + DigitValue(ds[|ds| - 1])
  }

  /** `Integer#to_s`: the decimal rendering of n, without leading zeros. */
  function ShowNat(n: nat): (s: string)
    ensures |s| >= 1 && AllDigits(s)
    ensures s[0] == '0' ==> n == 0 && s == "0"
    decreases n
  {
    if n < 10 then [DigitChar(n)] else ShowNat(n / 10) + [DigitChar(n % 10)]
  }

  /** Reading back a rendered number gives the number. */
  lemma {:induction false} DecimalShowNat(n: nat)
    ensures Decimal(ShowNat(n)) == n
    decreases n
  {
    if n >= 10 {
      var s := ShowNat(n);
      assert s[..|s| - 1] == ShowNat(n / 10);
      DecimalShowNat(n / 10);
    }
  }

  // ---------------------------------------------------------------------
  // String#to_i
  // ---------------------------------------------------------------------

  /**
   * The digits of the longest prefix of s of the form `\d+(_\d+)*`, with
   * the underscores dropped: a single underscore may separate two digits,
   * anything else ends the number.
   */
  function DigitRun(s: string): (ds: string)
    ensures AllDigits(ds) && |ds| <= |s|
    ensures ds == [] <==> s == [] || !IsDigit(s[0])
  {
    if s == [] || !IsDigit(s[0]) then []
    else if |s| >= 3 && s[1] == '_' && IsDigit(s[2]) then [s[0]] + DigitRun(s[2..])
    else [s[0]] + DigitRun(s[1..])
  }

  /** The string without its leading whitespace. */
  function SkipSpaces(s: string): (t: string)
    ensures |t| <= |s| && t == s[|s| - |t|..]
    ensures t == [] || !IsSpace(t[0])
    ensures AllSpace(s, 0, |s| - |t|)
  {
    if s != [] && IsSpace(s[0]) then
      SkipSpaces(s[1..])
    else s
  }

  /** The text after one optional sign. */
  function AfterSign(t: string): string {
    if t != [] && (t[0] == '-' || t[0] == '+') then t[1..] else t
  }

  /** The text after an optional `0d`/`0D` radix prefix. */
  function AfterRadixPrefix(u: string): string {
    if |u| > 1 && u[0] == '0' && (u[1] == 'd' || u[1] == 'D') then u[2..] else u
  }

  /** Where `to_i` looks for digits: after leading whitespace, one optional sign and an optional radix prefix. */
  function DigitsStart(s: string): string {
    AfterRadixPrefix(AfterSign(SkipSpaces(s)))
  }

  /** The value after the sign: an optional `0d`/`0D` radix prefix, then the digit run. */
  function UnsignedValue(u: string): nat {
    Decimal(DigitRun(AfterRadixPrefix(u)))
  }

  /** The value of text that starts after the leading whitespace: one optional sign, then the number. */
  function SignedValue(t: string): int {
    if t != [] && t[0] == '-' then -(UnsignedValue(t[1..]) as int)
    else if t != [] && t[0] == '+' then UnsignedValue(t[1..])
    else UnsignedValue(t)
  }

  /**
   * `String#to_i` (base 10, never raising): leading whitespace is skipped,
   * then one optional sign, then an optional `0d`/`0D` radix prefix, then
   * the digit run; with no digits the value is 0.
   */
  function ToI(s: string): int {
    SignedValue(SkipSpaces(s))
  }

  /**
   * What `to_i` reads: the digit run after leading whitespace, one optional
   * sign and an optional radix prefix, negated only after a `-`; with no
   * digit there the value is 0, whatever digits come later.
   */
  lemma ToIReads(s: string)
    ensures var m: int := Decimal(DigitRun(DigitsStart(s))); ToI(s) == m || ToI(s) == -m
    ensures var m: int := Decimal(DigitRun(DigitsStart(s)));
      if SkipSpaces(s) != [] && SkipSpaces(s)[0] == '-' then ToI(s) == -m else ToI(s) == m
    ensures ToI(s) < 0 ==> SkipSpaces(s) != [] && SkipSpaces(s)[0] == '-'
    ensures DigitsStart(s) == [] || !IsDigit(DigitsStart(s)[0]) ==> ToI(s) == 0
  {
  }

  /** A string of plain digits is its own digit run. */
  lemma {:induction false} DigitRunOfDigits(ds: string, rest: string)
    requires AllDigits(ds)
    requires rest == [] || (!IsDigit(rest[0]) && rest[0] != '_')
    ensures DigitRun(ds + rest) == ds
    decreases |ds|
  {
    if ds != [] {
      var s := ds + rest;
      assert s[0] == ds[0];
      assert s[1..] == ds[1..] + rest;
      assert |s| >= 2 ==> s[1] != '_' by {
        if |ds| >= 2 {
          assert s[1] == ds[1];
        } else {
          assert s[1..] == rest;
        }
      }
      DigitRunOfDigits(ds[1..], rest);
      assert DigitRun(s) == [ds[0]] + DigitRun(s[1..]);
      assert [ds[0]] + ds[1..] == ds;
    }
  }

  /** A single underscore between two digits is skipped: `"1_0"` has the digit run `"10"`. */
  lemma {:induction false} DigitRunUnderscore(ds: string, rest: string)
    requires AllDigits(ds) && ds != []
    requires rest != [] && IsDigit(rest[0])
    ensures DigitRun(ds + ['_'] + rest) == ds + DigitRun(rest)
    decreases |ds|
  {
    var s := ds + ['_'] + rest;
    assert s[0] == ds[0];
    if |ds| == 1 {
      assert s[1] == '_' && s[2] == rest[0];
      assert s[2..] == rest;
    } else {
      assert s[1] == ds[1];
      assert s[1..] == ds[1..] + ['_'] + rest;
      DigitRunUnderscore(ds[1..], rest);
      assert [ds[0]] + ds[1..] == ds;
    }
  }

  /**
   * An underscore that is not followed by a digit ends the number:
   * `"1_"` and `"1__0"` have the digit run `"1"`.
   */
  lemma {:induction false} DigitRunStopsAtUnderscore(ds: string, rest: string)
    requires AllDigits(ds) && ds != []
    requires rest == [] || !IsDigit(rest[0])
    ensures DigitRun(ds + ['_'] + rest) == ds
    decreases |ds|
  {
    var s := ds + ['_'] + rest;
    assert s[0] == ds[0];
    if |ds| == 1 {
      assert s[1] == '_';
      assert |s| >= 3 ==> s[2] == rest[0];
      assert s[1..] == ['_'] + rest;
    } else {
      assert s[1] == ds[1];
      assert s[1..] == ds[1..] + ['_'] + rest;
      DigitRunStopsAtUnderscore(ds[1..], rest);
      assert [ds[0]] + ds[1..] == ds;
    }
  }

  /**
   * Text that starts with a digit and has no `0d` prefix reads as the value
   * of its digit run.
   */
  lemma ToIOfLeadingDigit(s: string)
    requires s != [] && IsDigit(s[0])
    requires !(|s| > 1 && s[0] == '0' && (s[1] == 'd' || s[1] == 'D'))
    ensures ToI(s) == Decimal(DigitRun(s))
  {
    NoLeadingSpace(s);
    NoSign(s);
    NoRadixPrefix(s);
  }

  /**
   * Typing a number back: `to_i` of a rendered natural number, followed by
   * anything that cannot continue it, is that number.  (A lone `0` followed
   * by `d` or `D` is the radix prefix `0d` instead.)
   */
  lemma ToIShowNat(n: nat, rest: string)
    requires rest == [] || (!IsDigit(rest[0]) && rest[0] != '_')
    requires n == 0 ==> rest == [] || (rest[0] != 'd' && rest[0] != 'D')
    ensures ToI(ShowNat(n) + rest) == n
  {
    var s := ShowNat(n) + rest;
    assert s[0] == ShowNat(n)[0];
    assert |s| > 1 && s[0] == '0' ==> s[1] == rest[0];
    ToIOfLeadingDigit(s);
    DigitRunOfDigits(ShowNat(n), rest);
    DecimalShowNat(n);
  }

  /** A `-` in front of a printed number negates it: `"-1".to_i` is -1. */
  lemma NegativeShowNat(n: nat, rest: string)
    requires rest == [] || (!IsDigit(rest[0]) && rest[0] != '_')
    requires n == 0 ==> rest == [] || (rest[0] != 'd' && rest[0] != 'D')
    ensures ToI(['-'] + (ShowNat(n) + rest)) == -(n as int)
  {
    var t := ShowNat(n) + rest;
    assert t[0] == ShowNat(n)[0];
    ToIShowNat(n, rest);
    NoLeadingSpace(t);
    NoSign(t);
    assert UnsignedValue(t) == n;
    NoLeadingSpace(['-'] + t);
    Negated(t);
  }

  /** After a `-`, the value is negated. */
  lemma Negated(t: string)
    ensures SignedValue(['-'] + t) == -(UnsignedValue(t) as int)
  {
    assert (['-'] + t)[1..] == t;
  }

  /** The radix prefix: `"0d" + n` reads as n, so `"0d7".to_i` is 7, not 0. */
  lemma ToIRadixPrefix(p: char, n: nat)
    requires p == 'd' || p == 'D'
    ensures ToI(['0', p] + ShowNat(n)) == n
  {
    var digits := ShowNat(n);
    var s := ['0', p] + digits;
    NoLeadingSpace(s);
    NoSign(s);
    assert s[2..] == digits + [];
    DigitRunOfDigits(digits, []);
    DecimalShowNat(n);
  }

  /** Text that does not start with whitespace is read from its first character. */
  lemma NoLeadingSpace(s: string)
    requires s == [] || !IsSpace(s[0])
    ensures ToI(s) == SignedValue(s)
  {
  }

  /** Text that does not start with a sign is read as unsigned. */
  lemma NoSign(t: string)
    requires t == [] || (t[0] != '-' && t[0] != '+')
    ensures SignedValue(t) == UnsignedValue(t)
  {
  }

  /** Without a `0d`/`0D` prefix, the digit run is read from the start. */
  lemma NoRadixPrefix(u: string)
    requires !(|u| > 1 && u[0] == '0' && (u[1] == 'd' || u[1] == 'D'))
    ensures UnsignedValue(u) == Decimal(DigitRun(u))
  {
  }

  /**
   * Text without a leading integer reads as 0, even when digits follow
   * later: a letter in front (`"x5"`, `"q1"`) ...
   */
  lemma LeadingLetterReadsZero(c: char, rest: string)
    requires !IsSpace(c) && !IsDigit(c) && c != '-' && c != '+'
    ensures ToI([c] + rest) == 0
  {
    NoLeadingSpace([c] + rest);
    NoSign([c] + rest);
    NoLeadingDigit([c] + rest);
  }

  /** ... a sign without digits after it (`"-"`, `"+x"`) ... */
  lemma SignWithoutDigitsReadsZero(sign: char, rest: string)
    requires sign == '-' || sign == '+'
    requires rest == [] || !IsDigit(rest[0])
    ensures ToI([sign] + rest) == 0
  {
    SignedWithoutDigits(sign, rest);
    NoLeadingSpace([sign] + rest);
  }

  lemma SignedWithoutDigits(sign: char, rest: string)
    requires sign == '-' || sign == '+'
    requires rest == [] || !IsDigit(rest[0])
    ensures SignedValue([sign] + rest) == 0
  {
    assert ([sign] + rest)[1..] == rest;
    NoLeadingDigit(rest);
  }

  /** ... or a radix prefix without digits after it (`"0d"`, `"0dx"`). */
  lemma RadixPrefixWithoutDigitsReadsZero(p: char, rest: string)
    requires p == 'd' || p == 'D'
    requires rest == [] || !IsDigit(rest[0])
    ensures ToI(['0', p] + rest) == 0
  {
    var s := ['0', p] + rest;
    NoLeadingSpace(s);
    NoSign(s);
    RadixPrefixWithoutDigits(p, rest);
  }

  lemma RadixPrefixWithoutDigits(p: char, rest: string)
    requires p == 'd' || p == 'D'
    requires rest == [] || !IsDigit(rest[0])
    ensures UnsignedValue(['0', p] + rest) == 0
  {
    assert (['0', p] + rest)[2..] == rest;
  }

  /**
   * Underscores: a single one between digits is skipped (`"1_0"` reads as
   * 10), while a doubled or trailing one ends the number (`"1__0"` and
   * `"1_"` read as 1).
   */
  lemma UnderscoreReadings(a: char, b: char)
    requires IsDigit(a) && IsDigit(b)
    ensures ToI([a, '_', b]) == DigitValue(a) * 10 + DigitValue(b)
    ensures ToI([a, '_', '_', b]) == DigitValue(a)
    ensures ToI([a, '_']) == DigitValue(a)
  {
    SingleUnderscore(a, b);
    DoubledUnderscore(a, b);
    TrailingUnderscore(a);
  }

  lemma SingleUnderscore(a: char, b: char)
    requires IsDigit(a) && IsDigit(b)
    ensures ToI([a, '_', b]) == DigitValue(a) * 10 + DigitValue(b)
  {
    DigitRunUnderscore([a], [b]);
    DigitRunOfDigits([b], []);
    assert [a] + ['_'] + [b] == [a, '_', b];
    assert [b] + [] == [b];
    assert [a] + [b] == [a, b];
    assert Decimal([a]) == DigitValue(a) by {
      assert [a][..0] == [];
    }
    assert Decimal([a, b]) == Decimal([a]) * 10 + DigitValue(b) by {
      assert [a, b][..1] == [a];
    }
    ToIOfLeadingDigit([a, '_', b]);
  }

  lemma DoubledUnderscore(a: char, b: char)
    requires IsDigit(a) && IsDigit(b)
    ensures ToI([a, '_', '_', b]) == DigitValue(a)
  {
    DigitRunStopsAtUnderscore([a], ['_', b]);
    assert [a] + ['_'] + ['_', b] == [a, '_', '_', b];
    ToIOfLeadingDigit([a, '_', '_', b]);
  }

  lemma TrailingUnderscore(a: char)
    requires IsDigit(a)
    ensures ToI([a, '_']) == DigitValue(a)
  {
    DigitRunStopsAtUnderscore([a], []);
    assert [a] + ['_'] + [] == [a, '_'];
    ToIOfLeadingDigit([a, '_']);
  }

  /** Without a digit in front, there is neither a radix prefix nor a digit run. */
  lemma NoLeadingDigit(u: string)
    requires u == [] || !IsDigit(u[0])
    ensures UnsignedValue(u) == 0
  {
  }

  /** The two-space indent of a menu line does not change what `to_i` reads. */
  lemma ToISkipsIndent(x: string)
    requires x == [] || !IsSpace(x[0])
    ensures ToI("  " + x) == ToI(x)
  {
    var s := "  " + x;
    assert s[0] == ' ' && s[1..][0] == ' ';
    assert s[1..][1..] == x;
    assert SkipSpaces(s) == SkipSpaces(s[1..]) == SkipSpaces(x) == x;
  }
}
