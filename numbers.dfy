/**
 * Decimal rendering (`str(n)` / an f-string) and parsing (`int(s)`) of
 * integers, as Python does them for the inputs the handlers see.
 */
module Numbers {
  import opened Wrappers
  import opened Text

  predicate IsDigit(c: char) {
    '0' <= c <= '9'
  }

  function DigitValue(c: char): (d: nat)
    requires IsDigit(c)
    ensures d < 10
  {
    (c as int) - ('0' as int)
  }

  function DigitChar(d: nat): (c: char)
    requires d < 10
    ensures IsDigit(c) && DigitValue(c) == d
  {
    (('0' as int) + d) as char
  }

  /** `str(n)` for a natural number: its shortest decimal digits. */
  function Decimal(n: nat): (s: string)
    ensures |s| >= 1
    ensures forall k :: 0 <= k < |s| ==> IsDigit(s[k])
    ensures |s| > 1 ==> s[0] != '0'
  {
    if n < 10 then [DigitChar(n)] else Decimal(n / 10) + [DigitChar(n % 10)]
  }

  /** The digit strings `int()` accepts: decimal digits, with single
      underscores allowed between two digits. */
  predicate IsGroupedDigits(s: string) {
    && |s| > 0 && IsDigit(s[0]) && IsDigit(s[|s| - 1])
    && (forall k :: 0 <= k < |s| ==> IsDigit(s[k]) || s[k] == '_')
    && (forall j, k :: 0 <= j < |s| && 0 <= k < |s| && k == j + 1 && s[j] == '_' ==> IsDigit(s[k]))
  }

  /** The value of a string of digits and underscores, the underscores ignored. */
  function GroupedValue(s: string): nat
    requires forall k :: 0 <= k < |s| ==> IsDigit(s[k]) || s[k] == '_'
  {
    if |s| == 0 then 0
    else
      var v := GroupedValue(s[..|s| - 1]);
      if s[|s| - 1] == '_' then v else 10 * v + DigitValue(s[|s| - 1])
  }

  /** U+001C..U+001F: whitespace to `str.isspace()`, but `int()` keeps every
      code point below 127 as it is and its own whitespace skip covers only
      space and `\t\n\v\f\r`, so for `int()` they are stray characters. */
  predicate IsInfoSeparator(c: char) {
    '\U{1C}' <= c <= '\U{1F}'
  }

  /** Python's `int(s)`: surrounding whitespace, an optional sign, then grouped
      decimal digits; anything else raises ValueError (here `None`). */
  function PyInt(s: string): (r: Option<int>)
    ensures r.Some? ==> Strip(s) != []
    ensures r.Some? ==> forall k :: 0 <= k < |s| ==> !IsInfoSeparator(s[k])
  {
    if exists k :: 0 <= k < |s| && IsInfoSeparator(s[k]) then None
    else
      var t := Strip(s);
      if |t| > 0 && (t[0] == '+' || t[0] == '-') then
        var digits := t[1..];
        if IsGroupedDigits(digits) then
          var magnitude: int := GroupedValue(digits);
          Some(if t[0] == '-' then -magnitude else magnitude)
        else None
      else if IsGroupedDigits(t) then Some(GroupedValue(t))
      else None
  }

  /** Reading back a rendered number: `int(str(n)) == n`. */
  lemma {:induction false} GroupedValueDecimal(n: nat)
    ensures GroupedValue(Decimal(n)) == n
  {
    if n >= 10 {
      GroupedValueDecimal(n / 10);
      var s := Decimal(n);
      assert s[..|s| - 1] == Decimal(n / 10);
    }
  }

  lemma PyIntDecimal(n: nat)
    ensures PyInt(Decimal(n)) == Some(n)
  {
    var s := Decimal(n);
    StripUnpadded(s);
    AllDigitsGrouped(s);
    GroupedValueDecimal(n);
  }

  /** A plain string of digits is a grouped digit string with no underscore. */
  lemma AllDigitsGrouped(s: string)
    requires |s| > 0 && forall k :: 0 <= k < |s| ==> IsDigit(s[k])
    ensures IsGroupedDigits(s) && !IsSpace(s[0]) && !IsSpace(s[|s| - 1]) && s[0] != '+' && s[0] != '-'
  {
  }

  /** Two-digit zero-padded rendering, as in the "HH:MM" of a clock time. */
  function Pad2(n: nat): (s: string)
    requires n < 100
    ensures |s| == 2 && IsDigit(s[0]) && IsDigit(s[1])
  {
    if n < 10 then ['0', DigitChar(n)]
    else
      assert Decimal(n) == Decimal(n / 10) + [DigitChar(n % 10)] == [DigitChar(n / 10), DigitChar(n % 10)];
      Decimal(n)
  }

  /** Reading back a zero-padded number: `int("09") == 9`. */
  lemma PyIntPad2(n: nat)
    requires n < 100
    ensures PyInt(Pad2(n)) == Some(n)
  {
    var s := Pad2(n);
    StripUnpadded(s);
    AllDigitsGrouped(s);
    if n < 10 {
      assert s[..1] == ['0'] && s[..1][..0] == [];
      assert GroupedValue(s[..1]) == 0;
    } else {
      GroupedValueDecimal(n);
    }
  }

  /** Different numbers are rendered differently. */
  lemma DecimalInjective(m: nat, n: nat)
    requires Decimal(m) == Decimal(n)
    ensures m == n
  {
    PyIntDecimal(m);
    PyIntDecimal(n);
  }
}
