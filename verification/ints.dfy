/** Decimal integers as Python's `int(s)` reads them and `str(n)` writes them,
    restricted to ASCII digits. */
module Ints {
  import opened Wrappers
  import opened Text

  predicate IsDigit(c: char) {
    '0' <= c <= '9'
  }

  predicate AllDigits(s: string) {
    forall i :: 0 <= i < |s| ==> IsDigit(s[i])
  }

  function DigitValue(c: char): nat
    requires IsDigit(c)
  {
    (c as int) - ('0' as int)
  }

  function DigitChar(d: nat): (c: char)
    requires d < 10
    ensures IsDigit(c) && DigitValue(c) == d
  {
    (('0' as int) + d) as char
  }

  /** The number a string of decimal digits denotes, most significant first. */
  function Value(ds: string): nat
    requires AllDigits(ds)
  {
    if ds == [] then 0 else Value(ds[..|ds| - 1]) * 10 + DigitValue(ds[|ds| - 1])
  }

  /** Python's `str(n)` for `n >= 0`: the shortest decimal spelling of `n`. */
  function Decimal(n: nat): (ds: string)
    ensures |ds| >= 1 && AllDigits(ds)
    ensures Value(ds) == n
    ensures ds[0] == '0' ==> ds == "0"
    decreases n
  {
    if n < 10 then [DigitChar(n)]
    else
      var front := Decimal(n / 10);
      var ds := front + [DigitChar(n % 10)];
      assert ds[..|ds| - 1] == front;
      ds
  }

  /** Python's `str(n)` for any integer. */
  function IntToString(n: int): string {
    if n < 0 then "-" + Decimal(-n) else Decimal(n)
  }

  /** Dropping the underscores of digits-and-underscores leaves digits, and a
      final digit survives. */
  lemma {:induction false} DropUnderscoresDigits(s: string)
    requires forall i :: 0 <= i < |s| ==> IsDigit(s[i]) || s[i] == '_'
    ensures AllDigits(RemoveChar(s, '_'))
    ensures |s| >= 1 && s[|s| - 1] != '_' ==> |RemoveChar(s, '_')| >= 1
  {
    if s != [] {
      DropUnderscoresDigits(s[..|s| - 1]);
    }
  }

  predicate DoubleUnderscoreAt(t: string, i: int) {
    0 <= i < |t| - 1 && t[i] == '_' && t[i + 1] == '_'
  }

  /** The digit part Python's `int()` accepts in base 10: digits, where a single
      underscore may sit between two digits (digit, then any number of
      optional-underscore-and-digit). */
  predicate IsDigitRun(t: string) {
    && |t| >= 1
    && IsDigit(t[0])
    && IsDigit(t[|t| - 1])
    && (forall i :: 0 <= i < |t| ==> IsDigit(t[i]) || t[i] == '_')
    && (forall i :: 0 <= i < |t| ==> !DoubleUnderscoreAt(t, i))
  }

  lemma DigitRunDropsToDigits(t: string)
    requires IsDigitRun(t)
    ensures AllDigits(RemoveChar(t, '_')) && |RemoveChar(t, '_')| >= 1
  {
    DropUnderscoresDigits(t);
  }

  /** The value of a digit run, or `None` when `t` is not one. */
  function ParseUnsigned(t: string): Option<int>
  {
    if IsDigitRun(t) then
      DigitRunDropsToDigits(t);
      Some(Value(RemoveChar(t, '_')))
    else None
  }

  /** Python's `int(s)` on a string without surrounding whitespace: an optional
      sign, then a digit run. Anything else is the `ValueError` case, `None`. */
  function ParseLiteral(s: string): Option<int>
  {
    if |s| >= 1 && s[0] == '-' then
      var u := ParseUnsigned(s[1..]);
      if u.Some? then Some(-u.value) else None
    else if |s| >= 1 && s[0] == '+' then ParseUnsigned(s[1..])
    else ParseUnsigned(s)
  }

  /** A leading minus negates what the rest reads as. */
  lemma ParseMinus(t: string, v: int)
    requires |t| >= 1 && t[0] == '-'
    requires ParseUnsigned(t[1..]) == Some(v)
    ensures ParseLiteral(t) == Some(-v)
  {
  }

  /** A non-empty string of plain digits reads as the number it denotes. */
  lemma ParseDigits(ds: string)
    requires |ds| >= 1 && AllDigits(ds)
    ensures ParseUnsigned(ds) == Some(Value(ds) as int)
    ensures ParseLiteral(ds) == Some(Value(ds) as int)
  {
    assert IsDigitRun(ds);
    RemoveCharNone(ds, '_');
  }

  /** `int(str(n)) == n`: every integer's decimal spelling reads back as itself. */
  lemma ParseIntToString(n: int)
    ensures ParseLiteral(IntToString(n)) == Some(n)
  {
    var ds := Decimal(if n < 0 then -n else n);
    ParseDigits(ds);
    if n < 0 {
      var m := IntToString(n);
      assert m[1..] == ds;
      ParseMinus(m, Value(ds));
    }
  }

  /** On strings of digits and minus signs only, `int()` succeeds exactly on
      `ds` and `"-" + ds` for a non-empty digit string `ds`, with the value those
      digits denote; `""`, `"-"`, `"--1"` and `"12-3"` all raise. */
  lemma ParseDigitsAndMinus(s: string)
    requires forall i :: 0 <= i < |s| ==> IsDigit(s[i]) || s[i] == '-'
    ensures |s| >= 1 && AllDigits(s) ==> ParseLiteral(s) == Some(Value(s) as int)
    ensures |s| >= 2 && s[0] == '-' && AllDigits(s[1..]) ==> ParseLiteral(s) == Some(-(Value(s[1..]) as int))
    ensures !(|s| >= 1 && AllDigits(s)) && !(|s| >= 2 && s[0] == '-' && AllDigits(s[1..])) ==> ParseLiteral(s) == None
  {
    if |s| >= 1 && AllDigits(s) {
      assert IsDigit(s[0]);
      ParseDigits(s);
    } else if |s| >= 2 && s[0] == '-' && AllDigits(s[1..]) {
      ParseMinusDigits(s);
    } else if |s| >= 1 && s[0] == '-' {
      UnsignedNeedsDigits(s[1..]);
    } else {
      UnsignedNeedsDigits(s);
    }
  }

  /** A minus sign before a non-empty digit string reads as the negated value. */
  lemma ParseMinusDigits(s: string)
    requires |s| >= 2 && s[0] == '-' && AllDigits(s[1..])
    ensures ParseLiteral(s) == Some(-(Value(s[1..]) as int))
  {
    ParseDigits(s[1..]);
    ParseMinus(s, Value(s[1..]));
  }

  /** Without underscores, only a non-empty string of digits is a digit run. */
  lemma UnsignedNeedsDigits(t: string)
    requires forall i :: 0 <= i < |t| ==> t[i] != '_'
    requires |t| == 0 || !AllDigits(t)
    ensures ParseUnsigned(t) == None
  {
    if |t| >= 1 {
      var k :| 0 <= k < |t| && !IsDigit(t[k]);
    }
  }
}
