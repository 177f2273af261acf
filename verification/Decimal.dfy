/**
 Decimal printing of unsigned numbers and their parsing by `str::parse`.
 */
module Decimal {
  import opened Text

  predicate IsDigit(c: char) {
    '0' <= c <= '9'
  }

  function DigitValue(c: char): (d: nat)
    requires IsDigit(c)
    ensures d < 10
  {
    c as int - '0' as int
  }

  function DigitChar(d: nat): (c: char)
    requires d < 10
    ensures IsDigit(c) && DigitValue(c) == d
  {
    ('0' as int + d) as char
  }

  function Print(n: nat): (s: string)
    ensures s != [] && forall c | c in s :: IsDigit(c)
  {
    if n < 10 then [DigitChar(n)] else Print(n / 10) + [DigitChar(n % 10)]
  }

  function Value(s: string): nat
    requires forall c | c in s :: IsDigit(c)
  {
    if s == [] then 0 else Value(s[..|s| - 1]) * 10 + DigitValue(s[|s| - 1])
  }

  /** Digits after at most one plus sign, of a value that fits. */
  function Parse(s: string, max: nat): Option<nat> {
    var digits := if s != [] && s[0] == '+' then s[1..] else s;
    if digits != [] && (forall c | c in digits :: IsDigit(c)) && Value(digits) <= max then Some(Value(digits)) else None
  }

  lemma {:induction false} ValueOfPrint(n: nat)
    ensures Value(Print(n)) == n
  {
    if n >= 10 {
      ValueOfPrint(n / 10);
      var s := Print(n);
      assert s[..|s| - 1] == Print(n / 10);
    } else {
      assert [DigitChar(n)][..0] == [];
    }
  }

  /** Every number that fits is read back from its printed form. */
  lemma ParseOfPrint(n: nat, max: nat)
    requires n <= max
    ensures Parse(Print(n), max) == Some(n)
  {
    ValueOfPrint(n);
    assert IsDigit(Print(n)[0]);
  }

  /** One plus sign in front is passed over; nothing, or a sign alone, is not a number; larger numbers are refused. */
  lemma ParseEdges(n: nat, max: nat)
    ensures Parse("+" + Print(n), max) == if n <= max then Some(n) else None
    ensures Parse(Print(n), max) == if n <= max then Some(n) else None
    ensures Parse("", max) == None && Parse("+", max) == None
  {
    ValueOfPrint(n);
    assert ("+" + Print(n))[1..] == Print(n);
    assert IsDigit(Print(n)[0]);
    assert "+"[1..] == "";
  }

  /** The notation is the usual one: the last digit is the remainder, and the digits are `0` to `9`. */
  lemma PrintIsDecimal(n: nat, d: nat)
    requires n > 0 && d < 10
    ensures Print(10 * n + d) == Print(n) + Print(d)
    ensures Print(d) == ["0123456789"[d]]
  {
    assert (10 * n + d) / 10 == n && (10 * n + d) % 10 == d;
  }

  /** A text with anything but digits, and a plus sign in front, is not a number. */
  lemma ParseRejects(s: string, max: nat, c: char)
    requires c in s && !IsDigit(c) && c != '+'
    ensures Parse(s, max) == None
  {
    if s[0] == '+' {
      assert c in s[1..];
    }
  }
}
