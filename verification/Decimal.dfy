/** Decimal text of unsigned integers, as `to_string` prints it and `parse::<usize>` reads it. */
module Decimal {
  const USIZE_MAX: nat := 0xFFFF_FFFF_FFFF_FFFF

  datatype Parsed = Value(n: nat) | Malformed

  predicate IsDigit(c: char) {
    '0' <= c <= '9'
  }

  function DigitOf(d: nat): char
    requires d < 10
  {
    '0' + d as char
  }

  function DigitValue(c: char): nat
    requires IsDigit(c)
  {
    c as int - '0' as int
  }

  function Print(n: nat): (s: string)
    ensures |s| > 0 && forall c :: c in s ==> IsDigit(c)
  {
    if n < 10 then [DigitOf(n)] else Print(n / 10) + [DigitOf(n % 10)]
  }

  function ValueOf(s: string): nat
    requires forall c :: c in s ==> IsDigit(c)
  {
    if s == [] then 0
    else
      var last := s[|s| - 1];
      assert last in s;
      10 * ValueOf(s[..|s| - 1]) + DigitValue(last)
  }

  /** One leading `+` is allowed, empty text and values beyond `usize` are not. */
  function Parse(s: string): Parsed {
    var digits := if |s| > 0 && s[0] == '+' then s[1..] else s;
    if digits == [] || exists c :: c in digits && !IsDigit(c) then Malformed
    else if ValueOf(digits) > USIZE_MAX then Malformed
    else Value(ValueOf(digits))
  }

  lemma {:induction false} ValueOfPrint(n: nat)
    ensures ValueOf(Print(n)) == n
  {
    var s := Print(n);
    if n >= 10 {
      ValueOfPrint(n / 10);
      assert s[..|s| - 1] == Print(n / 10);
    } else {
      assert s[..|s| - 1] == [];
    }
  }

  lemma {:induction false} ParsePrint(n: nat)
    requires n <= USIZE_MAX
    ensures Parse(Print(n)) == Value(n)
  {
    ValueOfPrint(n);
    var s := Print(n);
    assert s[0] in s;
  }

  lemma {:induction false} PrintInjective(m: nat, n: nat)
    requires Print(m) == Print(n)
    ensures m == n
  {
    ValueOfPrint(m);
    ValueOfPrint(n);
  }

  /** Exactly the numbers that fit are read back from their text. */
  lemma {:induction false} ParsePrintIff(n: nat)
    ensures Parse(Print(n)) == (if n <= USIZE_MAX then Value(n) else Malformed)
    ensures Parse("+" + Print(n)) == Parse(Print(n))
  {
    ValueOfPrint(n);
    var s := Print(n);
    assert s[0] in s;
    assert ("+" + s)[1..] == s;
  }

  /** Text that is empty, or holds anything but digits behind an optional sign, is refused. */
  lemma {:induction false} NotANumber(s: string, c: char)
    requires s == [] || s == "+" || (c in s[1..] && !('0' <= c <= '9')) || (s[0] == c && c != '+' && !('0' <= c <= '9'))
    ensures Parse(s) == Malformed
  {
    if s != [] && s != "+" {
      var digits := if s[0] == '+' then s[1..] else s;
      assert s[0] in s && (c in s[1..] ==> c in s);
      assert c in digits && !IsDigit(c);
    }
  }
}
