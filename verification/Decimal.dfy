// Decimal numerals: printing, their value, and checked parsing.
module Decimal {
  import opened Options
  import opened Bytes

  function DigitOf(d: nat): Byte
    requires d < 10
  {
    (d + '0' as int) as char
  }

  function DigitValue(b: Byte): nat
    requires IsDigit(b)
  {
    b as int - '0' as int
  }

  predicate AllDigits(s: seq<Byte>) { forall i | 0 <= i < |s| :: IsDigit(s[i]) }

  function Value(s: seq<Byte>): nat
    requires AllDigits(s)
  {
    if s == [] then 0 else Value(s[..|s| - 1]) * 10 + DigitValue(s[|s| - 1])
  }

  /** Positional notation: each further digit, by its code, comes after ten times what precedes it. */
  lemma ValueByPosition(s: seq<Byte>, d: Byte)
    requires AllDigits(s) && 48 <= d as int <= 57
    ensures AllDigits(s + [d]) && Value(s + [d]) == 10 * Value(s) + (d as int - 48)
    ensures Value([]) == 0
  {
    assert (s + [d])[..|s|] == s;
  }

  /** Canonical numeral of a natural number. */
  function Numeral(n: nat): (s: seq<Byte>)
    ensures s != [] && AllDigits(s)
  {
    if n < 10 then [DigitOf(n)] else Numeral(n / 10) + [DigitOf(n % 10)]
  }

  lemma {:induction false} NumeralValue(n: nat)
    ensures Value(Numeral(n)) == n
  {
    if n < 10 {
      assert Numeral(n)[..0] == [];
    } else {
      NumeralValue(n / 10);
      assert Numeral(n)[..|Numeral(n)| - 1] == Numeral(n / 10);
    }
  }

  /** Only zero is printed with a leading zero. */
  lemma {:induction false} NumeralLeads(n: nat)
    ensures Numeral(n)[0] == '0' <==> n == 0
  {
    if n >= 10 { NumeralLeads(n / 10); }
  }

  lemma {:induction false} PrefixValue(s: seq<Byte>, n: nat)
    requires AllDigits(s) && n <= |s|
    ensures Value(s[..n]) <= Value(s)
    decreases |s|
  {
    if n < |s| {
      PrefixValue(s[..|s| - 1], n);
      assert s[..|s| - 1][..n] == s[..n];
    } else {
      assert s[..n] == s;
    }
  }

  // ----- Unsigned 32-bit parsing -----

  const UINT32_MAX: nat := 0xFFFF_FFFF

  function CheckedMul(x: nat, y: nat): Option<nat> {
    if x * y <= UINT32_MAX then Some(x * y) else None
  }

  function CheckedAdd(x: nat, y: nat): Option<nat> {
    if x + y <= UINT32_MAX then Some(x + y) else None
  }

  /** Left-to-right accumulation that gives up at the first overflow. */
  function CheckedFold(digits: seq<Byte>): Option<nat>
    requires AllDigits(digits)
  {
    if digits == [] then Some(0)
    else match CheckedFold(digits[..|digits| - 1])
      case None => None
      case Some(value) =>
        match CheckedMul(value, 10)
        case None => None
        case Some(shifted) => CheckedAdd(shifted, DigitValue(digits[|digits| - 1]))
  }

  function ParseDecimal(digits: seq<Byte>): Option<nat> {
    if digits == [] || !AllDigits(digits) then None else CheckedFold(digits)
  }

  lemma {:induction false} CheckedFoldExact(digits: seq<Byte>)
    requires AllDigits(digits)
    ensures CheckedFold(digits) == if Value(digits) <= UINT32_MAX then Some(Value(digits)) else None
  {
    if digits != [] { CheckedFoldExact(digits[..|digits| - 1]); }
  }

  /** Parsing yields v exactly for nonempty digit strings of value v within 32 bits. */
  lemma ParseDecimalExact(digits: seq<Byte>, v: nat)
    ensures ParseDecimal(digits) == Some(v)
      <==> (digits != [] && AllDigits(digits) && Value(digits) == v && v <= 4294967295)
  {
    if AllDigits(digits) { CheckedFoldExact(digits); }
  }

  lemma ParseNumeral(n: nat)
    requires n <= UINT32_MAX
    ensures ParseDecimal(Numeral(n)) == Some(n)
  {
    NumeralValue(n);
    ParseDecimalExact(Numeral(n), n);
  }
}
