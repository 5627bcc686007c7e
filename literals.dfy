/**
 * Decimal integer literals as `Integer.valueOf`, `Long.valueOf` and
 * `Byte.valueOf` read them: an optional `-` or `+`, then one or more digits,
 * and a value inside the type's range; anything else is a
 * `NumberFormatException`. Only the ASCII digits are modelled.
 */
module Literals {
  import opened Wrappers
  import opened JavaText

  const IntMin := -0x8000_0000
  const IntMax := 0x7FFF_FFFF
  const LongMin := -0x8000_0000_0000_0000
  const LongMax := 0x7FFF_FFFF_FFFF_FFFF
  const ByteMin := -0x80
  const ByteMax := 0x7F

  predicate IsDigit(c: CodeUnit) {
    '0' as int <= c <= '9' as int
  }

  predicate AllDigits(s: JString) {
    forall i :: 0 <= i < |s| ==> IsDigit(s[i])
  }

  /** The value of a string of decimal digits, most significant first. */
  function DigitsValue(s: JString): nat
    requires AllDigits(s)
  {
    if s == [] then 0 else DigitsValue(s[..|s| - 1]) * 10 + (s[|s| - 1] - '0' as int)
  }

  /** The digits after an optional leading sign. */
  function Unsigned(s: JString): JString {
    if s != [] && (s[0] == '-' as int || s[0] == '+' as int) then s[1..] else s
  }

  /** The mathematical value of a signed decimal literal, or None when it is not one. */
  function ParseDecimal(s: JString): (r: Option<int>)
    ensures r.Some? <==> Unsigned(s) != [] && AllDigits(Unsigned(s))
    ensures r.Some? ==> r.value == if s[0] == '-' as int then -(DigitsValue(Unsigned(s)) as int) else DigitsValue(Unsigned(s))
  {
    var d := Unsigned(s);
    if d == [] || !AllDigits(d) then None
    else if s[0] == '-' as int then Some(-(DigitsValue(d) as int))
    else Some(DigitsValue(d))
  }

  /** A literal parsed by a `valueOf` whose type holds `lo..hi`. */
  function ParseInRange(s: JString, lo: int, hi: int): (r: Option<int>)
    ensures r.Some? <==> ParseDecimal(s).Some? && lo <= ParseDecimal(s).value <= hi
    ensures r.Some? ==> r == ParseDecimal(s)
  {
    match ParseDecimal(s)
    case Some(v) => if lo <= v <= hi then Some(v) else None
    case None => None
  }

  /** `Integer.valueOf`. */
  function ParseInt(s: JString): Option<int> { ParseInRange(s, IntMin, IntMax) }

  /** `Long.valueOf`. */
  function ParseLong(s: JString): Option<int> { ParseInRange(s, LongMin, LongMax) }

  /** `Byte.valueOf`. */
  function ParseByte(s: JString): Option<int> { ParseInRange(s, ByteMin, ByteMax) }

  /** The shortest decimal spelling of a natural number. */
  function FormatNat(n: nat): (s: JString)
    ensures s != [] && AllDigits(s)
  {
    if n < 10 then ['0' as int + n] else FormatNat(n / 10) + ['0' as int + n % 10]
  }

  /** The decimal spelling `Integer.toString` gives, with `-` for negatives. */
  function FormatDecimal(v: int): JString {
    if v < 0 then ['-' as int] + FormatNat(-v) else FormatNat(v)
  }

  lemma {:induction false} DigitsValueFormatNat(n: nat)
    ensures DigitsValue(FormatNat(n)) == n
  {
    if n >= 10 {
      var s := FormatNat(n);
      assert s[..|s| - 1] == FormatNat(n / 10);
      DigitsValueFormatNat(n / 10);
    }
  }

  /** Parsing the decimal spelling of any integer gives the integer back. */
  lemma ParseFormatDecimal(v: int)
    ensures ParseDecimal(FormatDecimal(v)) == Some(v)
  {
    var s := FormatDecimal(v);
    if v < 0 {
      assert Unsigned(s) == FormatNat(-v);
      DigitsValueFormatNat(-v);
    } else {
      assert Unsigned(s) == FormatNat(v);
      DigitsValueFormatNat(v);
    }
  }

  /** So every value of a type is accepted by its `valueOf` when spelled in decimal. */
  lemma ParseIntFormat(v: int)
    requires IntMin <= v <= IntMax
    ensures ParseInt(FormatDecimal(v)) == Some(v)
  {
    ParseFormatDecimal(v);
  }

  /** A lone sign, or a sign followed by anything but digits, is rejected. */
  lemma LoneSignRejected(s: JString)
    requires s == Lit("-") || s == Lit("+")
    ensures ParseDecimal(s).None?
  {
    assert Unsigned(s) == [];
  }
}
