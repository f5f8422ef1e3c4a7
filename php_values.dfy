/** Scalar values as the text element sees them: properties of course and
    user records, PHP's `empty()` test on them, and PHP's conversions
    between integers and decimal strings. */
module PhpValues {

  datatype Option<T> = None | Some(value: T)

  /** A property value of a course or user record: PHP null or a string
      (the database layer hands every column back as a string). */
  datatype Value = Null | Str(s: string)

  /** PHP's `empty()` on a value: null, "" and "0" are empty. */
  predicate IsEmpty(v: Value)
    ensures IsEmpty(v) ==> IntVal(v) == 0
  {
    v == Null || v == Str("") || v == Str("0")
  }

  /** PHP's `empty($array[$key])`: a missing key is judged like null. */
  predicate IsEmptyEntry(e: Option<Value>)
    ensures IsEmptyEntry(e) <==> IsEmpty(if e.Some? then e.value else Null)
  {
    e.None? || IsEmpty(e.value)
  }

  /** The string a value becomes when PHP concatenates or substitutes it
      (null becomes ""). */
  function AsString(v: Value): (r: string)
    ensures r == "" || r == "0" <==> IsEmpty(v)
  {
    match v
    case Null => ""
    case Str(s) => s
  }

  predicate IsDigit(c: char) {
    '0' <= c <= '9'
  }

  predicate AllDigits(s: string) {
    forall i :: 0 <= i < |s| ==> IsDigit(s[i])
  }

  function DigitChar(d: nat): (c: char)
    requires d < 10
    ensures IsDigit(c)
  {
    ('0' as int + d) as char
  }

  function DigitValue(c: char): (d: nat)
    requires IsDigit(c)
    ensures d < 10 && DigitChar(d) == c
  {
    c as int - '0' as int
  }

  /** PHP's conversion of a non-negative integer to its decimal string. */
  function NatToString(n: nat): (r: string)
    ensures |r| > 0 && AllDigits(r)
    ensures |r| > 1 ==> r[0] != '0'
  {
    if n < 10 then [DigitChar(n)] else NatToString(n / 10) + [DigitChar(n % 10)]
  }

  /** The number a string of decimal digits denotes. */
  function DigitsValue(s: string): nat
    requires AllDigits(s)
  {
    if s == [] then 0 else DigitsValue(s[..|s| - 1]) * 10 + DigitValue(s[|s| - 1])
  }

  /** The longest prefix of `s` made of decimal digits. */
  function LeadingDigits(s: string): (r: string)
    ensures AllDigits(r) && r <= s
    ensures |r| < |s| ==> !IsDigit(s[|r|])
  {
    if s == [] || !IsDigit(s[0]) then [] else [s[0]] + LeadingDigits(s[1..])
  }

  /** PHP's `intval()` on a property value, for the non-negative values the
      duration fields hold: the value of the leading decimal digits, 0 for
      null or for a string that does not start with a digit. */
  function IntVal(v: Value): (r: nat)
    ensures v.Str? && AllDigits(v.s) ==> r == DigitsValue(v.s)
  {
    match v
    case Null => 0
    case Str(s) =>
      assert AllDigits(s) ==> LeadingDigits(s) == s by {
        if AllDigits(s) {
          LeadingDigitsOfDigits(s, []);
          assert s + [] == s;
        }
      }
      DigitsValue(LeadingDigits(s))
  }

  lemma {:induction false} LeadingDigitsOfDigits(s: string, rest: string)
    requires AllDigits(s)
    requires rest == [] || !IsDigit(rest[0])
    ensures LeadingDigits(s + rest) == s
  {
    if s != [] {
      assert (s + rest)[1..] == s[1..] + rest;
      LeadingDigitsOfDigits(s[1..], rest);
    } else {
      assert s + rest == rest;
    }
  }

  lemma {:induction false} DigitsValueOfNatToString(n: nat)
    ensures DigitsValue(NatToString(n)) == n
  {
    if n >= 10 {
      var r := NatToString(n);
      assert r[..|r| - 1] == NatToString(n / 10);
      DigitsValueOfNatToString(n / 10);
    }
  }

  /** `intval` reads back the number that was printed, even when the digits
      are followed by text that does not start with a digit (such as " day "). */
  lemma IntValOfNatToString(n: nat, rest: string)
    requires rest == [] || !IsDigit(rest[0])
    ensures IntVal(Str(NatToString(n) + rest)) == n
  {
    LeadingDigitsOfDigits(NatToString(n), rest);
    DigitsValueOfNatToString(n);
  }
}
