/** Small string and option helpers shared by every component of the site:
    decimal digits the way JavaScript's `Number`, `parseInt` and template strings
    read and print them, and `padStart(2, '0')`. */
module Text {

  datatype Option<T> = None | Some(value: T)

  datatype Result<T, E> = Ok(value: T) | Err(error: E)

  predicate IsDigit(c: char) {
    '0' <= c <= '9'
  }

  predicate AllDigits(s: string) {
    forall i :: 0 <= i < |s| ==> IsDigit(s[i])
  }

  function DigitValue(c: char): (v: nat)
    requires IsDigit(c)
    ensures v < 10
  {
    c as int - '0' as int
  }

  function DigitChar(n: nat): (c: char)
    requires n < 10
    ensures IsDigit(c) && DigitValue(c) == n
  {
    ('0' as int + n) as char
  }

  /** The value of a string of decimal digits, as `Number(s)` reads it
      (leading zeros allowed: `Number("09") == 9`). */
  function DecimalValue(s: string): nat
    requires AllDigits(s)
  {
    if s == [] then 0 else DecimalValue(s[..|s| - 1]) * 10 + DigitValue(s[|s| - 1])
  }

  /** The decimal rendering of a natural number without padding, as a template
      string `${n}` or `n.toString()` prints it. */
  function NatToString(n: nat): (s: string)
    ensures 1 <= |s| && AllDigits(s)
    ensures n < 10 <==> |s| == 1
    ensures n >= 10 ==> s[0] != '0'
    decreases n
  {
    if n < 10 then [DigitChar(n)] else NatToString(n / 10) + [DigitChar(n % 10)]
  }

  /** Reading back what `NatToString` printed gives the number again. */
  lemma {:induction false} DecimalOfNatToString(n: nat)
    ensures DecimalValue(NatToString(n)) == n
    decreases n
  {
    if n >= 10 {
      var s := NatToString(n);
      assert s[..|s| - 1] == NatToString(n / 10);
      DecimalOfNatToString(n / 10);
    }
  }

  /** `NatToString` never maps two numbers to the same text. */
  lemma NatToStringInjective(a: nat, b: nat)
    requires NatToString(a) == NatToString(b)
    ensures a == b
  {
    DecimalOfNatToString(a);
    DecimalOfNatToString(b);
  }

  /** `n.toString().padStart(2, '0')` for a number below 100. */
  function Pad2(n: nat): (s: string)
    requires n < 100
    ensures |s| == 2 && AllDigits(s)
    ensures DecimalValue(s) == n
  {
    DecimalOfNatToString(n);
    if n < 10 then
      var r := "0" + NatToString(n);
      assert r[..1] == "0";
      r
    else
      NatToString(n)
  }

  /** The value of a two-digit string. */
  lemma DecimalValueOfTwo(s: string)
    requires |s| == 2 && AllDigits(s)
    ensures DecimalValue(s) == DigitValue(s[0]) * 10 + DigitValue(s[1])
  {
    var head := s[..1];
    assert head[..0] == [];
    assert DecimalValue(head) == DigitValue(s[0]);
    assert s[..|s| - 1] == head;
  }

  /** Two-digit strings are determined by their value. */
  lemma Pad2OfValue(s: string)
    requires |s| == 2 && AllDigits(s)
    ensures DecimalValue(s) < 100
    ensures Pad2(DecimalValue(s)) == s
  {
    DecimalValueOfTwo(s);
    var v := DecimalValue(s);
    var p := Pad2(v);
    DecimalValueOfTwo(p);
    assert p[1] == s[1];
    assert p[0] == s[0];
  }
}
