/** Member codes: the letter `M` followed by the decimal rendering of the
    sequence counter's value. */
module MemberCodes {

  predicate IsDigit(c: char) {
    '0' <= c <= '9'
  }

  function DigitChar(d: nat): (c: char)
    requires d < 10
    ensures IsDigit(c)
  {
    (48 + d) as char
  }

  function DigitValue(c: char): (d: nat)
    requires IsDigit(c)
    ensures d < 10
  {
    (c as int - 48) as nat
  }

  /** The decimal rendering of `n`, without leading zeros. */
  function Decimal(n: nat): (s: string)
    ensures |s| > 0
    ensures forall i :: 0 <= i < |s| ==> IsDigit(s[i])
    ensures |s| > 1 ==> s[0] != '0'
  {
    if n < 10 then [DigitChar(n)] else Decimal(n / 10) + [DigitChar(n % 10)]
  }

  /** The value of a string of decimal digits. */
  function ParseDecimal(s: string): nat
    requires forall i :: 0 <= i < |s| ==> IsDigit(s[i])
  {
    if |s| == 0 then 0 else 10 * ParseDecimal(s[..|s| - 1]) + DigitValue(s[|s| - 1])
  }

  /** Reading a rendered number back gives the number. */
  lemma {:induction false} ParseDecimalInverts(n: nat)
    ensures ParseDecimal(Decimal(n)) == n
  {
    var s := Decimal(n);
    if n >= 10 {
      ParseDecimalInverts(n / 10);
      assert s[..|s| - 1] == Decimal(n / 10);
    }
  }

  /** Two numbers render alike only when they are equal. */
  lemma DecimalInjective(a: nat, b: nat)
    requires Decimal(a) == Decimal(b)
    ensures a == b
  {
    ParseDecimalInverts(a);
    ParseDecimalInverts(b);
  }

  /** The code issued for counter value `n`. */
  function MemberCode(n: nat): string {
    "M" + Decimal(n)
  }

  /** Distinct counter values give distinct member codes. */
  lemma MemberCodeInjective(a: nat, b: nat)
    requires a != b
    ensures MemberCode(a) != MemberCode(b)
  {
    if MemberCode(a) == MemberCode(b) {
      assert Decimal(a) == MemberCode(a)[1..];
      assert Decimal(b) == MemberCode(b)[1..];
      DecimalInjective(a, b);
    }
  }

  /** The root's literal code is the code of counter value 1000, and the
      first code issued after set-up is `M1001`. */
  lemma RootAndFirstCodes()
    ensures MemberCode(1000) == "M1000"
    ensures MemberCode(1001) == "M1001"
  {
    assert Decimal(1001) == Decimal(100) + "1";
  }
}
