/** The JS values the caches, URLs and billing keys are built from: a key
    number that may be null or undefined, its truthiness, and its rendering
    in a template literal. */
module JsValues {

  /** A key number as the code passes it around. */
  datatype KeyNumber = Null | Undefined | Number(n: int)

  /** JS truthiness of a key number: 0, null and undefined are falsy. */
  predicate Truthy(k: KeyNumber)
  {
    k.Number? && k.n != 0
  }

  function DigitChar(d: nat): (c: char)
    requires d < 10
    ensures '0' <= c <= '9'
  {
    "0123456789"[d]
  }

  /** `${n}` for a non-negative integer: its decimal digits. */
  function Digits10(n: nat): (s: string)
    ensures |s| >= 1
    ensures forall i :: 0 <= i < |s| ==> '0' <= s[i] <= '9'
    ensures n >= 10 ==> |s| >= 2
  {
    if n < 10 then [DigitChar(n)] else Digits10(n / 10) + [DigitChar(n % 10)]
  }

  /** `${n}` for an integer. */
  function Decimal(n: int): (s: string)
    ensures |s| >= 1
    ensures s[0] == '-' || '0' <= s[0] <= '9'
  {
    if n < 0 then "-" + Digits10(-n) else Digits10(n)
  }

  /** `${k}`. */
  function Text(k: KeyNumber): string
  {
    match k
    case Null => "null"
    case Undefined => "undefined"
    case Number(n) => Decimal(n)
  }

  lemma DigitCharInjective(a: nat, b: nat)
    requires a < 10 && b < 10 && DigitChar(a) == DigitChar(b)
    ensures a == b
  {
  }

  /** Different numbers have different decimal digits. */
  lemma {:induction false} Digits10Injective(a: nat, b: nat)
    requires Digits10(a) == Digits10(b)
    ensures a == b
  {
    var s := Digits10(a);
    if a < 10 && b < 10 {
      DigitCharInjective(a, b);
    } else if a >= 10 && b >= 10 {
      assert s[..|s| - 1] == Digits10(a / 10) && s[..|s| - 1] == Digits10(b / 10);
      Digits10Injective(a / 10, b / 10);
      DigitCharInjective(a % 10, b % 10);
    }
  }

  /** Different integers render differently. */
  lemma DecimalInjective(a: int, b: int)
    requires Decimal(a) == Decimal(b)
    ensures a == b
  {
    if a < 0 && b < 0 {
      assert Decimal(a)[1..] == Digits10(-a) && Decimal(b)[1..] == Digits10(-b);
      Digits10Injective(-a, -b);
    } else if a >= 0 && b >= 0 {
      Digits10Injective(a, b);
    }
  }

  /** `${k}` tells key numbers apart, null and undefined included. */
  lemma TextInjective(k: KeyNumber, k': KeyNumber)
    requires Text(k) == Text(k')
    ensures k == k'
  {
    if k.Number? && k'.Number? {
      DecimalInjective(k.n, k'.n);
    }
  }

  /** `${k}` never holds a single quote. */
  lemma TextNoQuote(k: KeyNumber)
    ensures forall i :: 0 <= i < |Text(k)| ==> Text(k)[i] != '\''
  {
  }

  lemma DecimalExamples()
    ensures Decimal(0) == "0" && Decimal(42) == "42" && Decimal(-7) == "-7"
  {
    assert Digits10(42) == Digits10(4) + [DigitChar(2)];
  }
}
