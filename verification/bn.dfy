/** The alphabet numeral codec of lib/structured/Bn.js: a string over an
    arbitrary ordered alphabet read as a base-|alphabet| integer, most
    significant symbol first, and back. The symbol at index i of the
    alphabet stands for digit i. */
module Bn {
  import opened Wrappers
  import opened Numerals
  import opened StrUtils

  /** `alpha.indexOf(c)`: the first index holding `c`, or -1. */
  function IndexOf(alpha: string, c: char): (r: int)
    ensures -1 <= r < |alpha|
    ensures r == -1 <==> c !in alpha
    ensures r >= 0 ==> alpha[r] == c && c !in alpha[..r]
  {
    if |alpha| == 0 then -1
    else if alpha[0] == c then 0
    else
      var k := IndexOf(alpha[1..], c);
      assert alpha[1..][..k + 1] == alpha[1..k + 2] by {
        if k >= 0 {
          assert alpha[1..][..k + 1] == alpha[1..k + 2];
        }
      }
      if k < 0 then -1 else k + 1
  }

  /** Every symbol of `s` belongs to `alpha`. */
  predicate AllIn(s: string, alpha: string)
  {
    forall i :: 0 <= i < |s| ==> s[i] in alpha
  }

  /** No symbol occurs twice in `alpha`; the source assumes this and does
      not check it. */
  predicate Distinct(alpha: string)
  {
    forall i, j :: 0 <= i < j < |alpha| ==> alpha[i] != alpha[j]
  }

  /** The digit values of the symbols of `s`. */
  function Indices(s: string, alpha: string): (d: seq<nat>)
    requires AllIn(s, alpha)
    ensures |d| == |s| && IsDigits(d, |alpha|)
    ensures forall i :: 0 <= i < |s| ==> alpha[d[i]] == s[i]
  {
    seq(|s|, i requires 0 <= i < |s| => IndexOf(alpha, s[i]) as nat)
  }

  /** The symbols standing for the digits `d`. */
  function Symbols(alpha: string, d: seq<nat>): (s: string)
    requires IsDigits(d, |alpha|)
    ensures |s| == |d| && AllIn(s, alpha)
    ensures forall i :: 0 <= i < |d| ==> s[i] == alpha[d[i]]
  {
    seq(|d|, i requires 0 <= i < |d| => alpha[d[i]])
  }

  lemma IndexOfDistinct(alpha: string, i: nat)
    requires Distinct(alpha) && i < |alpha|
    ensures IndexOf(alpha, alpha[i]) == i
  {
  }

  lemma SymbolsOfIndices(s: string, alpha: string)
    requires AllIn(s, alpha)
    ensures Symbols(alpha, Indices(s, alpha)) == s
  {
  }

  lemma IndicesOfSymbols(alpha: string, d: seq<nat>)
    requires Distinct(alpha) && IsDigits(d, |alpha|)
    ensures Indices(Symbols(alpha, d), alpha) == d
  {
    var s := Symbols(alpha, d);
    forall i | 0 <= i < |d|
      ensures Indices(s, alpha)[i] == d[i]
    {
      IndexOfDistinct(alpha, d[i]);
    }
  }

  lemma IndicesSuffix(s: string, alpha: string, k: nat)
    requires AllIn(s, alpha) && k <= |s|
    ensures AllIn(s[k..], alpha) && Indices(s[k..], alpha) == Indices(s, alpha)[k..]
  {
  }

  // ---------------------------------------------------------------------
  // bigint_set_str

  /** One iteration of the loop of bigint_set_str: the symbol at
      |s| - 1 - i is prepended to the digits already read. */
  lemma SetStrStep(s: string, alpha: string, i: nat, x: nat, m: nat, pos: nat)
    requires |alpha| > 0 && i < |s|
    requires AllIn(s[|s| - i..], alpha)
    requires x == Num(Indices(s[|s| - i..], alpha), |alpha|) && m == Pow(|alpha|, i)
    requires pos == IndexOf(alpha, s[|s| - 1 - i])
    ensures AllIn(s[|s| - (i + 1)..], alpha)
    ensures pos * m + x == Num(Indices(s[|s| - (i + 1)..], alpha), |alpha|)
    ensures |alpha| * m == Pow(|alpha|, i + 1)
  {
    var k := |s| - 1 - i;
    assert k + 1 == |s| - i && |s| - (i + 1) == k;
    IndicesSuffixCons(s, alpha, k);
    var rest := Indices(s[k + 1..], alpha);
    assert |rest| == i;
    NumCons(pos, rest, |alpha|);
  }

  /** The digits of a suffix are the digit of its first symbol followed
      by the digits of the rest. */
  lemma IndicesSuffixCons(s: string, alpha: string, k: nat)
    requires k < |s| && s[k] in alpha && AllIn(s[k + 1..], alpha)
    ensures AllIn(s[k..], alpha)
    ensures Indices(s[k..], alpha) == [IndexOf(alpha, s[k]) as nat] + Indices(s[k + 1..], alpha)
  {
    forall j | 0 <= j < |s[k..]|
      ensures s[k..][j] in alpha
    {
      if j > 0 {
        assert s[k..][j] == s[k + 1..][j - 1];
      }
    }
    var l := Indices(s[k..], alpha);
    var r := [IndexOf(alpha, s[k]) as nat] + Indices(s[k + 1..], alpha);
    forall j | 0 <= j < |l|
      ensures l[j] == r[j]
    {
      if j > 0 {
        assert s[k..][j] == s[k + 1..][j - 1];
      }
    }
  }

  /** The loop of bigint_set_str from iteration `i` on, with the value `x`
      of the last `i` symbols and the multiplier `m` = radix^i. */
  function SetStrLoop(s: string, alpha: string, i: nat, x: nat, m: nat): (r: Result<nat>)
    requires |alpha| > 0 && i <= |s|
    requires AllIn(s[|s| - i..], alpha)
    requires x == Num(Indices(s[|s| - i..], alpha), |alpha|) && m == Pow(|alpha|, i)
    ensures r.Ok? <==> AllIn(s, alpha)
    ensures r.Ok? ==> AllIn(s, alpha) && r.value == Num(Indices(s, alpha), |alpha|)
    ensures r.Err? ==> r.error == InvalidCharacter
    decreases |s| - i
  {
    if i == |s| then
      assert s[|s| - i..] == s;
      Ok(x)
    else
      var pos := IndexOf(alpha, s[|s| - 1 - i]);
      if pos < 0 then
        Err(InvalidCharacter)
      else
        SetStrStep(s, alpha, i, x, m, pos);
        SetStrLoop(s, alpha, i + 1, pos * m + x, |alpha| * m)
  }

  /** bigint_set_str(str, alpha) on the alphabet path. */
  function SetStr(s: string, alpha: string): (r: Result<nat>)
    ensures |alpha| == 0 ==> r == Err(InvalidAlphabetEmpty)
    ensures |alpha| > 0 ==> (r.Ok? <==> AllIn(s, alpha))
    ensures |alpha| > 0 && r.Err? ==> r.error == InvalidCharacter
    ensures r.Ok? ==> AllIn(s, alpha) && r.value == Num(Indices(s, alpha), |alpha|)
  {
    if |alpha| <= 0 then
      Err(InvalidAlphabetEmpty)
    else
      assert s[|s| - 0..] == [];
      SetStrLoop(s, alpha, 0, 0, 1)
  }

  /** Reading symbols back gives the value of their digits. */
  lemma SetStrOfSymbols(alpha: string, d: seq<nat>)
    requires Distinct(alpha) && |alpha| > 0 && IsDigits(d, |alpha|)
    ensures SetStr(Symbols(alpha, d), alpha) == Ok(Num(d, |alpha|))
  {
    IndicesOfSymbols(alpha, d);
  }

  // ---------------------------------------------------------------------
  // bigint_get_str

  /** The loop of bigint_get_str: while the quotient is not zero, prepend
      the symbol of the remainder and divide. */
  function GetStrLoop(alpha: string, q: nat, str: string): (r: string)
    requires |alpha| >= 2
    ensures r == Symbols(alpha, Digits(q, |alpha|, DigitCount(q, |alpha|))) + str
    decreases q
  {
    if q == 0 then
      str
    else
      var rad := |alpha|;
      DivDecreases(q, rad);
      InsertCharAtFront(str, alpha[q % rad]);
      GetStrLoopStep(alpha, q, str);
      GetStrLoop(alpha, q / rad, InsertChar(str, alpha[q % rad], 0))
  }

  /** One iteration of the loop: the remainder's symbol goes in front and
      the rest of the digits are those of the quotient. */
  lemma GetStrLoopStep(alpha: string, q: nat, str: string)
    requires |alpha| >= 2 && q > 0
    ensures Symbols(alpha, Digits(q, |alpha|, DigitCount(q, |alpha|))) + str
         == Symbols(alpha, Digits(q / |alpha|, |alpha|, DigitCount(q / |alpha|, |alpha|)))
            + ([alpha[q % |alpha|]] + str)
  {
    var rad := |alpha|;
    var d := Digits(q / rad, rad, DigitCount(q / rad, rad));
    assert DigitCount(q, rad) == DigitCount(q / rad, rad) + 1;
    assert Digits(q, rad, DigitCount(q, rad)) == d + [q % rad];
    SymbolsAppend(alpha, d, [q % rad]);
    assert Symbols(alpha, [q % rad]) == [alpha[q % rad]];
  }

  /** bigint_get_str(alpha, x). A one-symbol alphabet never reaches a zero
      quotient for x > 0: the source loops forever there. */
  function GetStr(alpha: string, x: nat): (r: Result<string>)
    ensures |alpha| == 0 ==> r == Err(InvalidAlphabetEmpty)
    ensures |alpha| == 1 ==> (r.Ok? <==> x == 0)
    ensures |alpha| >= 2 ==> r.Ok?
    ensures r.Err? && |alpha| > 0 ==> r.error == Hangs
    ensures x == 0 && |alpha| > 0 ==> r == Ok([alpha[0]])
    ensures r.Ok? ==> |r.value| >= 1 && x < Pow(|alpha|, |r.value|)
                      && r.value == Symbols(alpha, Digits(x, |alpha|, |r.value|))
    ensures r.Ok? && x > 0 ==> Pow(|alpha|, |r.value| - 1) <= x
  {
    if |alpha| <= 0 then
      Err(InvalidAlphabetEmpty)
    else if |alpha| == 1 then
      if x == 0 then
        InsertCharAtFront([], alpha[0]);
        assert [alpha[0]] + [] == [alpha[0]];
        Ok(InsertChar([], alpha[0], 0))
      else
        Err(Hangs)
    else
      var s := GetStrLoop(alpha, x, []);
      GetStrLoopBounds(alpha, x);
      if |s| == 0 then
        InsertCharAtFront(s, alpha[0]);
        ZeroOneDigit(alpha);
        Ok(InsertChar(s, alpha[0], 0))
      else
        Ok(s)
  }

  /** The loop's output from an empty string is the DigitCount-digit
      rendering of x. */
  lemma GetStrLoopBounds(alpha: string, x: nat)
    requires |alpha| >= 2
    ensures var s := GetStrLoop(alpha, x, []);
            && s == Symbols(alpha, Digits(x, |alpha|, |s|))
            && x < Pow(|alpha|, |s|)
            && (x > 0 ==> |s| >= 1 && Pow(|alpha|, |s| - 1) <= x)
            && (|s| == 0 ==> x == 0)
  {
    var n := DigitCount(x, |alpha|);
    var sy := Symbols(alpha, Digits(x, |alpha|, n));
    assert GetStrLoop(alpha, x, []) == sy + [];
    assert sy + [] == sy;
    DigitCountBounds(x, |alpha|);
  }

  /** Zero is rendered with one digit as [alpha[0]]. */
  lemma ZeroOneDigit(alpha: string)
    requires |alpha| >= 2
    ensures [alpha[0]] + [] == [alpha[0]] == Symbols(alpha, Digits(0, |alpha|, 1))
    ensures 0 < Pow(|alpha|, 1)
  {
    assert Digits(0, |alpha|, 1) == [] + [0];
  }

  /** For x > 0 the leading digit is not zero, so over a distinct alphabet
      the result does not start with alpha[0]. */
  lemma GetStrNoLeadingZero(alpha: string, x: nat)
    requires Distinct(alpha) && |alpha| >= 2 && x > 0
    ensures GetStr(alpha, x).Ok? && GetStr(alpha, x).value[0] != alpha[0]
  {
    var s := GetStr(alpha, x).value;
    var d := Digits(x, |alpha|, |s|);
    NumDigits(x, |alpha|, |s|);
    LeadingDigitNonZero(d, |alpha|);
  }

  /** Round trip: the string of a value reads back as that value. */
  lemma SetStrGetStr(alpha: string, x: nat)
    requires Distinct(alpha) && |alpha| > 0
    requires |alpha| == 1 ==> x == 0
    ensures GetStr(alpha, x).Ok?
    ensures SetStr(GetStr(alpha, x).value, alpha) == Ok(x)
  {
    var s := GetStr(alpha, x).value;
    SetStrOfSymbols(alpha, Digits(x, |alpha|, |s|));
    NumDigits(x, |alpha|, |s|);
  }

  /** Reverse round trip: a non-empty string not starting with alpha[0]
      is reproduced from its value. */
  lemma GetStrSetStr(s: string, alpha: string)
    requires Distinct(alpha) && |alpha| >= 2 && AllIn(s, alpha)
    requires |s| >= 1 && s[0] != alpha[0]
    ensures SetStr(s, alpha).Ok? && GetStr(alpha, SetStr(s, alpha).value) == Ok(s)
  {
    var rad := |alpha|;
    var d := Indices(s, alpha);
    assert alpha[d[0]] == s[0];
    NumLowerBound(d, rad);
    NumBound(d, rad);
    GetStrOfWidth(alpha, Num(d, rad), |s|);
    DigitsNum(d, rad);
    SymbolsOfIndices(s, alpha);
  }

  /** Leading zero digits of a fixed-length rendering. */
  lemma {:induction false} DigitsWiden(x: nat, radix: nat, m: nat, k: nat)
    requires radix > 0 && x < Pow(radix, m)
    ensures Digits(x, radix, m + k) == Zeros(k) + Digits(x, radix, m)
    decreases m
  {
    if m == 0 {
      ZeroDigits(radix, k);
      assert Zeros(k) + [] == Zeros(k);
    } else {
      DivBelow(x, radix, Pow(radix, m - 1));
      DigitsWiden(x / radix, radix, m - 1, k);
      assert Digits(x, radix, m + k) == Digits(x / radix, radix, m - 1 + k) + [x % radix];
    }
  }

  lemma {:induction false} ZeroDigits(radix: nat, k: nat)
    requires radix > 0
    ensures Digits(0, radix, k) == Zeros(k)
  {
    if k > 0 {
      ZeroDigits(radix, k - 1);
      assert Zeros(k) == Zeros(k - 1) + [0];
    }
  }

  /** Zeros are rendered as alpha[0]. */
  lemma SymbolsOfZeros(alpha: string, k: nat)
    requires |alpha| > 0
    ensures Symbols(alpha, Zeros(k)) == Repeat(alpha[0], k)
  {
  }

  /** Left-padding bigint_get_str's output with alpha[0] to width m gives
      STR_m of the value: the m-digit rendering used by FFX.str and by the
      orchestrators. */
  lemma GetStrPadded(alpha: string, x: nat, m: nat)
    requires |alpha| >= 2 && m >= 1 && x < Pow(|alpha|, m)
    ensures GetStr(alpha, x).Ok?
    ensures |GetStr(alpha, x).value| <= m
    ensures PadStart(GetStr(alpha, x).value, m, alpha[0]) == Symbols(alpha, Digits(x, |alpha|, m))
  {
    var rad := |alpha|;
    var g := GetStr(alpha, x).value;
    GetStrWidth(alpha, x, m);
    var k := m - |g|;
    assert |g| + k == m;
    var dg := Digits(x, rad, |g|);
    assert g == Symbols(alpha, dg);
    DigitsWiden(x, rad, |g|, k);
    SymbolsOfZeros(alpha, k);
    SymbolsAppend(alpha, Zeros(k), dg);
    PadStartRepeat(g, m, alpha[0]);
  }

  lemma GetStrWidth(alpha: string, x: nat, m: nat)
    requires |alpha| >= 2 && m >= 1 && x < Pow(|alpha|, m)
    ensures GetStr(alpha, x).Ok? && |GetStr(alpha, x).value| <= m
  {
    var g := GetStr(alpha, x).value;
    if |g| > m {
      PowMonotone(|alpha|, m, |g| - 1);
    }
  }

  lemma SymbolsAppend(alpha: string, d1: seq<nat>, d2: seq<nat>)
    requires IsDigits(d1, |alpha|) && IsDigits(d2, |alpha|)
    ensures IsDigits(d1 + d2, |alpha|)
    ensures Symbols(alpha, d1 + d2) == Symbols(alpha, d1) + Symbols(alpha, d2)
  {
  }

  /** Padding the re-rendered value of any non-empty string gives back the
      string, leading alpha[0] symbols included. */
  lemma PaddedRoundTrip(s: string, alpha: string)
    requires Distinct(alpha) && |alpha| >= 2 && AllIn(s, alpha) && |s| >= 1
    ensures SetStr(s, alpha).Ok?
    ensures GetStr(alpha, SetStr(s, alpha).value).Ok?
    ensures PadStart(GetStr(alpha, SetStr(s, alpha).value).value, |s|, alpha[0]) == s
  {
    var d := Indices(s, alpha);
    NumBound(d, |alpha|);
    GetStrPadded(alpha, Num(d, |alpha|), |s|);
    DigitsNum(d, |alpha|);
    SymbolsOfIndices(s, alpha);
  }

  // ---------------------------------------------------------------------
  // Worked examples.

  /** A symbol outside the alphabet and an empty alphabet are rejected. */
  lemma SetStrRejects()
    ensures SetStr("109", "012345678") == Err(InvalidCharacter)
    ensures SetStr("109", "") == Err(InvalidAlphabetEmpty)
    ensures GetStr("", 0) == Err(InvalidAlphabetEmpty)
  {
    assert !AllIn("109", "012345678") by {
      assert "109"[2] == '9';
      assert '9' !in "012345678";
    }
  }

  /** Reading "@$#" over a ten-symbol alphabet: digits 1, 3, 2. */
  lemma SetStrExampleDecimal()
    ensures SetStr("@$#", "!@#$%^&*()") == Ok(132)
  {
    var a := "!@#$%^&*()";
    assert Symbols(a, [1, 3, 2]) == "@$#";
    SetStrOfSymbols(a, [1, 3, 2]);
    ThreeDigits(1, 3, 2, 10);
  }

  /** The same string over an eight-symbol alphabet. */
  lemma SetStrExampleOctal()
    ensures SetStr("@$#", "!@#$%^&*") == Ok(90)
  {
    var a := "!@#$%^&*";
    assert Symbols(a, [1, 3, 2]) == "@$#";
    SetStrOfSymbols(a, [1, 3, 2]);
    ThreeDigits(1, 3, 2, 8);
  }

  lemma ThreeDigits(a: nat, b: nat, c: nat, radix: nat)
    ensures Num([a, b, c], radix) == (a * radix + b) * radix + c
  {
    assert [a, b, c][..2] == [a, b] && [a, b][..1] == [a] && [a][..0] == [];
    assert Num([a], radix) == a;
    assert Num([a, b], radix) == a * radix + b;
  }

  /** bigint_get_str of a value with exactly `w` digits is its w-digit
      rendering. */
  lemma GetStrOfWidth(alpha: string, x: nat, w: nat)
    requires |alpha| >= 2 && w >= 1 && Pow(|alpha|, w - 1) <= x < Pow(|alpha|, w)
    ensures GetStr(alpha, x) == Ok(Symbols(alpha, Digits(x, |alpha|, w)))
  {
    var g := GetStr(alpha, x).value;
    PowPositive(|alpha|, w - 1);
    DigitCountUnique(|alpha|, x, |g|, w);
  }

  /** Zero is rendered as the first symbol. */
  lemma GetStrExampleZero()
    ensures GetStr("0123456789ABCDEF", 0) == Ok("0")
  {
  }
}
