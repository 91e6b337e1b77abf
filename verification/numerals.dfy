/** Reference arithmetic shared by the codec and the cipher: powers, the
    value of a digit string read most-significant digit first (NUM_radix,
    Algorithm 1 of NIST SP 800-38G), and its fixed-length inverse (STR_m_radix,
    Algorithm 3), together with their byte (radix 256) specialisation. */
module Numerals {

  function Pow(b: nat, e: nat): nat
  {
    if e == 0 then 1 else b * Pow(b, e - 1)
  }

  lemma {:induction false} PowPositive(b: nat, e: nat)
    requires b > 0
    ensures Pow(b, e) > 0
  {
    if e > 0 {
      PowPositive(b, e - 1);
    }
  }

  lemma {:induction false} PowAdd(b: nat, e1: nat, e2: nat)
    ensures Pow(b, e1 + e2) == Pow(b, e1) * Pow(b, e2)
  {
    if e2 > 0 {
      PowAdd(b, e1, e2 - 1);
      assert Pow(b, e1 + e2) == b * Pow(b, e1 + e2 - 1);
      MulSwap(b, Pow(b, e1), Pow(b, e2 - 1));
    }
  }

  lemma {:induction false} PowMonotone(b: nat, e1: nat, e2: nat)
    requires b >= 1 && e1 <= e2
    ensures Pow(b, e1) <= Pow(b, e2)
  {
    if e1 < e2 {
      PowMonotone(b, e1, e2 - 1);
      MulMonotone(1, b, Pow(b, e2 - 1));
    }
  }

  lemma {:induction false} PowBaseMonotone(a: nat, b: nat, e: nat)
    requires a <= b
    ensures Pow(a, e) <= Pow(b, e)
  {
    if e > 0 {
      PowBaseMonotone(a, b, e - 1);
      MulLe(a, b, Pow(a, e - 1), Pow(b, e - 1));
    }
  }

  lemma {:induction false} PowMul(b: nat, e1: nat, e2: nat)
    ensures Pow(Pow(b, e1), e2) == Pow(b, e1 * e2)
  {
    if e2 > 0 {
      PowMul(b, e1, e2 - 1);
      PowAdd(b, e1, e1 * (e2 - 1));
      MulSub(e2, 1, e1);
    }
  }

  lemma {:induction false} PowOfOne(e: nat)
    ensures Pow(1, e) == 1
  {
    if e > 0 {
      PowOfOne(e - 1);
    }
  }

  // Single steps of integer arithmetic, each proved in isolation so that
  // the lemmas using them need no non-linear reasoning of their own.

  lemma MulAssoc(a: int, b: int, c: int)
    ensures a * (b * c) == (a * b) * c
  {
  }

  lemma MulSwap(a: int, b: int, c: int)
    ensures a * (b * c) == b * (a * c)
  {
  }

  lemma MulAdd(a: int, b: int, c: int)
    ensures (a + b) * c == a * c + b * c
  {
  }

  lemma MulSub(a: int, b: int, c: int)
    ensures (a - b) * c == a * c - b * c
  {
  }

  lemma MulNeg(a: int, c: int)
    ensures (-a) * c == -(a * c)
  {
  }

  lemma MulMonotone(a: nat, b: nat, c: nat)
    requires a <= b
    ensures a * c <= b * c
  {
  }

  lemma MulLe(a: nat, b: nat, c: nat, d: nat)
    requires a <= b && c <= d
    ensures a * c <= b * d
  {
    MulMonotone(a, b, c);
    MulMonotone(c, d, b);
  }

  lemma MulCancelLt(a: nat, b: nat, r: nat)
    requires a * r < b * r
    ensures a < b
  {
  }

  lemma SmallMultipleInt(k: int, r: int)
    requires r > 0 && -r < k * r < r
    ensures k == 0
  {
  }

  /** Euclidean division: quotient times divisor plus a remainder below
      the divisor. */
  lemma DivMod(x: int, p: int)
    requires p > 0
    ensures x == (x / p) * p + x % p && 0 <= x % p < p
  {
  }

  /** Quotient and remainder are the only such pair. */
  lemma DivModUnique(x: int, p: int, q: int, r: int)
    requires p > 0 && 0 <= r < p && x == q * p + r
    ensures x / p == q && x % p == r
  {
    DivMod(x, p);
    MulSub(q, x / p, p);
    SmallMultipleInt(q - x / p, p);
  }

  lemma DivBelow(x: nat, r: nat, p: nat)
    requires r > 0 && x < p * r
    ensures x / r < p
  {
    DivMod(x, r);
    MulCancelLt(x / r, p, r);
  }

  lemma DivModOfSum(q: nat, r: nat, d: nat)
    requires d < r
    ensures (q * r + d) / r == q && (q * r + d) % r == d
  {
    DivModUnique(q * r + d, r, q, d);
  }

  /** The quotient and remainder bracket the dividend. */
  lemma DivBracket(q: nat, r: nat)
    requires r > 0
    ensures (q / r) * r <= q < (q / r + 1) * r
  {
    DivMod(q, r);
    MulAdd(q / r, 1, r);
  }

  lemma DivAddMultiple(q: int, p: nat, z: int)
    requires p > 0
    ensures (q * p + z) / p == q + z / p
  {
    DivMod(z, p);
    MulAdd(q, z / p, p);
    DivModUnique(q * p + z, p, q + z / p, z % p);
  }

  lemma ModOfMultiplePlus(q: int, p: nat, z: int)
    requires p > 0
    ensures (q * p + z) % p == z % p
  {
    DivMod(z, p);
    MulAdd(q, z / p, p);
    DivModUnique(q * p + z, p, q + z / p, z % p);
  }

  /** Subtracting what was added, modulo p, restores a value below p. */
  lemma AddSubMod(a: nat, y: nat, p: nat)
    requires a < p
    ensures ((a + y) % p - y) % p == a
  {
    var t := (a + y) / p;
    DivMod(a + y, p);
    MulNeg(t, p);
    DivModUnique((a + y) % p - y, p, -t, a);
  }

  /** Adding back what was subtracted, modulo p, restores a value below p. */
  lemma SubAddMod(a: nat, y: nat, p: nat)
    requires a < p
    ensures ((a - y) % p + y) % p == a
  {
    var t := (a - y) / p;
    DivMod(a - y, p);
    MulNeg(t, p);
    DivModUnique((a - y) % p + y, p, -t, a);
  }

  /** Every entry of `d` is a digit of base `radix`. */
  predicate IsDigits(d: seq<nat>, radix: nat)
  {
    forall i :: 0 <= i < |d| ==> d[i] < radix
  }

  /** NUM_radix(d): the value of `d`, most-significant digit first. */
  function Num(d: seq<nat>, radix: nat): nat
  {
    if |d| == 0 then 0 else Num(d[..|d| - 1], radix) * radix + d[|d| - 1]
  }

  /** STR_m_radix(x): the `m` least-significant base-`radix` digits of `x`. */
  function Digits(x: nat, radix: nat, m: nat): (d: seq<nat>)
    requires radix > 0
    ensures |d| == m && IsDigits(d, radix)
    decreases m
  {
    if m == 0 then [] else Digits(x / radix, radix, m - 1) + [x % radix]
  }

  lemma {:induction false} NumBound(d: seq<nat>, radix: nat)
    requires IsDigits(d, radix)
    ensures Num(d, radix) < Pow(radix, |d|)
  {
    if |d| > 0 {
      var p := d[..|d| - 1];
      NumBound(p, radix);
      LastDigitBound(Num(p, radix), d[|d| - 1], Pow(radix, |p|), radix);
      assert Num(d, radix) == Num(p, radix) * radix + d[|d| - 1];
      assert Pow(radix, |d|) == radix * Pow(radix, |p|);
    }
  }

  /** One more digit below the radix stays below the next power. */
  lemma LastDigitBound(n: nat, l: nat, p: nat, radix: nat)
    requires n < p && l < radix
    ensures n * radix + l < p * radix
  {
    MulMonotone(n + 1, p, radix);
    MulAdd(n, 1, radix);
  }

  lemma DivDecreases(q: nat, radix: nat)
    requires q > 0 && radix >= 2
    ensures q / radix < q
  {
    DivMod(q, radix);
    MulMonotone(2, radix, q / radix);
  }

  /** A quotient below p means a dividend below p times the divisor. */
  lemma QuotientBelow(q: nat, radix: nat, p: nat)
    requires radix > 0 && q / radix < p
    ensures q < p * radix
  {
    DivMod(q, radix);
    LastDigitBound(q / radix, q % radix, p, radix);
  }

  /** Appending a digit multiplies by the radix and adds the digit. */
  lemma NumSnoc(d: seq<nat>, x: nat, radix: nat)
    ensures Num(d + [x], radix) == Num(d, radix) * radix + x
  {
    assert (d + [x])[..|d + [x]| - 1] == d;
  }

  /** Prepending a digit adds it at weight radix^|d|. */
  lemma {:induction false} NumCons(x: nat, d: seq<nat>, radix: nat)
    ensures Num([x] + d, radix) == x * Pow(radix, |d|) + Num(d, radix)
  {
    if |d| == 0 {
      assert [x] + d == [] + [x];
      NumSnoc([], x, radix);
    } else {
      var p := d[..|d| - 1];
      var l := d[|d| - 1];
      assert [x] + d == ([x] + p) + [l];
      NumSnoc([x] + p, l, radix);
      NumCons(x, p, radix);
      NumSnoc(p, l, radix);
      assert d == p + [l];
      MulAdd(x * Pow(radix, |p|), Num(p, radix), radix);
      MulAssoc(x, Pow(radix, |p|), radix);
      assert Pow(radix, |d|) == radix * Pow(radix, |p|);
    }
  }

  /** Leading zero digits do not change the value. */
  lemma {:induction false} NumLeadingZeros(k: nat, d: seq<nat>, radix: nat)
    ensures Num(Zeros(k) + d, radix) == Num(d, radix)
  {
    if k > 0 {
      var rest := Zeros(k - 1) + d;
      assert Zeros(k) + d == [0] + rest;
      NumCons(0, rest, radix);
      assert Num([0] + rest, radix) == Num(rest, radix);
      NumLeadingZeros(k - 1, d, radix);
    } else {
      assert Zeros(k) + d == d;
    }
  }

  function Zeros(k: nat): (z: seq<nat>)
    ensures |z| == k && forall i :: 0 <= i < k ==> z[i] == 0
  {
    if k == 0 then [] else [0] + Zeros(k - 1)
  }

  /** Algorithm 3 inverts Algorithm 1 on values below radix^m. */
  lemma {:induction false} NumDigits(x: nat, radix: nat, m: nat)
    requires radix > 0 && x < Pow(radix, m)
    ensures Num(Digits(x, radix, m), radix) == x
    decreases m
  {
    if m > 0 {
      assert Pow(radix, m) == radix * Pow(radix, m - 1);
      DivBelow(x, radix, Pow(radix, m - 1));
      NumDigits(x / radix, radix, m - 1);
      NumSnoc(Digits(x / radix, radix, m - 1), x % radix, radix);
      DivMod(x, radix);
    }
  }

  /** Algorithm 1 inverts Algorithm 3 on digit strings of length m. */
  lemma {:induction false} DigitsNum(d: seq<nat>, radix: nat)
    requires radix > 0 && IsDigits(d, radix)
    ensures Digits(Num(d, radix), radix, |d|) == d
  {
    if |d| > 0 {
      var p := d[..|d| - 1];
      var x := Num(d, radix);
      DivModOfSum(Num(p, radix), radix, d[|d| - 1]);
      DigitsNum(p, radix);
      assert d == p + [d[|d| - 1]];
    }
  }

  /** A value of at least radix^(|d|-1) has a non-zero leading digit. */
  lemma LeadingDigitNonZero(d: seq<nat>, radix: nat)
    requires IsDigits(d, radix) && |d| >= 1
    requires Num(d, radix) >= Pow(radix, |d| - 1)
    ensures d[0] != 0
  {
    assert d == [d[0]] + d[1..];
    NumCons(d[0], d[1..], radix);
    NumBound(d[1..], radix);
  }

  /** A non-zero leading digit puts the value at or above radix^(|d|-1). */
  lemma NumLowerBound(d: seq<nat>, radix: nat)
    requires |d| >= 1 && d[0] >= 1
    ensures Num(d, radix) >= Pow(radix, |d| - 1)
  {
    assert d == [d[0]] + d[1..];
    NumCons(d[0], d[1..], radix);
    MulMonotone(1, d[0], Pow(radix, |d| - 1));
  }

  /** Two digit strings of one length and one value are equal. */
  lemma NumInjective(d1: seq<nat>, d2: seq<nat>, radix: nat)
    requires radix > 0 && IsDigits(d1, radix) && IsDigits(d2, radix)
    requires |d1| == |d2| && Num(d1, radix) == Num(d2, radix)
    ensures d1 == d2
  {
    DigitsNum(d1, radix);
    DigitsNum(d2, radix);
  }

  /** The number of base-`radix` digits of `q` (zero for zero). */
  function DigitCount(q: nat, radix: nat): nat
    requires radix >= 2
    decreases q
  {
    if q == 0 then 0 else 1 + DigitCount(q / radix, radix)
  }

  lemma DigitCountBounds(q: nat, radix: nat)
    requires radix >= 2
    ensures q < Pow(radix, DigitCount(q, radix))
    ensures q > 0 ==> DigitCount(q, radix) >= 1 && Pow(radix, DigitCount(q, radix) - 1) <= q
  {
    DigitCountAbove(q, radix);
    if q > 0 {
      DigitCountBelow(q, radix);
    }
  }

  lemma {:induction false} DigitCountAbove(q: nat, radix: nat)
    requires radix >= 2
    ensures q < Pow(radix, DigitCount(q, radix))
    decreases q
  {
    if q > 0 {
      var p := q / radix;
      var n := DigitCount(p, radix);
      DivDecreases(q, radix);
      DigitCountAbove(p, radix);
      QuotientBelow(q, radix, Pow(radix, n));
      assert DigitCount(q, radix) == n + 1;
      assert Pow(radix, n + 1) == radix * Pow(radix, n);
    }
  }

  lemma {:induction false} DigitCountBelow(q: nat, radix: nat)
    requires radix >= 2 && q > 0
    ensures DigitCount(q, radix) >= 1 && Pow(radix, DigitCount(q, radix) - 1) <= q
    decreases q
  {
    var p := q / radix;
    var n := DigitCount(p, radix);
    assert DigitCount(q, radix) == n + 1;
    DivBracket(q, radix);
    if p > 0 {
      DigitCountBelow(p, radix);
      MulMonotone(Pow(radix, n - 1), p, radix);
      assert Pow(radix, n) == radix * Pow(radix, n - 1);
    } else {
      assert n == 0;
    }
  }

  lemma DigitCountUnique(radix: nat, x: nat, a: nat, b: nat)
    requires radix >= 2 && a >= 1 && b >= 1
    requires Pow(radix, a - 1) <= x < Pow(radix, a)
    requires Pow(radix, b - 1) <= x < Pow(radix, b)
    ensures a == b
  {
    if a < b {
      PowMonotone(radix, a, b - 1);
    } else if b < a {
      PowMonotone(radix, b, a - 1);
    }
  }

  // ---------------------------------------------------------------------
  // Bytes: radix 256, big-endian.

  /** An element of a Uint8Array. */
  newtype uint8 = x: int | 0 <= x < 256

  /** The integer value of a byte, as a digit. */
  function ByteDigits(s: seq<uint8>): (d: seq<nat>)
    ensures |d| == |s| && IsDigits(d, 256)
    ensures forall i :: 0 <= i < |s| ==> d[i] == s[i] as nat
  {
    if |s| == 0 then [] else ByteDigits(s[..|s| - 1]) + [s[|s| - 1] as nat]
  }

  /** The big-endian value of a byte string. */
  function BigEndianValue(s: seq<uint8>): nat
  {
    Num(ByteDigits(s), 256)
  }

  /** Prepending a byte adds it at weight 256^|s|. */
  lemma BigEndianCons(x: uint8, s: seq<uint8>)
    ensures BigEndianValue([x] + s) == x as nat * Pow(256, |s|) + BigEndianValue(s)
  {
    ByteDigitsCons(x, s);
    NumCons(x as nat, ByteDigits(s), 256);
  }

  lemma ByteDigitsCons(x: uint8, s: seq<uint8>)
    ensures ByteDigits([x] + s) == [x as nat] + ByteDigits(s)
  {
    var d := ByteDigits([x] + s);
    var e := [x as nat] + ByteDigits(s);
    forall i | 0 <= i < |d|
      ensures d[i] == e[i]
    {
      if i > 0 {
        assert ([x] + s)[i] == s[i - 1];
      }
    }
  }

  /** Appending a byte shifts the value by one byte. */
  lemma BigEndianSnoc(s: seq<uint8>, x: uint8)
    ensures BigEndianValue(s + [x]) == BigEndianValue(s) * 256 + x as nat
  {
    assert ByteDigits(s + [x]) == ByteDigits(s) + [x as nat];
    NumSnoc(ByteDigits(s), x as nat, 256);
  }

  /** The `w`-byte big-endian encoding of `x` (its low `w` bytes). */
  function BigEndian(x: nat, w: nat): (s: seq<uint8>)
    ensures |s| == w
    decreases w
  {
    if w == 0 then [] else BigEndian(x / 256, w - 1) + [(x % 256) as uint8]
  }

  lemma {:induction false} BigEndianDigits(x: nat, w: nat)
    ensures ByteDigits(BigEndian(x, w)) == Digits(x, 256, w)
    decreases w
  {
    if w > 0 {
      BigEndianDigits(x / 256, w - 1);
      var s := BigEndian(x, w);
      assert s[..w - 1] == BigEndian(x / 256, w - 1);
    }
  }

  /** The big-endian encoding of a value that fits is read back exactly. */
  lemma BigEndianRoundTrip(x: nat, w: nat)
    requires x < Pow(256, w)
    ensures BigEndianValue(BigEndian(x, w)) == x
  {
    BigEndianDigits(x, w);
    NumDigits(x, 256, w);
  }

  /** Byte `k` (counting from the least significant, k = 0) of `x`. */
  function ByteAt(x: nat, k: nat): uint8
  {
    PowPositive(256, k);
    ((x / Pow(256, k)) % 256) as uint8
  }

  /** `k` zero bytes: a freshly allocated Uint8Array. */
  function ZeroBytes(k: nat): (z: seq<uint8>)
    ensures |z| == k && forall i :: 0 <= i < k ==> z[i] == 0
  {
    seq(k, _ => 0)
  }

  /** Leading zero bytes do not change the value. */
  lemma BigEndianLeadingZeros(k: nat, s: seq<uint8>)
    ensures BigEndianValue(ZeroBytes(k) + s) == BigEndianValue(s)
  {
    assert ByteDigits(ZeroBytes(k) + s) == Zeros(k) + ByteDigits(s);
    NumLeadingZeros(k, ByteDigits(s), 256);
  }

  /** Two byte strings of one length and one value are equal. */
  lemma BigEndianInjective(s1: seq<uint8>, s2: seq<uint8>)
    requires |s1| == |s2| && BigEndianValue(s1) == BigEndianValue(s2)
    ensures s1 == s2
  {
    NumInjective(ByteDigits(s1), ByteDigits(s2), 256);
    forall i | 0 <= i < |s1|
      ensures s1[i] == s2[i]
    {
      assert ByteDigits(s1)[i] == ByteDigits(s2)[i];
    }
  }

  /** A byte string is the w-byte encoding of its own value. */
  lemma BigEndianOfValue(s: seq<uint8>)
    ensures BigEndian(BigEndianValue(s), |s|) == s
  {
    NumBound(ByteDigits(s), 256);
    BigEndianRoundTrip(BigEndianValue(s), |s|);
    BigEndianInjective(BigEndian(BigEndianValue(s), |s|), s);
  }

  lemma DivDiv(x: nat, a: nat, b: nat)
    requires a > 0 && b > 0
    ensures x / a / b == x / (a * b)
  {
    var q := x / a / b;
    var r1 := x % a;
    var r2 := (x / a) % b;
    DivMod(x, a);
    DivMod(x / a, b);
    MulAdd(q * b, r2, a);
    MulAssoc(q, b, a);
    MulMonotone(r2, b - 1, a);
    MulSub(b, 1, a);
    DivModUnique(x, a * b, q, r2 * a + r1);
  }

  /** Entry i of the w-byte encoding is byte w-1-i counted from the least
      significant. */
  lemma {:induction false} BigEndianAt(x: nat, w: nat, i: nat)
    requires i < w
    ensures BigEndian(x, w)[i] == ByteAt(x, w - 1 - i)
    decreases w
  {
    if i < w - 1 {
      BigEndianAt(x / 256, w - 1, i);
      PowPositive(256, w - 2 - i);
      DivDiv(x, 256, Pow(256, w - 2 - i));
    }
  }
}
