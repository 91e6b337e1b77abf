/** The FF1 cipher of lib/structured/FF1.js (Algorithms 7 and 8 of NIST
    SP 800-38G) over a custom alphabet: the split, the byte layout of the
    P and Q blocks, the extended PRF output, and ten Feistel rounds. The
    AES block function is a parameter throughout. */
module Ff1 {
  import opened Wrappers
  import opened Numerals
  import opened Bn
  import opened ArrayUtil
  import opened JsBits
  import opened Ffx
  import Feistel

  const TwoTo32Len: nat := 0x1_0000_0000

  /** The FF1 constructor: a non-empty custom alphabet fixes the radix, and
      the maximum text length is 2^32. */
  function NewFf1(key: seq<uint8>, twk: Option<seq<uint8>>, twkmin: Option<nat>, twkmax: Option<nat>,
                  radix: nat, alphabet: string): (r: Result<Ffx>)
    ensures r.Ok? ==> r.value.txtmax == TwoTo32Len && r.value.alphabet == alphabet
    ensures r.Ok? && |alphabet| > 0 ==> r.value.radix == |alphabet|
    ensures r.Ok? && |alphabet| == 0 ==> r.value.radix == radix
    ensures r.Ok? ==> Wf(r.value)
  {
    New(key, twk, TwoTo32Len, twkmin, twkmax, if |alphabet| > 0 then |alphabet| else radix, alphabet)
  }

  /** What every FF1 object satisfies: a non-empty alphabet is the radix. */
  predicate Wf(f: Ffx)
  {
    |f.alphabet| > 0 ==> f.radix == |f.alphabet|
  }

  // ---------------------------------------------------------------------
  // Sizes

  /** b: the least byte count with 256^b >= radix^v. */
  function ByteCount(radix: nat, v: nat): (b: nat)
    ensures Pow(256, b) >= Pow(radix, v)
    ensures b == 0 || Pow(256, b - 1) < Pow(radix, v)
  {
    var x := Pow(radix, v);
    if x == 0 then 0
    else
      DigitCountBounds(x - 1, 256);
      DigitCount(x - 1, 256)
  }

  /** The lengths FF1 derives from the radix and the input length. */
  datatype Layout = Layout(n: nat, u: nat, v: nat, b: nat, d: nat, r: nat)

  function MakeLayout(radix: nat, n: nat): (l: Layout)
    ensures l.n == n && l.u == n / 2 && l.u + l.v == n && l.u <= l.v
    ensures l.d % 4 == 0 && l.b + 4 <= l.d <= l.b + 7
    ensures l.r % 16 == 0 && l.d <= l.r < l.d + 16 && l.r >= 16
  {
    var u := n / 2;
    var v := n - u;
    var b := ByteCount(radix, v);
    RoundUp(b, 4);
    var d := 4 * ((b + 3) / 4) + 4;
    RoundUp(d, 16);
    var r := ((d + 15) / 16) * 16;
    Layout(n, u, v, b, d, r)
  }

  /** Rounding up to a multiple of m: the `ceil(x / m) * m` of FF1.js. */
  lemma RoundUp(x: nat, m: nat)
    requires m > 0
    ensures ((x + m - 1) / m) * m % m == 0
    ensures x <= ((x + m - 1) / m) * m < x + m
    ensures ((x + m - 1) / m) * m == m * ((x + m - 1) / m)
  {
    var q := (x + m - 1) / m;
    DivMod(x + m - 1, m);
    DivModUnique(q * m, m, q, 0);
  }

  /** The number of bytes of Q for a tweak of length t. */
  function QLength(t: nat, b: nat): (q: nat)
    ensures q % 16 == 0 && t + b + 1 <= q < t + b + 17
  {
    RoundUp(t + b + 1, 16);
    ((t + b + 1 + 15) / 16) * 16
  }

  // ---------------------------------------------------------------------
  // P and Q

  /** P, written byte by byte as FF1.js does: each `x >> k` stored into a
      Uint8Array slot. */
  function PBlock(radix: nat, u: nat, n: nat, t: nat): (p: seq<uint8>)
    ensures |p| == 16
  {
    [1, 2, 1, ShiftedByte(radix, 16), ShiftedByte(radix, 8), ShiftedByte(radix, 0),
     10, ToUint8(u),
     ShiftedByte(n, 24), ShiftedByte(n, 16), ShiftedByte(n, 8), ShiftedByte(n, 0),
     ShiftedByte(t, 24), ShiftedByte(t, 16), ShiftedByte(t, 8), ShiftedByte(t, 0)]
  }

  /** Three shifted-byte stores give the 3-byte big-endian encoding. */
  lemma ThreeBytes(x: nat)
    ensures [ShiftedByte(x, 16), ShiftedByte(x, 8), ShiftedByte(x, 0)] == BigEndian(x, 3)
  {
    ShiftedByteIsByteAt(x, 16);
    ShiftedByteIsByteAt(x, 8);
    ShiftedByteIsByteAt(x, 0);
    BigEndianAt(x, 3, 0);
    BigEndianAt(x, 3, 1);
    BigEndianAt(x, 3, 2);
  }

  /** Four shifted-byte stores give the 4-byte big-endian encoding. */
  lemma FourBytes(x: nat)
    ensures [ShiftedByte(x, 24), ShiftedByte(x, 16), ShiftedByte(x, 8), ShiftedByte(x, 0)] == BigEndian(x, 4)
  {
    ShiftedByteIsByteAt(x, 24);
    ShiftedByteIsByteAt(x, 16);
    ShiftedByteIsByteAt(x, 8);
    ShiftedByteIsByteAt(x, 0);
    BigEndianAt(x, 4, 0);
    BigEndianAt(x, 4, 1);
    BigEndianAt(x, 4, 2);
    BigEndianAt(x, 4, 3);
  }

  /** P is [1, 2, 1] || radix in 3 bytes || [10] || u mod 256 || n in 4
      bytes || t in 4 bytes, big-endian (step 5 of Algorithm 7). */
  lemma PBlockLayout(radix: nat, u: nat, n: nat, t: nat)
    ensures PBlock(radix, u, n, t) == [1, 2, 1] + BigEndian(radix, 3) + [10, (u % 256) as uint8] + BigEndian(n, 4) + BigEndian(t, 4)
  {
    ThreeBytes(radix);
    FourBytes(n);
    FourBytes(t);
  }

  /** The NUM(B) field of Q as FF1.js fills it from BigIntToByteArray: the
      first b bytes when there are at least b, else zero-padded on the left. */
  function NumField(numb: seq<uint8>, b: nat): (f: seq<uint8>)
    ensures |f| == b
  {
    if b <= |numb| then numb[..b] else ZeroBytes(b - |numb|) + numb
  }

  /** Whenever the value fits in b bytes, the field is its b-byte
      big-endian encoding. */
  lemma NumFieldIsBigEndian(c: nat, b: nat)
    requires c < Pow(256, b)
    ensures NumField(BigIntToByteArray(c), b) == BigEndian(c, b)
  {
    NumFieldValue(c, b);
    BigEndianRoundTrip(c, b);
    BigEndianInjective(NumField(BigIntToByteArray(c), b), BigEndian(c, b));
  }

  lemma NumFieldValue(c: nat, b: nat)
    requires c < Pow(256, b)
    ensures BigEndianValue(NumField(BigIntToByteArray(c), b)) == c
  {
    NumFieldOf(BigIntToByteArray(c), c, b);
  }

  /** The field of any minimal big-endian byte string of c. */
  lemma NumFieldOf(numb: seq<uint8>, c: nat, b: nat)
    requires |numb| >= 1 && BigEndianValue(numb) == c
    requires c == 0 ==> numb == [0]
    requires c > 0 ==> Pow(256, |numb| - 1) <= c
    requires c < Pow(256, b)
    ensures BigEndianValue(NumField(numb, b)) == c
  {
    if b < |numb| {
      if c > 0 {
        PowMonotone(256, b, |numb| - 1);
      }
      assert NumField(numb, b) == [];
    } else if b == |numb| {
      assert NumField(numb, b) == numb;
    } else {
      BigEndianLeadingZeros(b - |numb|, numb);
    }
  }

  /** Q: the tweak, zeros, the round byte, and the NUM(B) field. */
  function QBlock(tw: seq<uint8>, q: nat, roundByte: uint8, field: seq<uint8>): (r: seq<uint8>)
    requires q >= |tw| + |field| + 1
    ensures |r| == q
  {
    tw + ZeroBytes(q - |tw| - |field| - 1) + [roundByte] + field
  }

  /** The PQ buffer as FF1.js fills it: zeros, then P, the tweak copied at
      16, the round byte at |PQ| - b - 1, the field at |PQ| - b. */
  method BuildPQ(radix: nat, u: nat, n: nat, tw: seq<uint8>, b: nat, roundByte: uint8, numField: seq<uint8>)
    returns (pq: seq<uint8>)
    requires |numField| == b
    ensures pq == PBlock(radix, u, n, |tw|) + QBlock(tw, QLength(|tw|, b), roundByte, numField)
  {
    var q := QLength(|tw|, b);
    var p := PBlock(radix, u, n, |tw|);
    var n0 := 16 + q;
    var pq0 := ZeroBytes(n0);
    var pq1 := ArrayCopy(p, 0, pq0, 0, 16);
    var pq2 := ArrayCopy(tw, 0, pq1, 16, |tw|);
    var pq3 := pq2[n0 - b - 1 := roundByte];
    pq := ArrayCopy(numField, 0, pq3, n0 - b, b);
    ghost var qb := QBlock(tw, q, roundByte, numField);
    ghost var spec := p + qb;
    assert |pq| == |spec| == n0;
    assert 16 + |tw| <= n0 - b - 1;
    forall i | 0 <= i < n0
      ensures pq[i] == spec[i]
    {
      if i < n0 - b {
        assert pq[i] == pq3[i];
        if i < n0 - b - 1 {
          assert pq3[i] == pq2[i];
          if i < 16 {
            assert pq2[i] == pq1[i] == p[i] == spec[i];
          } else if i < 16 + |tw| {
            assert pq2[i] == tw[i - 16] == qb[i - 16] == spec[i];
          } else {
            assert pq2[i] == pq1[i] == pq0[i] == 0;
            assert qb[i - 16] == 0;
          }
        } else {
          assert qb[i - 16] == roundByte;
        }
      } else {
        assert pq[i] == numField[i - (n0 - b)];
        assert qb[i - 16] == numField[i - (n0 - b)];
      }
    }
  }

  // ---------------------------------------------------------------------
  // R, S and y

  /** The counter block [0]^12 || j in 4 bytes, written as FF1.js does. */
  function CounterBlock(j: nat): (c: Block)
  {
    ZeroBytes(12) + [ShiftedByte(j, 24), ShiftedByte(j, 16), ShiftedByte(j, 8), ShiftedByte(j, 0)]
  }

  /** R || ciph(R xor [1]) || ... || ciph(R xor [count - 1]): step 6iii. */
  function Extend(aes: BlockCipher, key: seq<uint8>, r0: Block, count: nat): (s: seq<uint8>)
    requires count >= 1
    ensures |s| == 16 * count && s[..16] == r0
  {
    if count == 1 then r0
    else Extend(aes, key, r0, count - 1) + aes(key, Xor(r0, CounterBlock(count - 1)))
  }

  /** bytesToInteger(hex, d): the loop accumulating hex[d - i] * 256^(i-1). */
  method BytesToInteger(hex: seq<uint8>, d: nat) returns (result: nat)
    requires d <= |hex|
    ensures result == BigEndianValue(hex[..d])
  {
    var pow := 1;
    result := 0;
    for i := 1 to d + 1
      invariant pow == Pow(256, i - 1)
      invariant result == BigEndianValue(hex[d - (i - 1)..d])
    {
      BytesStep(hex, d, i);
      result := result + pow * hex[d - i] as nat;
      pow := pow * 256;
    }
    assert hex[d - d..d] == hex[..d];
  }

  /** One iteration of bytesToInteger: byte d - i enters at weight
      256^(i-1). */
  lemma BytesStep(hex: seq<uint8>, d: nat, i: nat)
    requires 1 <= i <= d <= |hex|
    ensures BigEndianValue(hex[d - i..d])
            == Pow(256, i - 1) * hex[d - i] as nat + BigEndianValue(hex[d - (i - 1)..d])
    ensures Pow(256, i - 1) * 256 == Pow(256, i)
  {
    var rest := hex[d - (i - 1)..d];
    assert |rest| == i - 1;
    assert hex[d - i..d] == [hex[d - i]] + rest;
    BigEndianCons(hex[d - i], rest);
  }

  /** The byte array of a number never starts with a superfluous zero, so
      the strip branch of FF1.js, which would throw, is never taken. */
  lemma NoLeadingZeroStrip(c: nat)
    ensures !(BigIntToByteArray(c)[0] == 0 && |BigIntToByteArray(c)| > 1)
  {
  }

  /** The PQ buffer of one round. */
  function PQ(f: Ffx, tw: seq<uint8>, l: Layout, roundByte: uint8, field: seq<uint8>): (pq: seq<uint8>)
    requires |field| == l.b
    ensures |pq| >= 16 && |pq| % 16 == 0
  {
    var q := QLength(|tw|, l.b);
    var pq := PBlock(f.radix, l.u, l.n, |tw|) + QBlock(tw, q, roundByte, field);
    assert |pq| == 16 + q;
    DivMod(q, 16);
    DivModUnique(16 + q, 16, q / 16 + 1, 0);
    pq
  }

  /** The first d bytes of S read as a number. */
  function SValue(aes: BlockCipher, key: seq<uint8>, pq: seq<uint8>, l: Layout): (y: nat)
    requires |pq| >= 16 && |pq| % 16 == 0
    requires l.d <= l.r && l.r % 16 == 0 && l.r >= 16
    ensures y < Pow(256, l.d)
  {
    var s := Extend(aes, key, PrfOfWhole(aes, key, pq).value, l.r / 16);
    NumBound(ByteDigits(s[..l.d]), 256);
    BigEndianValue(s[..l.d])
  }

  /** The part of one round that depends only on B and the round byte: the
      big-endian value of the first d bytes of S, before reduction. */
  function RoundValue(f: Ffx, aes: BlockCipher, tw: seq<uint8>, l: Layout, roundByte: uint8, B: string)
    : (r: Result<nat>)
    requires l.d <= l.r && l.r % 16 == 0 && l.r >= 16
    ensures r.Ok? ==> r.value < Pow(256, l.d)
    ensures r.Ok? <==> SetStr(B, f.alphabet).Ok?
    ensures r.Err? ==> r == Err(SetStr(B, f.alphabet).error)
  {
    var c :- SetStr(B, f.alphabet);
    // The strip branch of FF1.js is never taken (NoLeadingZeroStrip).
    Ok(SValue(aes, f.key, PQ(f, tw, l, roundByte, NumField(BigIntToByteArray(c), l.b)), l))
  }

  /** prf over a whole buffer of whole blocks never fails. */
  function PrfOfWhole(aes: BlockCipher, key: seq<uint8>, src: seq<uint8>): (r: Result<Block>)
    requires |src| >= 16 && |src| % 16 == 0
    ensures r.Ok? && r == Prf(aes, key, src, 0, |src|)
    ensures r.value == Chain(aes, key, ZeroBlock, src)
  {
    BlockCountWhole(|src|);
    assert src[0..|src|] == src;
    Prf(aes, key, src, 0, |src|)
  }

  lemma {:induction false} BlockCountWhole(n: nat)
    requires n % 16 == 0
    ensures 16 * BlockCount(n, n) == n
  {
    if n > 0 {
      assert BlockCount(n, n) == 1 + BlockCount(n - 16, n - 16);
      BlockCountWhole(n - 16);
    }
  }

  /** The length m of the round-i numeral: u when i + [encrypt] is odd. */
  function RoundLength(l: Layout, enc: bool, i: nat): nat
  {
    if (i + (if enc then 1 else 0)) % 2 == 1 then l.u else l.v
  }

  /** The round byte of Q: i on encrypt, 9 - i on decrypt, stored into a
      Uint8Array slot. */
  function RoundByte(enc: bool, i: nat): uint8
  {
    if enc then ToUint8(i) else ToUint8(9 - i)
  }

  /** One Feistel round: c = NUM(A) +/- y mod radix^m, C = STR_m(c),
      (A, B) := (B, C). */
  function Round(f: Ffx, aes: BlockCipher, tw: seq<uint8>, l: Layout, enc: bool, i: nat, A: string, B: string)
    : (r: Result<(string, string)>)
    requires l.d <= l.r && l.r % 16 == 0 && l.r >= 16
    ensures r.Ok? ==> r.value.0 == B && |r.value.1| == RoundLength(l, enc, i) && RoundLength(l, enc, i) >= 1
  {
    var m := RoundLength(l, enc, i);
    var y0 :- RoundValue(f, aes, tw, l, RoundByte(enc, i), B);
    var a :- SetStr(A, f.alphabet);
    var C :- Str(f.alphabet, m, Mix(enc, a, y0, Pow(f.radix, m)));
    Ok((B, C))
  }

  /** c = (NUM(A) + y) mod radix^m on encrypt, (NUM(A) - y) mod radix^m on
      decrypt, with y already reduced mod radix^m. The big-integer `mod`
      keeps the sign of the dividend; a negative result gets the modulus
      added back. */
  function Mix(enc: bool, a: nat, y0: nat, p: nat): (c: nat)
    ensures p > 0 ==> c < p
    ensures p > 0 ==> c == (if enc then a + y0 % p else a - y0 % p) % p
  {
    if p == 0 then 0
    else
      var y := JsRem(y0, p);
      var z := if enc then a + y else a - y;
      var c0 := JsRem(z, p);
      TruncatedModLifted(z, p);
      if c0 < 0 then c0 + p else c0
  }

  /** A truncated remainder with the modulus added back when negative is
      the Euclidean remainder. */
  lemma TruncatedModLifted(z: int, p: nat)
    requires p > 0
    ensures (if JsRem(z, p) < 0 then JsRem(z, p) + p else JsRem(z, p)) == z % p
  {
    if z < 0 {
      NegativeMod(-z, p);
    }
  }

  lemma NegativeMod(w: nat, p: nat)
    requires p > 0
    ensures (-(w as int)) % p == if w % p == 0 then 0 else p - w % p
  {
    var q := w / p;
    var r := w % p;
    DivMod(w, p);
    if r == 0 {
      MulNeg(q, p);
      DivModUnique(-(w as int), p, -q, 0);
    } else {
      MulNeg(q, p);
      MulSub(-q, 1, p);
      DivModUnique(-(w as int), p, -q - 1, p - r);
    }
  }

  /** The decrypting mix undoes the encrypting one and vice versa. */
  lemma MixInverse(enc: bool, a: nat, y0: nat, p: nat)
    requires a < p
    ensures Mix(!enc, Mix(enc, a, y0, p), y0, p) == a
  {
    var y := y0 % p;
    var c := Mix(enc, a, y0, p);
    if enc {
      assert c == (a + y) % p;
      assert Mix(false, c, y0, p) == (c - y) % p;
      AddSubMod(a, y, p);
    } else {
      assert c == (a - y) % p;
      assert Mix(true, c, y0, p) == (c + y) % p;
      SubAddMod(a, y, p);
    }
  }

  /** The rounds of one cipher call as a Feistel step. */
  function RoundOf(f: Ffx, aes: BlockCipher, tw: seq<uint8>, l: Layout, enc: bool): Feistel.Step
    requires l.d <= l.r && l.r % 16 == 0 && l.r >= 16
  {
    (i: nat, A: string, B: string) => Round(f, aes, tw, l, enc, i, A, B)
  }

  /** The tweak in use: the one passed, or the object's default. */
  function TweakInUse(f: Ffx, twk: Option<seq<uint8>>): seq<uint8>
  {
    if twk.None? then f.twk else twk.value
  }

  /** The text length check of cipher; an undefined (NaN) minimum lets
      every length through. */
  predicate InputLengthFits(f: Ffx, n: nat)
  {
    !(f.txtmin.Finite? && n < f.txtmin.len) && n <= f.txtmax
  }

  /** The halves (A, B) cipher starts from: the first u symbols and the
      rest on encrypt, the other way round on decrypt. */
  function Split(X: string, u: nat, enc: bool): (ab: Feistel.Halves)
    requires u <= |X|
    ensures ab.0 + ab.1 == X || !enc
    ensures ab.1 + ab.0 == X || enc
  {
    if enc then (X[..u], X[u..]) else (X[u..], X[..u])
  }

  /** The output of cipher: A || B on encrypt, B || A on decrypt. */
  function Join(ab: Feistel.Halves, enc: bool): string
  {
    if enc then ab.0 + ab.1 else ab.1 + ab.0
  }

  /** cipher(X, twk, encrypt). */
  function Cipher(f: Ffx, aes: BlockCipher, X: string, twk: Option<seq<uint8>>, enc: bool): (r: Result<string>)
    ensures !InputLengthFits(f, |X|) ==> r == Err(InvalidInputLength)
    ensures InputLengthFits(f, |X|) && !TweakFits(|TweakInUse(f, twk)|, f.twkmin, f.twkmax) ==>
              r == Err(InvalidTweakLength)
  {
    var l := MakeLayout(f.radix, |X|);
    var tw := TweakInUse(f, twk);
    :- Need(InputLengthFits(f, |X|), InvalidInputLength);
    :- Need(TweakFits(|tw|, f.twkmin, f.twkmax), InvalidTweakLength);
    var AB := Split(X, l.u, enc);
    var ab :- Feistel.Run(RoundOf(f, aes, tw, l, enc), 10, AB.0, AB.1);
    Ok(Join(ab, enc))
  }

  /** encrypt(X, twk). */
  function Encrypt(f: Ffx, aes: BlockCipher, X: string, twk: Option<seq<uint8>>): (r: Result<string>)
    ensures !InputLengthFits(f, |X|) ==> r == Err(InvalidInputLength)
    ensures InputLengthFits(f, |X|) && !TweakFits(|TweakInUse(f, twk)|, f.twkmin, f.twkmax) ==>
              r == Err(InvalidTweakLength)
  {
    Cipher(f, aes, X, twk, true)
  }

  /** decrypter(X, twk). */
  function Decrypter(f: Ffx, aes: BlockCipher, X: string, twk: Option<seq<uint8>>): (r: Result<string>)
    ensures !InputLengthFits(f, |X|) ==> r == Err(InvalidInputLength)
    ensures InputLengthFits(f, |X|) && !TweakFits(|TweakInUse(f, twk)|, f.twkmin, f.twkmax) ==>
              r == Err(InvalidTweakLength)
  {
    Cipher(f, aes, X, twk, false)
  }

  /** decrypt(X): decrypter with the default tweak. */
  function Decrypt(f: Ffx, aes: BlockCipher, X: string): (r: Result<string>)
    ensures !InputLengthFits(f, |X|) ==> r == Err(InvalidInputLength)
    ensures InputLengthFits(f, |X|) && !TweakFits(|f.twk|, f.twkmin, f.twkmax) ==>
              r == Err(InvalidTweakLength)
  {
    Decrypter(f, aes, X, None)
  }
}
