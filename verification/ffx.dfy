/** The FFX base of lib/structured/FFX.js on its custom-alphabet path:
    construction-time validation, the AES-CBC-MAC pseudo-random function
    (Algorithm 6 of NIST SP 800-38G), the single-block cipher, the
    fixed-length numeral rendering `str`, and the minimal big-endian bytes
    of an integer. AES itself is a parameter: any function on 16-byte
    blocks under a key. */
module Ffx {
  import opened Wrappers
  import opened Numerals
  import opened Bn
  import opened StrUtils
  import opened ArrayUtil

  type Block = s: seq<uint8> | |s| == 16 witness [0, 0, 0, 0, 0, 0, 0, 0, 0, 0, 0, 0, 0, 0, 0, 0]

  /** The all-zero block: the CBC initialisation vector. */
  const ZeroBlock: Block := [0, 0, 0, 0, 0, 0, 0, 0, 0, 0, 0, 0, 0, 0, 0, 0]

  /** An uninterpreted block cipher: key bytes and a block to a block. */
  type BlockCipher = (seq<uint8>, Block) -> Block

  // ---------------------------------------------------------------------
  // Construction

  /** The minimum text length as JS computes it: a number, or NaN when
      log10(radix) is zero (radix 1). Every comparison with NaN is false. */
  datatype MinLen = Finite(len: nat) | NaN

  /** The least m with radix^m >= 1,000,000 (radix >= 2); 0 for radix 0,
      where log10 is -Infinity; NaN for radix 1, where 6 / 0 is Infinity
      and parseInt("Infinity") is NaN. */
  function TxtMin(radix: nat): (t: MinLen)
    ensures radix == 0 ==> t == Finite(0)
    ensures radix == 1 ==> t == NaN
    ensures radix >= 2 ==> t.Finite? && Pow(radix, t.len) >= 1000000 &&
                           (t.len == 0 || Pow(radix, t.len - 1) < 1000000)
  {
    if radix == 0 then Finite(0)
    else if radix == 1 then NaN
    else
      DigitCountBounds(999999, radix);
      Finite(DigitCount(999999, radix))
  }

  /** `a > b` where either may be undefined. */
  function Greater(a: Option<nat>, b: Option<nat>): bool
  {
    a.Some? && b.Some? && a.value > b.value
  }

  /** `len < bound` where the bound may be undefined. */
  function Below(len: nat, bound: Option<nat>): bool
  {
    bound.Some? && len < bound.value
  }

  /** `bound > 0 && len > bound`: a positive maximum that is exceeded. */
  function Exceeds(len: nat, bound: Option<nat>): bool
  {
    bound.Some? && bound.value > 0 && len > bound.value
  }

  /** The state an FFX object keeps after construction. */
  datatype Ffx = Ffx(key: seq<uint8>, radix: nat, txtmin: MinLen, txtmax: nat,
                     twkmin: Option<nat>, twkmax: Option<nat>, twk: seq<uint8>,
                     alphabet: string)

  /** A tweak length the bounds accept: not below a defined minimum and not
      above a defined positive maximum (a maximum of 0 means unbounded). */
  predicate TweakFits(len: nat, twkmin: Option<nat>, twkmax: Option<nat>)
  {
    !Below(len, twkmin) && !Exceeds(len, twkmax)
  }

  /** The FFX constructor: the checks in source order, then the state. */
  function New(key: seq<uint8>, twk: Option<seq<uint8>>, txtmax: nat, twkmin: Option<nat>,
               twkmax: Option<nat>, radix: nat, alphabet: string): (r: Result<Ffx>)
    ensures |key| != 16 && |key| != 24 && |key| != 32 ==> r == Err(KeySize(|key|))
    ensures r.Ok? ==> |key| in {16, 24, 32} && twk.Some?
    ensures r.Ok? && radix >= 2 ==>
              r.value.txtmin.Finite? && 2 <= r.value.txtmin.len <= txtmax && Pow(radix, r.value.txtmin.len) >= 1000000
    ensures r.Ok? ==> !Greater(twkmin, twkmax) && TweakFits(|twk.value|, twkmin, twkmax)
    ensures r.Ok? ==> r.value == Ffx(key, radix, TxtMin(radix), txtmax, twkmin, twkmax, twk.value, alphabet)
    ensures |key| in {16, 24, 32} && radix >= 2 && twk.Some? ==>
              (r.Ok? <==> 2 <= TxtMin(radix).len <= txtmax &&
                          !Greater(twkmin, twkmax) && TweakFits(|twk.value|, twkmin, twkmax))
    ensures twk.None? && r.Err? && |key| in {16, 24, 32} ==> r.error in {MinTextLengthRange, InvalidTweak}
  {
    var txtmin := TxtMin(radix);
    :- Need(|key| == 16 || |key| == 24 || |key| == 32, KeySize(|key|));
    :- Need(!(txtmin.Finite? && (txtmin.len < 2 || txtmin.len > txtmax)), MinTextLengthRange);
    :- Need(twk.Some?, InvalidTweak);
    :- Need(!(Greater(twkmin, twkmax) || Below(|twk.value|, twkmin) || Exceeds(|twk.value|, twkmax)),
            InvalidTweakLength);
    Ok(Ffx(key, radix, txtmin, txtmax, twkmin, twkmax, twk.value, alphabet))
  }

  /** Key sizes are the three AES key sizes. */
  lemma NewKeySizes(key: seq<uint8>, twk: Option<seq<uint8>>, txtmax: nat, twkmin: Option<nat>,
                    twkmax: Option<nat>, radix: nat, alphabet: string)
    requires New(key, twk, txtmax, twkmin, twkmax, radix, alphabet).Ok?
    ensures |key| == 16 || |key| == 24 || |key| == 32
  {
  }

  // ---------------------------------------------------------------------
  // prf, ciph

  /** AES-CBC over the whole blocks of `src`, starting from `iv`; the last
      output block. */
  function Chain(aes: BlockCipher, key: seq<uint8>, iv: Block, src: seq<uint8>): Block
    requires |src| % 16 == 0
    decreases |src|
  {
    if |src| == 0 then iv
    else aes(key, Xor(Chain(aes, key, iv, src[..|src| - 16]), src[|src| - 16..]))
  }

  /** JS `a % b` for b > 0: the remainder takes the sign of the dividend. */
  function JsRem(a: int, b: nat): (r: int)
    requires b > 0
    ensures a >= 0 ==> r == a % b
    ensures a < 0 ==> r == -((-a) % b)
  {
    if a >= 0 then a % b else -((-a) % b)
  }

  /** The number of iterations of `for (i = 0; i < len && i < avail; i += 16)`. */
  function BlockCount(avail: int, len: int): (k: nat)
    ensures k > 0 ==> 16 * (k - 1) < len && 16 * (k - 1) < avail
    ensures 16 * k >= len || 16 * k >= avail
  {
    if avail <= 0 || len <= 0 then 0
    else 1 + BlockCount(avail - 16, len - 16)
  }

  /** prf(dst, doff, src, soff, len) as the block it writes: the last block
      of AES-CBC with a zero IV over src's blocks from soff, as many as the
      loop visits. With no block visited the JS reads `.length` of undefined. */
  function Prf(aes: BlockCipher, key: seq<uint8>, src: seq<uint8>, soff: nat, len: int): (r: Result<Block>)
    ensures JsRem(|src| - soff, 16) != 0 ==> r == Err(InvalidSourceLength)
    ensures r.Ok? ==> soff <= |src| && (|src| - soff) % 16 == 0 &&
                      0 < 16 * BlockCount(|src| - soff, len) <= |src| - soff &&
                      r.value == Chain(aes, key, ZeroBlock, src[soff..soff + 16 * BlockCount(|src| - soff, len)])
    ensures r.Err? ==> r.error in {InvalidSourceLength, TypeError}
  {
    var avail := |src| - soff;
    if JsRem(avail, 16) != 0 then Err(InvalidSourceLength)
    else
      var k := BlockCount(avail, len);
      if k == 0 then Err(TypeError)
      else
        assert 16 * k <= avail by {
          BlockCountFits(avail, len);
        }
        Ok(Chain(aes, key, ZeroBlock, src[soff..soff + 16 * k]))
  }

  lemma {:induction false} BlockCountFits(avail: int, len: int)
    requires avail >= 0 && avail % 16 == 0
    ensures 16 * BlockCount(avail, len) <= avail
    decreases avail
  {
    if avail > 0 && len > 0 {
      BlockCountFits(avail - 16, len - 16);
    }
  }

  /** One step of the CBC chain: appending a block. */
  lemma ChainSnoc(aes: BlockCipher, key: seq<uint8>, iv: Block, src: seq<uint8>, blk: Block)
    requires |src| % 16 == 0
    ensures Chain(aes, key, iv, src + blk) == aes(key, Xor(Chain(aes, key, iv, src), blk))
  {
    assert (src + blk)[..|src + blk| - 16] == src;
    assert (src + blk)[|src + blk| - 16..] == blk;
  }

  /** The loop of prf: encrypt block after block from soff while
      i < len && i < avail; the last output block, if any. */
  method PrfLoop(aes: BlockCipher, key: seq<uint8>, src: seq<uint8>, soff: nat, len: int)
    returns (tempResult: Option<Block>)
    requires soff <= |src| && (|src| - soff) % 16 == 0
    ensures BlockCount(|src| - soff, len) == 0 ==> tempResult == None
    ensures BlockCount(|src| - soff, len) > 0 ==>
              16 * BlockCount(|src| - soff, len) <= |src| - soff &&
              tempResult == Some(Chain(aes, key, ZeroBlock, src[soff..soff + 16 * BlockCount(|src| - soff, len)]))
  {
    var avail := |src| - soff;
    tempResult := None;
    var k := 0;
    while 16 * k < len && 16 * k < avail
      invariant 16 * k <= avail
      invariant k > 0 ==> 16 * (k - 1) < len
      invariant k == 0 ==> tempResult == None
      invariant k > 0 ==> tempResult == Some(Chain(aes, key, ZeroBlock, src[soff..soff + 16 * k]))
      decreases avail - 16 * k
    {
      var chain := if k == 0 then ZeroBlock else tempResult.value;
      PrfAdvance(aes, key, src, soff, len, k, chain);
      var temp: Block := src[soff + 16 * k..soff + 16 * k + 16];
      tempResult := Some(aes(key, Xor(chain, temp)));
      k := k + 1;
    }
    BlockCountExact(avail, len, k);
    PrfLoopResult(aes, key, src, soff, len, k, tempResult);
  }

  /** The state the prf loop stops in, restated with the number of blocks
      it visits. */
  lemma PrfLoopResult(aes: BlockCipher, key: seq<uint8>, src: seq<uint8>, soff: nat, len: int, k: nat,
                      t: Option<Block>)
    requires soff <= |src| && (|src| - soff) % 16 == 0
    requires BlockCount(|src| - soff, len) == k && 16 * k <= |src| - soff
    requires k == 0 ==> t == None
    requires k > 0 ==> t == Some(Chain(aes, key, ZeroBlock, src[soff..soff + 16 * k]))
    ensures BlockCount(|src| - soff, len) == 0 ==> t == None
    ensures BlockCount(|src| - soff, len) > 0 ==>
              16 * BlockCount(|src| - soff, len) <= |src| - soff &&
              t == Some(Chain(aes, key, ZeroBlock, src[soff..soff + 16 * BlockCount(|src| - soff, len)]))
  {
  }

  /** The loop stops after exactly BlockCount iterations. */
  lemma {:induction false} BlockCountExact(avail: int, len: int, k: nat)
    requires avail % 16 == 0 && 16 * k <= avail
    requires k > 0 ==> 16 * (k - 1) < len
    requires 16 * k >= len || 16 * k >= avail
    ensures BlockCount(avail, len) == k
  {
    if k > 0 {
      BlockCountExact(avail - 16, len - 16, k - 1);
    }
  }

  /** One iteration of the prf loop, from block k to block k + 1. */
  lemma PrfAdvance(aes: BlockCipher, key: seq<uint8>, src: seq<uint8>, soff: nat, len: int, k: nat, chain: Block)
    requires soff <= |src| && (|src| - soff) % 16 == 0
    requires 16 * k < len && 16 * k < |src| - soff
    requires k == 0 ==> chain == ZeroBlock
    requires k > 0 ==> chain == Chain(aes, key, ZeroBlock, src[soff..soff + 16 * k])
    ensures soff + 16 * k + 16 <= |src|
    ensures aes(key, Xor(chain, src[soff + 16 * k..soff + 16 * k + 16]))
            == Chain(aes, key, ZeroBlock, src[soff..soff + 16 * k + 16])
  {
    var i := 16 * k;
    NextBlockFits(|src| - soff, k);
    PrfStep(aes, key, src, soff, i, chain);
  }

  /** A whole block starts below a length that is a multiple of 16 only
      if it ends within it. */
  lemma NextBlockFits(avail: int, k: nat)
    requires avail % 16 == 0 && 16 * k < avail
    ensures 16 * k + 16 <= avail
  {
  }

  /** One iteration of the prf loop extends the CBC chain by one block. */
  lemma PrfStep(aes: BlockCipher, key: seq<uint8>, src: seq<uint8>, soff: nat, i: nat, chain: Block)
    requires i % 16 == 0 && soff + i + 16 <= |src|
    requires i == 0 ==> chain == ZeroBlock
    requires i > 0 ==> chain == Chain(aes, key, ZeroBlock, src[soff..soff + i])
    ensures aes(key, Xor(chain, src[soff + i..soff + i + 16])) == Chain(aes, key, ZeroBlock, src[soff..soff + i + 16])
  {
    var prefix := src[soff..soff + i];
    var blk: Block := src[soff + i..soff + i + 16];
    if i == 0 {
      assert prefix == [];
    }
    ChainSnoc(aes, key, ZeroBlock, prefix, blk);
    assert prefix + blk == src[soff..soff + i + 16];
  }

  /** prf: check the source length, run the loop, and write the last block
      into dst at doff; with no block the JS reads `.length` of undefined. */
  method PrfInto(aes: BlockCipher, key: seq<uint8>, dst: seq<uint8>, doff: nat,
                 src: seq<uint8>, soff: nat, len: int) returns (r: Result<seq<uint8>>)
    requires doff + 16 <= |dst|
    ensures Prf(aes, key, src, soff, len).Err? ==> r == Err(Prf(aes, key, src, soff, len).error)
    ensures Prf(aes, key, src, soff, len).Ok? ==>
              r == Ok(Splice(dst, doff, Prf(aes, key, src, soff, len).value))
  {
    if JsRem(|src| - soff, 16) != 0 {
      return Err(InvalidSourceLength);
    }
    if soff > |src| {
      return Err(TypeError);
    }
    var tempResult := PrfLoop(aes, key, src, soff, len);
    if tempResult.None? {
      return Err(TypeError);
    }
    var out := ArrayCopy(tempResult.value, 0, dst, doff, 16);
    assert tempResult.value[0..16] == tempResult.value;
    return Ok(out);
  }

  /** ciph/ciphh: prf over one block is one block encryption. */
  lemma CiphIsOneBlock(aes: BlockCipher, key: seq<uint8>, src: seq<uint8>, off: nat)
    requires off + 16 <= |src| && (|src| - off) % 16 == 0
    ensures Prf(aes, key, src, off, 16) == Ok(aes(key, src[off..off + 16]))
  {
    var blk: Block := src[off..off + 16];
    var n := |src| - off;
    assert BlockCount(n - 16, 0) == 0;
    assert BlockCount(n, 16) == 1;
    assert JsRem(n, 16) == 0;
    assert src[off..off + 16 * 1] == blk;
    ChainOne(aes, key, blk);
  }

  /** CBC over a single block with a zero IV is one block encryption. */
  lemma ChainOne(aes: BlockCipher, key: seq<uint8>, blk: Block)
    ensures Chain(aes, key, ZeroBlock, blk) == aes(key, blk)
  {
    assert blk[..0] == [] && blk[0..] == blk;
    assert Chain(aes, key, ZeroBlock, blk) == aes(key, Xor(ZeroBlock, blk));
    assert ZeroBlock == seq(16, _ => 0);
    XorZero(blk);
  }

  // ---------------------------------------------------------------------
  // str

  /** str(m, r, i) on the custom-alphabet path: exactly m symbols, padded
      on the left with the alphabet's first symbol. */
  function Str(alphabet: string, m: nat, i: nat): (r: Result<string>)
    requires |alphabet| > 0
    ensures r.Ok? <==> m >= 1 && i < Pow(|alphabet|, m)
    ensures r.Ok? ==> |r.value| == m && r.value == Symbols(alphabet, Digits(i, |alphabet|, m))
    ensures r.Err? ==> r.error == (if |alphabet| == 1 && i > 0 then Hangs else StringExceeds)
  {
    StrFacts(alphabet, m, i);
    var s :- GetStr(alphabet, i);
    if |s| > m then Err(StringExceeds)
    else if |s| < m then Ok(PadStart(s, m, alphabet[0]))
    else Ok(s)
  }

  lemma StrFacts(alphabet: string, m: nat, i: nat)
    requires |alphabet| > 0
    ensures GetStr(alphabet, i).Ok? ==>
              (|GetStr(alphabet, i).value| <= m <==> m >= 1 && i < Pow(|alphabet|, m))
    ensures GetStr(alphabet, i).Ok? && |GetStr(alphabet, i).value| <= m ==>
              PadStart(GetStr(alphabet, i).value, m, alphabet[0]) == Symbols(alphabet, Digits(i, |alphabet|, m))
    ensures GetStr(alphabet, i).Err? ==> !(i < Pow(|alphabet|, m))
  {
    if |alphabet| == 1 {
      StrFactsUnary(alphabet, m, i);
    } else {
      StrFactsWide(alphabet, m, i);
    }
  }

  /** StrFacts for a one-symbol alphabet. */
  lemma StrFactsUnary(alphabet: string, m: nat, i: nat)
    requires |alphabet| == 1
    ensures GetStr(alphabet, i).Ok? ==>
              (|GetStr(alphabet, i).value| <= m <==> m >= 1 && i < Pow(|alphabet|, m))
    ensures GetStr(alphabet, i).Ok? && |GetStr(alphabet, i).value| <= m ==>
              PadStart(GetStr(alphabet, i).value, m, alphabet[0]) == Symbols(alphabet, Digits(i, |alphabet|, m))
    ensures GetStr(alphabet, i).Err? ==> !(i < Pow(|alphabet|, m))
  {
    PowOfOne(m);
    if i == 0 && m >= 1 {
      ZeroDigits(1, m);
      SymbolsOfZeros(alphabet, m);
      PadStartRepeat([alphabet[0]], m, alphabet[0]);
      assert Repeat(alphabet[0], m - 1) + [alphabet[0]] == Repeat(alphabet[0], m);
    }
  }

  /** StrFacts for an alphabet of two symbols or more. */
  lemma StrFactsWide(alphabet: string, m: nat, i: nat)
    requires |alphabet| >= 2
    ensures GetStr(alphabet, i).Ok? ==>
              (|GetStr(alphabet, i).value| <= m <==> m >= 1 && i < Pow(|alphabet|, m))
    ensures GetStr(alphabet, i).Ok? && |GetStr(alphabet, i).value| <= m ==>
              PadStart(GetStr(alphabet, i).value, m, alphabet[0]) == Symbols(alphabet, Digits(i, |alphabet|, m))
    ensures GetStr(alphabet, i).Err? ==> !(i < Pow(|alphabet|, m))
  {
    var rad := |alphabet|;
    var g := GetStr(alphabet, i).value;
    if m >= 1 && i < Pow(rad, m) {
      GetStrPadded(alphabet, i, m);
    }
    if |g| <= m {
      PowMonotone(rad, |g|, m);
    }
  }

  /** Rendering the value of an m-symbol string over a distinct alphabet
      at width m gives the string back. */
  lemma StrOfNum(alphabet: string, s: string)
    requires Distinct(alphabet) && |alphabet| > 0 && AllIn(s, alphabet) && |s| >= 1
    ensures Str(alphabet, |s|, Num(Indices(s, alphabet), |alphabet|)) == Ok(s)
  {
    var d := Indices(s, alphabet);
    NumBound(d, |alphabet|);
    DigitsNum(d, |alphabet|);
    SymbolsOfIndices(s, alphabet);
  }

  // ---------------------------------------------------------------------
  // BigIntToByteArray

  /** Pairs of hexadecimal digits read as bytes, as the loop of
      BigIntToByteArray parses `hex[j] hex[j + 1]`. */
  function HexPairs(h: seq<nat>): (r: seq<uint8>)
    requires IsDigits(h, 16) && |h| % 2 == 0
    ensures |r| == |h| / 2
  {
    if |h| == 0 then []
    else
      HexPairs(h[..|h| - 2]) + [PairByte(h[|h| - 2], h[|h| - 1])]
  }

  lemma {:induction false} HexPairsValue(h: seq<nat>)
    requires IsDigits(h, 16) && |h| % 2 == 0
    ensures BigEndianValue(HexPairs(h)) == Num(h, 16)
  {
    if |h| > 0 {
      var q := h[..|h| - 2];
      var a := h[|h| - 2];
      var b := h[|h| - 1];
      HexPairsValue(q);
      var byte := PairByte(a, b);
      assert HexPairs(h) == HexPairs(q) + [byte];
      BigEndianSnoc(HexPairs(q), byte);
      assert h == q + [a, b];
      NumPair(q, a, b);
    }
  }

  /** Two hexadecimal digits as one byte. */
  function PairByte(a: nat, b: nat): (r: uint8)
    requires a < 16 && b < 16
    ensures r as nat == 16 * a + b
  {
    MulMonotone(a, 15, 16);
    (16 * a + b) as uint8
  }

  lemma Regroup(x: nat, a: nat, b: nat)
    ensures (x * 16 + a) * 16 + b == x * 256 + (16 * a + b)
  {
  }

  lemma NumPair(q: seq<nat>, a: nat, b: nat)
    ensures Num(q + [a, b], 16) == Num(q, 16) * 256 + (16 * a + b)
  {
    assert q + [a, b] == (q + [a]) + [b];
    NumSnoc(q + [a], b, 16);
    NumSnoc(q, a, 16);
    Regroup(Num(q, 16), a, b);
  }

  lemma {:induction false} HexPairsFirst(h: seq<nat>)
    requires IsDigits(h, 16) && |h| % 2 == 0 && |h| >= 2
    ensures HexPairs(h)[0] as nat == 16 * h[0] + h[1]
  {
    if |h| > 2 {
      HexPairsFirst(h[..|h| - 2]);
    }
  }

  /** The hexadecimal digits of `bn.toString(16)`: "0" for zero. */
  function HexDigits(bn: nat): (h: seq<nat>)
    ensures IsDigits(h, 16) && |h| >= 1 && Num(h, 16) == bn
    ensures bn > 0 ==> h[0] != 0
    ensures bn == 0 ==> h == [0]
  {
    if bn == 0 then
      assert Num([0], 16) == 0 by {
        assert [0][..0] == [];
      }
      [0]
    else
      var n := DigitCount(bn, 16);
      DigitCountBounds(bn, 16);
      NumDigits(bn, 16, n);
      LeadingDigitNonZero(Digits(bn, 16, n), 16);
      Digits(bn, 16, n)
  }

  /** BigIntToByteArray: the hexadecimal string, a leading '0' added to make
      its length even, read two digits per byte. */
  function BigIntToByteArray(bn: nat): (u8: seq<uint8>)
    ensures |u8| >= 1 && BigEndianValue(u8) == bn && bn < Pow(256, |u8|)
    ensures bn == 0 ==> u8 == [0]
    ensures bn > 0 ==> u8[0] != 0 && Pow(256, |u8| - 1) <= bn
  {
    var hex := HexDigits(bn);
    var padded := EvenLength(hex);
    HexPairsValue(padded);
    HexPairsFirst(padded);
    MinimalBytes(HexPairs(padded));
    HexPairs(padded)
  }

  /** A leading zero digit added to an odd-length digit string. */
  function EvenLength(hex: seq<nat>): (p: seq<nat>)
    requires IsDigits(hex, 16) && |hex| >= 1
    ensures IsDigits(p, 16) && |p| % 2 == 0 && |p| >= 2 && Num(p, 16) == Num(hex, 16)
    ensures hex[0] != 0 ==> 16 * p[0] + p[1] != 0
    ensures hex == [0] ==> p == [0, 0]
  {
    if |hex| % 2 == 1 then
      assert [0] + hex == Zeros(1) + hex;
      NumLeadingZeros(1, hex, 16);
      [0] + hex
    else
      hex
  }

  /** A byte string reads below 256^length, and at least 256^(length-1)
      when its first byte is not zero. */
  lemma MinimalBytes(s: seq<uint8>)
    requires |s| >= 1
    ensures BigEndianValue(s) < Pow(256, |s|)
    ensures s[0] != 0 ==> Pow(256, |s| - 1) <= BigEndianValue(s)
  {
    NumBound(ByteDigits(s), 256);
    if s[0] != 0 {
      LeadingByte(s);
    }
  }

  lemma LeadingByte(s: seq<uint8>)
    requires |s| >= 1 && s[0] != 0
    ensures Pow(256, |s| - 1) <= BigEndianValue(s)
  {
    var rest := s[1..];
    assert s == [s[0]] + rest;
    BigEndianCons(s[0], rest);
    MulMonotone(1, s[0] as nat, Pow(256, |rest|));
  }

  /** The strip at FF1.js:113-123 never applies: the only array with a
      leading zero byte is the one-byte encoding of zero. */
  lemma NoLeadingZeroByte(bn: nat)
    ensures !(BigIntToByteArray(bn)[0] == 0 && |BigIntToByteArray(bn)| > 1)
  {
  }
}
