/** The JS integer conversions behind `x >> k` stored into a Uint8Array
    slot, as FF1 writes the radix, the lengths and the block counters into
    its byte buffers. */
module JsBits {
  import opened Numerals

  const TwoTo32: nat := 0x1_0000_0000
  const TwoTo31: nat := 0x8000_0000

  /** ToInt32: wrap into [-2^31, 2^31). */
  function ToInt32(x: int): (r: int)
    ensures -(TwoTo31 as int) <= r < TwoTo31
    ensures (r - x) % TwoTo32 == 0
  {
    var w := x % TwoTo32;
    if w >= TwoTo31 then w - TwoTo32 else w
  }

  /** `v >> k` on an int32 value: an arithmetic shift, i.e. floor division
      (Dafny's division by a positive divisor rounds down). */
  function Sar(v: int, k: nat): int
  {
    PowPositive(2, k);
    v / Pow(2, k)
  }

  /** The byte a Uint8Array stores for a number: its value modulo 256. */
  function ToUint8(v: int): uint8
  {
    (v % 256) as uint8
  }

  /** `(x >> k)` stored into a byte: the JS expression of FF1.js. */
  function ShiftedByte(x: int, k: nat): uint8
  {
    ToUint8(Sar(ToInt32(x), k))
  }

  lemma ModAddMultiple(t: int, z: int)
    ensures (256 * t + z) % 256 == z % 256
  {
    ModOfMultiplePlus(t, 256, z);
  }

  /** Dividing the int32 wrap of x by a divisor p of 2^32 / 256 leaves the
      low byte of x / p unchanged. */
  lemma WrapThenDivide(x: nat, p: nat, c: nat)
    requires p > 0 && TwoTo32 == (c * 256) * p
    ensures ToInt32(x) / p % 256 == x / p % 256
  {
    var w := x % TwoTo32;
    var a := x / TwoTo32;
    assert x == a * TwoTo32 + w;
    assert x == (a * c * 256) * p + w;
    DivAddMultiple(a * c * 256, p, w);
    ModAddMultiple(a * c, w / p);
    if w >= TwoTo31 {
      assert w - TwoTo32 == (-(c as int) * 256) * p + w;
      DivAddMultiple(-(c as int) * 256, p, w);
      ModAddMultiple(-(c as int), w / p);
    }
  }

  lemma ShiftDivisor(k: nat)
    requires k == 0 || k == 8 || k == 16 || k == 24
    ensures Pow(2, k) == Pow(256, k / 8) > 0
    ensures TwoTo32 == ((TwoTo32 / (256 * Pow(2, k))) * 256) * Pow(2, k)
  {
    PowMul(2, 8, k / 8);
    PowPositive(2, k);
    assert Pow(2, 8) == 256 by {
      assert Pow(2, 4) == 16;
    }
    if k == 0 {
    } else if k == 8 {
    } else if k == 16 {
      assert Pow(256, 2) == 65536;
    } else {
      assert Pow(256, 3) == 16777216 by {
        assert Pow(256, 2) == 65536;
      }
    }
  }

  /** For a shift by 0, 8, 16 or 24, the stored byte is byte k/8 of x
      counted from the least significant, for every non-negative x: the
      32-bit wrap-around and the sign of the arithmetic shift never reach
      the low eight bits. */
  lemma ShiftedByteIsByteAt(x: nat, k: nat)
    requires k == 0 || k == 8 || k == 16 || k == 24
    ensures ShiftedByte(x, k) == ByteAt(x, k / 8)
  {
    ShiftDivisor(k);
    WrapThenDivide(x, Pow(2, k), TwoTo32 / (256 * Pow(2, k)));
  }

  // ---------------------------------------------------------------------
  // `x << s` and `x >> s` on numbers, as the orchestrators use them to hide
  // the key number in the first cipher-text symbol.

  /** The shift count JS uses: the low five bits of the right operand. */
  function ShiftCount(s: nat): nat
  {
    s % 32
  }

  /** `x << s`: the int32 wrap of x shifted left, wrapped again. */
  function Shl32(x: int, s: nat): (r: int)
    ensures -(TwoTo31 as int) <= r < TwoTo31
  {
    ToInt32(ToInt32(x) * Pow(2, ShiftCount(s)))
  }

  /** `x >> s`: the arithmetic shift of the int32 wrap of x. */
  function Sar32(x: int, s: nat): int
  {
    Sar(ToInt32(x), ShiftCount(s))
  }

  /** Values already in int32 range are left alone by the wrap. */
  lemma ToInt32Small(y: int)
    requires 0 <= y < TwoTo31
    ensures ToInt32(y) == y
  {
  }

  /** Without overflow, `k << s` is k times 2^s. */
  lemma ShlNoWrap(k: nat, s: nat)
    requires k * Pow(2, ShiftCount(s)) < TwoTo31
    ensures Shl32(k, s) == k * Pow(2, ShiftCount(s))
  {
    var p := Pow(2, ShiftCount(s));
    PowPositive(2, ShiftCount(s));
    MulMonotone(1, p, k);
    ToInt32Small(k);
    ToInt32Small(k * p);
  }

  /** Hiding k above the low s bits of idx and recovering it: when idx fits
      in those bits and the sum stays below 2^31, `v >> s` gives back k and
      `v - (k << s)` gives back idx. */
  lemma KeyEmbedding(idx: nat, k: nat, s: nat)
    requires idx < Pow(2, ShiftCount(s))
    requires idx + k * Pow(2, ShiftCount(s)) < TwoTo31
    ensures var v := idx + Shl32(k, s);
            Sar32(v, s) == k && v - Shl32(Sar32(v, s), s) == idx
  {
    var p := Pow(2, ShiftCount(s));
    PowPositive(2, ShiftCount(s));
    ShlNoWrap(k, s);
    var v := idx + k * p;
    assert idx + Shl32(k, s) == v;
    ToInt32Small(v);
    DivModUnique(v, p, k, idx);
    assert Sar32(v, s) == v / p == k;
  }
}
