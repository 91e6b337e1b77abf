/** The element-copy helpers of lib/structured/arrayUtil.js and the byte
    exclusive-or of lib/structured/FFX.js. Arrays are values here: each
    helper takes the destination and returns its new contents, so a source
    that is a different array from the destination is untouched by
    construction. */
module ArrayUtil {
  import opened Numerals

  /** `dst` with `piece` written over it from index `at`. */
  function Splice<T>(dst: seq<T>, at: nat, piece: seq<T>): (r: seq<T>)
    requires at + |piece| <= |dst|
    ensures |r| == |dst|
  {
    dst[..at] + piece + dst[at + |piece|..]
  }

  /** A sequence that agrees with `piece` from `at` on and with `dst`
      elsewhere is `dst` with `piece` spliced in. */
  lemma SpliceFrom<T>(dst: seq<T>, at: nat, piece: seq<T>, r: seq<T>)
    requires at + |piece| <= |dst| && |r| == |dst|
    requires forall k :: at <= k < at + |piece| ==> r[k] == piece[k - at]
    requires forall k :: 0 <= k < |dst| && !(at <= k < at + |piece|) ==> r[k] == dst[k]
    ensures r == Splice(dst, at, piece)
  {
    var sp := Splice(dst, at, piece);
    forall k | 0 <= k < |r|
      ensures r[k] == sp[k]
    {
      if k < at {
        assert sp[k] == dst[k];
      } else if k < at + |piece| {
        assert sp[k] == piece[k - at];
      } else {
        assert sp[k] == dst[k];
      }
    }
  }

  /** arrayCopy(src, srcPos, dst, dstPos, length): copies `length` elements
      one at a time, both positions advancing. */
  method ArrayCopy<T>(src: seq<T>, srcPos: nat, dst: seq<T>, dstPos: nat, length: nat)
    returns (r: seq<T>)
    requires srcPos + length <= |src| && dstPos + length <= |dst|
    ensures |r| == |dst|
    ensures forall i :: dstPos <= i < dstPos + length ==> r[i] == src[srcPos + (i - dstPos)]
    ensures forall i :: 0 <= i < |dst| && !(dstPos <= i < dstPos + length) ==> r[i] == dst[i]
    ensures r == Splice(dst, dstPos, src[srcPos..srcPos + length])
  {
    r := dst;
    var left: nat := length;
    var sp := srcPos;
    var dp := dstPos;
    while left > 0
      invariant left <= length
      invariant sp == srcPos + (length - left) && dp == dstPos + (length - left)
      invariant |r| == |dst|
      invariant forall i :: dstPos <= i < dp ==> i < |r| && r[i] == src[i - dstPos + srcPos]
      invariant forall i :: 0 <= i < |dst| && !(dstPos <= i < dp) ==> r[i] == dst[i]
    {
      r := r[dp := src[sp]];
      dp := dp + 1;
      sp := sp + 1;
      left := left - 1;
    }
    var piece := src[srcPos..srcPos + length];
    forall i | 0 <= i < |r|
      ensures r[i] == Splice(dst, dstPos, piece)[i]
    {
      if i < dstPos {
      } else if i < dstPos + length {
        assert Splice(dst, dstPos, piece)[i] == piece[i - dstPos] == src[i - dstPos + srcPos];
      } else {
        assert Splice(dst, dstPos, piece)[i] == dst[i];
      }
    }
  }

  /** A zero-length copy leaves the destination as it was. */
  lemma ArrayCopyEmpty<T>(src: seq<T>, srcPos: nat, dst: seq<T>, dstPos: nat)
    requires srcPos <= |src| && dstPos <= |dst|
    ensures Splice(dst, dstPos, src[srcPos..srcPos]) == dst
  {
    assert dst[..dstPos] + [] + dst[dstPos..] == dst;
  }

  /** The number of elements copyOfRange writes: none when start is not
      below end, as the JS loop does not run then. */
  function RangeLength(start: nat, end: nat): nat
  {
    if start <= end then end - start else 0
  }

  /** copyOfRange(src, start, end, dst, destOff): writes src[start..end) into
      dst from destOff, and nothing when start >= end. The JS function
      returns nothing. */
  method CopyOfRange<T>(src: seq<T>, start: nat, end: nat, dst: seq<T>, destOff: nat)
    returns (r: seq<T>)
    requires start <= end ==> end <= |src| && destOff + (end - start) <= |dst|
    ensures |r| == |dst|
    ensures end <= start ==> r == dst
    ensures forall i :: destOff <= i < destOff + RangeLength(start, end) ==> r[i] == src[start + (i - destOff)]
    ensures forall i :: 0 <= i < |dst| && !(destOff <= i < destOff + RangeLength(start, end)) ==> r[i] == dst[i]
  {
    r := dst;
    if end <= start {
      return;
    }
    var off := destOff;
    for i := start to end
      invariant off == destOff + (i - start)
      invariant |r| == |dst|
      invariant forall k :: destOff <= k < off ==> r[k] == src[start + (k - destOff)]
      invariant forall k :: 0 <= k < |dst| && !(destOff <= k < off) ==> r[k] == dst[k]
    {
      r := r[off := src[i]];
      off := off + 1;
    }
  }

  /** The byte-wise exclusive-or of two blocks of one length. */
  function Xor(a: seq<uint8>, b: seq<uint8>): (r: seq<uint8>)
    requires |a| == |b|
    ensures |r| == |a| && forall i :: 0 <= i < |a| ==> r[i] == XorByte(a[i], b[i])
  {
    seq(|a|, i requires 0 <= i < |a| => XorByte(a[i], b[i]))
  }

  /** The JS `^` of two byte values. */
  function XorByte(x: uint8, y: uint8): uint8
  {
    ((x as bv8) ^ (y as bv8)) as uint8
  }

  lemma XorByteZero(x: uint8)
    ensures XorByte(0, x) == x
  {
    assert (0 as bv8) ^ (x as bv8) == x as bv8;
  }

  /** A zero block is the identity of the exclusive-or. */
  lemma XorZero(a: seq<uint8>)
    ensures Xor(seq(|a|, _ => 0), a) == a
  {
    var z: seq<uint8> := seq(|a|, _ => 0);
    forall i | 0 <= i < |a|
      ensures Xor(z, a)[i] == a[i]
    {
      XorByteZero(a[i]);
    }
  }

  /** xor(d, doff, s1, s1off, s2, s2off, len) with d distinct from both
      sources. */
  method XorInto(d: seq<uint8>, doff: nat, s1: seq<uint8>, s1off: nat, s2: seq<uint8>, s2off: nat, len: nat)
    returns (r: seq<uint8>)
    requires doff + len <= |d| && s1off + len <= |s1| && s2off + len <= |s2|
    ensures r == Splice(d, doff, Xor(s1[s1off..s1off + len], s2[s2off..s2off + len]))
  {
    r := d;
    for i := 0 to len
      invariant |r| == |d|
      invariant forall k :: doff <= k < doff + i ==> r[k] == XorByte(s1[s1off + (k - doff)], s2[s2off + (k - doff)])
      invariant forall k :: 0 <= k < |d| && !(doff <= k < doff + i) ==> r[k] == d[k]
    {
      r := r[doff + i := XorByte(s1[s1off + i], s2[s2off + i])];
    }
    var piece := Xor(s1[s1off..s1off + len], s2[s2off..s2off + len]);
    forall k | doff <= k < doff + len
      ensures r[k] == piece[k - doff]
    {
      assert s1[s1off..s1off + len][k - doff] == s1[s1off + (k - doff)];
      assert s2[s2off..s2off + len][k - doff] == s2[s2off + (k - doff)];
    }
    SpliceFrom(d, doff, piece, r);
  }

  /** xor(R, l, R, 0, R, l, 16) as FF1 calls it: the destination is also
      the second source, at the same offset, so each byte is read before
      it is overwritten. */
  method XorInPlace(a: seq<uint8>, doff: nat, s1off: nat, len: nat) returns (r: seq<uint8>)
    requires doff + len <= |a| && s1off + len <= doff
    ensures r == Splice(a, doff, Xor(a[s1off..s1off + len], a[doff..doff + len]))
  {
    r := a;
    for i := 0 to len
      invariant |r| == |a|
      invariant forall k :: doff <= k < doff + i ==> r[k] == XorByte(a[s1off + (k - doff)], a[k])
      invariant forall k :: 0 <= k < |a| && !(doff <= k < doff + i) ==> r[k] == a[k]
    {
      r := r[doff + i := XorByte(r[s1off + i], r[doff + i])];
    }
    var piece := Xor(a[s1off..s1off + len], a[doff..doff + len]);
    forall k | doff <= k < doff + len
      ensures r[k] == piece[k - doff]
    {
      assert a[s1off..s1off + len][k - doff] == a[s1off + (k - doff)];
      assert a[doff..doff + len][k - doff] == a[k];
    }
    SpliceFrom(a, doff, piece, r);
  }
}
