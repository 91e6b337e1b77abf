/** String helpers of lib/structured/strUtils.js and the JS string
    primitives the codec relies on (`substring`, `substr`, `padStart`). */
module StrUtils {

  /** The index `String.prototype.substring` uses for an argument `p`:
      clamped into [0, len]. */
  function ClampIndex(len: nat, p: int): (k: nat)
    ensures k <= len
  {
    if p < 0 then 0 else if p > len then len else p
  }

  /** The start index of `String.prototype.substr(p)`: a negative `p`
      counts from the end. */
  function SubstrStart(len: nat, p: int): (k: nat)
    ensures k <= len
  {
    if p < 0 then (if len + p < 0 then 0 else len + p) else if p > len then len else p
  }

  /** insertChar: `str.substring(0, position) + ch + str.substr(position)`. */
  function InsertChar(str: string, ch: char, position: int): (r: string)
    ensures 0 <= position <= |str| ==>
              |r| == |str| + 1 && r[position] == ch &&
              r[..position] == str[..position] && r[position + 1..] == str[position..]
    ensures position > |str| ==> r == str + [ch]
  {
    str[..ClampIndex(|str|, position)] + [ch] + str[SubstrStart(|str|, position)..]
  }

  /** The only use the codec makes of insertChar is to prepend a symbol. */
  lemma InsertCharAtFront(str: string, ch: char)
    ensures InsertChar(str, ch, 0) == [ch] + str
  {
    assert str[..0] == [];
    assert str[0..] == str;
  }

  /** `k` copies of `c`. */
  function Repeat(c: char, k: nat): (r: string)
    ensures |r| == k && forall i :: 0 <= i < k ==> r[i] == c
  {
    if k == 0 then [] else [c] + Repeat(c, k - 1)
  }

  /** `s.padStart(n, c)` for a one-character filler `c`. */
  function PadStart(s: string, n: int, c: char): (r: string)
    ensures |s| >= n ==> r == s
    ensures |s| < n ==> |r| == n && r[n - |s|..] == s &&
                        forall i :: 0 <= i < n - |s| ==> r[i] == c
  {
    if |s| >= n then s else Repeat(c, n - |s|) + s
  }

  /** padStart adds exactly the missing filler in front. */
  lemma PadStartRepeat(s: string, n: nat, c: char)
    requires |s| <= n
    ensures PadStart(s, n, c) == Repeat(c, n - |s|) + s
  {
    if |s| == n {
      assert Repeat(c, 0) + s == s;
    }
  }
}
