/** When FF1's cipher succeeds, and what it returns: exactly the inputs of
    at least two symbols, all in the alphabet, whose lengths pass the
    checks; the output has the input's length and alphabet. */
module Ff1Facts {
  import opened Wrappers
  import opened Numerals
  import opened Bn
  import opened Ffx
  import opened Ff1
  import opened Ff1Inverse
  import Feistel

  /** All symbols of `s` in `alpha`, as a function value. */
  function InAlphabet(alpha: string): string -> bool
  {
    s => AllIn(s, alpha)
  }

  /** A round succeeds exactly when both halves are over a non-empty
      alphabet and the half it produces is not empty. */
  lemma RoundOk(f: Ffx, aes: BlockCipher, tw: seq<uint8>, l: Layout, enc: bool, i: nat, A: string, B: string)
    requires Wf(f)
    requires l.d <= l.r && l.r % 16 == 0 && l.r >= 16
    ensures Round(f, aes, tw, l, enc, i, A, B).Ok? <==>
              |f.alphabet| > 0 && AllIn(A, f.alphabet) && AllIn(B, f.alphabet) && RoundLength(l, enc, i) >= 1
    ensures Round(f, aes, tw, l, enc, i, A, B).Ok? ==> AllIn(Round(f, aes, tw, l, enc, i, A, B).value.1, f.alphabet)
  {
    if |f.alphabet| > 0 && AllIn(A, f.alphabet) && AllIn(B, f.alphabet) && RoundLength(l, enc, i) >= 1 {
      var m := RoundLength(l, enc, i);
      PowPositive(f.radix, m);
    }
  }

  lemma RoundsGuarded(f: Ffx, aes: BlockCipher, tw: seq<uint8>, l: Layout, enc: bool)
    requires Wf(f)
    requires l.d <= l.r && l.r % 16 == 0 && l.r >= 16
    ensures Feistel.Guards(RoundOf(f, aes, tw, l, enc), InAlphabet(f.alphabet), 10)
  {
    var step := RoundOf(f, aes, tw, l, enc);
    forall i: nat, a: string, b: string | i < 10 && step(i, a, b).Ok?
      ensures AllIn(a, f.alphabet) && AllIn(b, f.alphabet)
      ensures step(i, a, b).value.0 == b && AllIn(step(i, a, b).value.1, f.alphabet)
    {
      RoundOk(f, aes, tw, l, enc, i, a, b);
    }
  }

  lemma RoundsTotal(f: Ffx, aes: BlockCipher, tw: seq<uint8>, l: Layout, enc: bool)
    requires Wf(f) && |f.alphabet| > 0 && l.u >= 1 && l.u <= l.v
    requires l.d <= l.r && l.r % 16 == 0 && l.r >= 16
    ensures Feistel.Total(RoundOf(f, aes, tw, l, enc), InAlphabet(f.alphabet),
                          RoundLength(l, enc, 0), RoundLength(l, enc, 1), 10)
  {
    var step := RoundOf(f, aes, tw, l, enc);
    var P := InAlphabet(f.alphabet);
    forall i: nat, a: string, b: string |
      i < 10 && P(a) && P(b) &&
      |a| == Feistel.Len(RoundLength(l, enc, 0), RoundLength(l, enc, 1), i) &&
      |b| == Feistel.Len(RoundLength(l, enc, 0), RoundLength(l, enc, 1), i + 1)
      ensures step(i, a, b).Ok? && P(step(i, a, b).value.1)
    {
      assert P(a) == AllIn(a, f.alphabet) && P(b) == AllIn(b, f.alphabet);
      RoundTotalAt(f, aes, tw, l, enc, i, a, b);
      assert step(i, a, b) == Round(f, aes, tw, l, enc, i, a, b);
    }
  }

  /** With both half lengths at least one, a round on halves over the
      alphabet succeeds and stays in the alphabet. */
  lemma RoundTotalAt(f: Ffx, aes: BlockCipher, tw: seq<uint8>, l: Layout, enc: bool, i: nat, a: string, b: string)
    requires Wf(f) && |f.alphabet| > 0 && l.u >= 1 && l.u <= l.v
    requires l.d <= l.r && l.r % 16 == 0 && l.r >= 16
    requires AllIn(a, f.alphabet) && AllIn(b, f.alphabet)
    ensures Round(f, aes, tw, l, enc, i, a, b).Ok?
    ensures AllIn(Round(f, aes, tw, l, enc, i, a, b).value.1, f.alphabet)
  {
    assert RoundLength(l, enc, i) >= 1;
    RoundOk(f, aes, tw, l, enc, i, a, b);
  }

  lemma AllInConcat(s: string, t: string, alpha: string)
    ensures AllIn(s + t, alpha) <==> AllIn(s, alpha) && AllIn(t, alpha)
  {
    if AllIn(s + t, alpha) {
      forall i | 0 <= i < |s|
        ensures s[i] in alpha
      {
        assert (s + t)[i] == s[i];
      }
      forall i | 0 <= i < |t|
        ensures t[i] in alpha
      {
        assert (s + t)[|s| + i] == t[i];
      }
    }
  }

  /** cipher succeeds exactly on texts of at least two symbols, all in the
      alphabet, that pass the length and tweak checks. */
  lemma CipherSucceeds(f: Ffx, aes: BlockCipher, X: string, twk: Option<seq<uint8>>, enc: bool)
    requires Wf(f)
    ensures Cipher(f, aes, X, twk, enc).Ok? <==>
              InputLengthFits(f, |X|) && TweakFits(|TweakInUse(f, twk)|, f.twkmin, f.twkmax) &&
              |X| >= 2 && AllIn(X, f.alphabet)
  {
    CipherUnfold(f, aes, X, twk, enc);
    if Cipher(f, aes, X, twk, enc).Ok? {
      SucceedsOnlyOnText(f, aes, X, twk, enc);
    }
    if InputLengthFits(f, |X|) && TweakFits(|TweakInUse(f, twk)|, f.twkmin, f.twkmax) &&
       |X| >= 2 && AllIn(X, f.alphabet) {
      RunsOnText(f, aes, X, twk, enc);
    }
  }

  lemma SucceedsOnlyOnText(f: Ffx, aes: BlockCipher, X: string, twk: Option<seq<uint8>>, enc: bool)
    requires Wf(f)
    requires
      var l := MakeLayout(f.radix, |X|);
      var AB := Split(X, l.u, enc);
      Feistel.Run(RoundOf(f, aes, TweakInUse(f, twk), l, enc), 10, AB.0, AB.1).Ok?
    ensures |X| >= 2 && AllIn(X, f.alphabet)
  {
    var l := MakeLayout(f.radix, |X|);
    var tw := TweakInUse(f, twk);
    var AB := Split(X, l.u, enc);
    var step := RoundOf(f, aes, tw, l, enc);
    RoundsGuarded(f, aes, tw, l, enc);
    Feistel.RunGuarded(step, InAlphabet(f.alphabet), 10, 10, AB.0, AB.1);
    AllInConcat(AB.0, AB.1, f.alphabet);
    AllInConcat(AB.1, AB.0, f.alphabet);
    TwoRoundsLong(f, aes, tw, l, enc, AB.0, AB.1);
  }

  /** Ten successful rounds mean both half lengths are at least one. */
  lemma TwoRoundsLong(f: Ffx, aes: BlockCipher, tw: seq<uint8>, l: Layout, enc: bool, A: string, B: string)
    requires l.d <= l.r && l.r % 16 == 0 && l.r >= 16
    requires Feistel.Run(RoundOf(f, aes, tw, l, enc), 10, A, B).Ok?
    ensures l.u >= 1 && l.v >= 1
  {
    var step := RoundOf(f, aes, tw, l, enc);
    Feistel.FirstTwoSteps(step, 10, A, B);
    var r0 := Round(f, aes, tw, l, enc, 0, A, B);
    assert step(0, A, B) == r0;
    var r1 := Round(f, aes, tw, l, enc, 1, r0.value.0, r0.value.1);
    assert step(1, r0.value.0, r0.value.1) == r1;
    assert RoundLength(l, enc, 0) >= 1 && RoundLength(l, enc, 1) >= 1;
  }

  lemma RunsOnText(f: Ffx, aes: BlockCipher, X: string, twk: Option<seq<uint8>>, enc: bool)
    requires Wf(f) && |X| >= 2 && AllIn(X, f.alphabet)
    ensures
      var l := MakeLayout(f.radix, |X|);
      var AB := Split(X, l.u, enc);
      Feistel.Run(RoundOf(f, aes, TweakInUse(f, twk), l, enc), 10, AB.0, AB.1).Ok?
  {
    var l := MakeLayout(f.radix, |X|);
    var tw := TweakInUse(f, twk);
    var AB := Split(X, l.u, enc);
    var step := RoundOf(f, aes, tw, l, enc);
    SplitHalves(l, X);
    AllInConcat(AB.0, AB.1, f.alphabet);
    AllInConcat(AB.1, AB.0, f.alphabet);
    assert X[0] in f.alphabet;
    RoundsAlternate(f, aes, tw, l, enc);
    RoundsTotal(f, aes, tw, l, enc);
    Feistel.RunTotal(step, InAlphabet(f.alphabet), RoundLength(l, enc, 0), RoundLength(l, enc, 1), 10, 10, AB.0, AB.1);
  }

  /** A successful cipher call keeps the length and the alphabet. */
  lemma CipherShape(f: Ffx, aes: BlockCipher, X: string, twk: Option<seq<uint8>>, enc: bool)
    requires Wf(f)
    requires Cipher(f, aes, X, twk, enc).Ok?
    ensures |Cipher(f, aes, X, twk, enc).value| == |X|
    ensures AllIn(Cipher(f, aes, X, twk, enc).value, f.alphabet)
  {
    var l := MakeLayout(f.radix, |X|);
    var tw := TweakInUse(f, twk);
    var AB := Split(X, l.u, enc);
    var step := RoundOf(f, aes, tw, l, enc);
    CipherUnfold(f, aes, X, twk, enc);
    SplitHalves(l, X);
    RoundsAlternate(f, aes, tw, l, enc);
    RoundsGuarded(f, aes, tw, l, enc);
    Feistel.RunLengths(step, RoundLength(l, enc, 0), RoundLength(l, enc, 1), 10, 10, AB.0, AB.1);
    Feistel.RunGuarded(step, InAlphabet(f.alphabet), 10, 10, AB.0, AB.1);
    var e := Feistel.Run(step, 10, AB.0, AB.1).value;
    AllInConcat(e.0, e.1, f.alphabet);
    AllInConcat(e.1, e.0, f.alphabet);
  }
}
