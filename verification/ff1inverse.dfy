/** Why FF1 decryption undoes encryption, for every block function: each
    decrypting round recomputes the same y from the same half and the same
    round byte, and subtracts what the matching encrypting round added. */
module Ff1Inverse {
  import opened Wrappers
  import opened Numerals
  import opened Bn
  import opened Ffx
  import opened Ff1
  import Feistel

  /** The direction, round numbering and tweak of one cipher call line up
      with the opposite call: round k of one is round 9 - k of the other. */
  lemma RoundPairing(l: Layout, enc: bool, k: nat)
    requires k <= 9
    ensures RoundLength(l, !enc, 9 - k) == RoundLength(l, enc, k)
    ensures RoundByte(!enc, 9 - k) == RoundByte(enc, k)
  {
  }

  /** One round of the opposite direction, numbered 9 - k, restores the
      halves that round k consumed. */
  lemma RoundInverse(f: Ffx, aes: BlockCipher, tw: seq<uint8>, l: Layout, enc: bool, k: nat,
                     A: string, B: string, C: string)
    requires Wf(f) && Distinct(f.alphabet) && k <= 9
    requires l.d <= l.r && l.r % 16 == 0 && l.r >= 16
    requires Round(f, aes, tw, l, enc, k, A, B) == Ok((B, C))
    requires |A| == RoundLength(l, enc, k)
    ensures Round(f, aes, tw, l, !enc, 9 - k, C, B) == Ok((B, A))
  {
    var m := RoundLength(l, enc, k);
    RoundPairing(l, enc, k);
    var rad := |f.alphabet|;
    var p := Pow(rad, m);
    var y0 := RoundValue(f, aes, tw, l, RoundByte(enc, k), B).value;
    var a := SetStr(A, f.alphabet).value;
    var c := Mix(enc, a, y0, p);
    PowPositive(rad, m);
    NumBound(Indices(A, f.alphabet), rad);
    assert C == Symbols(f.alphabet, Digits(c, rad, m));
    SetStrOfSymbols(f.alphabet, Digits(c, rad, m));
    NumDigits(c, rad, m);
    MixInverse(enc, a, y0, p);
    StrOfNum(f.alphabet, A);
  }

  /** The length of the first half before round i, as the alternation of
      the generic network counts it. */
  lemma LenIsRoundLength(l: Layout, enc: bool, i: nat)
    ensures Feistel.Len(RoundLength(l, enc, 0), RoundLength(l, enc, 1), i) == RoundLength(l, enc, i)
  {
  }

  /** FF1 rounds shift B into first place and produce a half of the
      length the round works on. */
  lemma RoundsAlternate(f: Ffx, aes: BlockCipher, tw: seq<uint8>, l: Layout, enc: bool)
    requires l.d <= l.r && l.r % 16 == 0 && l.r >= 16
    ensures Feistel.Alternates(RoundOf(f, aes, tw, l, enc), RoundLength(l, enc, 0), RoundLength(l, enc, 1), 10)
  {
    var step := RoundOf(f, aes, tw, l, enc);
    forall i: nat, a: string, b: string | i < 10 && step(i, a, b).Ok?
      ensures step(i, a, b).value.0 == b
      ensures |step(i, a, b).value.1| == Feistel.Len(RoundLength(l, enc, 0), RoundLength(l, enc, 1), i)
    {
      LenIsRoundLength(l, enc, i);
    }
  }

  /** Round 9 - k of the opposite direction undoes round k. */
  lemma RoundsUndo(f: Ffx, aes: BlockCipher, tw: seq<uint8>, l: Layout, enc: bool)
    requires Wf(f) && Distinct(f.alphabet)
    requires l.d <= l.r && l.r % 16 == 0 && l.r >= 16
    ensures Feistel.Undoes(RoundOf(f, aes, tw, l, enc), RoundOf(f, aes, tw, l, !enc),
                           RoundLength(l, enc, 0), RoundLength(l, enc, 1), 10)
  {
    var step := RoundOf(f, aes, tw, l, enc);
    var back := RoundOf(f, aes, tw, l, !enc);
    forall k: nat, a: string, b: string |
      k < 10 && |a| == Feistel.Len(RoundLength(l, enc, 0), RoundLength(l, enc, 1), k) &&
      step(k, a, b).Ok? && step(k, a, b).value.0 == b
      ensures back(10 - 1 - k, step(k, a, b).value.1, b) == Ok((b, a))
    {
      LenIsRoundLength(l, enc, k);
      RoundInverse(f, aes, tw, l, enc, k, a, b, step(k, a, b).value.1);
    }
  }

  /** The halves cipher splits X into, in either direction, have the
      lengths rounds 0 and 1 expect. */
  lemma SplitHalves(l: Layout, X: string)
    requires l.u == |X| / 2 && l.u + l.v == |X|
    ensures |X[..l.u]| == RoundLength(l, true, 0) && |X[l.u..]| == RoundLength(l, true, 1)
    ensures |X[l.u..]| == RoundLength(l, false, 0) && |X[..l.u]| == RoundLength(l, false, 1)
  {
  }

  /** cipher succeeds exactly when both length checks pass and the ten
      rounds succeed, and then returns the joined halves. */
  lemma CipherUnfold(f: Ffx, aes: BlockCipher, X: string, twk: Option<seq<uint8>>, enc: bool)
    ensures
      var l := MakeLayout(f.radix, |X|);
      var tw := TweakInUse(f, twk);
      var AB := Split(X, l.u, enc);
      var run := Feistel.Run(RoundOf(f, aes, tw, l, enc), 10, AB.0, AB.1);
      && (Cipher(f, aes, X, twk, enc).Ok? <==>
            InputLengthFits(f, |X|) && TweakFits(|tw|, f.twkmin, f.twkmax) && run.Ok?)
      && (Cipher(f, aes, X, twk, enc).Ok? ==> Cipher(f, aes, X, twk, enc).value == Join(run.value, enc))
  {
  }

  /** The cipher in one direction is undone by the cipher in the other
      direction with the same tweak, whatever the block function. */
  lemma CipherInverse(f: Ffx, aes: BlockCipher, X: string, twk: Option<seq<uint8>>, enc: bool)
    requires Wf(f) && Distinct(f.alphabet)
    requires Cipher(f, aes, X, twk, enc).Ok?
    ensures Cipher(f, aes, Cipher(f, aes, X, twk, enc).value, twk, !enc) == Ok(X)
  {
    var l := MakeLayout(f.radix, |X|);
    var tw := TweakInUse(f, twk);
    var AB := Split(X, l.u, enc);
    var step := RoundOf(f, aes, tw, l, enc);
    var back := RoundOf(f, aes, tw, l, !enc);
    CipherUnfold(f, aes, X, twk, enc);
    SplitHalves(l, X);
    RoundsAlternate(f, aes, tw, l, enc);
    RoundsUndo(f, aes, tw, l, enc);
    var p := RoundLength(l, enc, 0);
    var q := RoundLength(l, enc, 1);
    Feistel.RunLengths(step, p, q, 10, 10, AB.0, AB.1);
    Feistel.RunInverse(step, back, p, q, 10, AB.0, AB.1);
    var e := Feistel.Run(step, 10, AB.0, AB.1).value;
    var Y := Join(e, enc);
    assert MakeLayout(f.radix, |Y|) == l;
    assert Split(Y, l.u, !enc) == (e.1, e.0);
    CipherUnfold(f, aes, Y, twk, !enc);
  }

  /** decrypt(encrypt(X)) == X for any block function. */
  lemma DecryptEncrypt(f: Ffx, aes: BlockCipher, X: string, twk: Option<seq<uint8>>)
    requires Wf(f) && Distinct(f.alphabet)
    requires Encrypt(f, aes, X, twk).Ok?
    ensures Decrypter(f, aes, Encrypt(f, aes, X, twk).value, twk) == Ok(X)
  {
    CipherInverse(f, aes, X, twk, true);
  }

  /** encrypt(decrypt(Y)) == Y for any block function. */
  lemma EncryptDecrypt(f: Ffx, aes: BlockCipher, Y: string, twk: Option<seq<uint8>>)
    requires Wf(f) && Distinct(f.alphabet)
    requires Decrypter(f, aes, Y, twk).Ok?
    ensures Encrypt(f, aes, Decrypter(f, aes, Y, twk).value, twk) == Ok(Y)
  {
    CipherInverse(f, aes, Y, twk, false);
  }
}
