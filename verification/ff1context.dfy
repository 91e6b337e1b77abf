/** The FF1 context AddFF1 builds (lines 93-123 of
    lib/structuredEncryptDecrypt.js, 91-121 of lib/fpeEncryptDecrypt.js):
    an FF1 object over the dataset's input alphabet, used through
    `ctx.encrypt(s)` and `ctx.decrypt(s)` with the default tweak. It has
    every property the orchestrators rely on from a context. */
module Ff1Context {
  import opened Wrappers
  import opened Numerals
  import opened Bn
  import opened Ffx
  import opened Ff1
  import opened Ff1Inverse
  import opened Ff1Facts
  import opened Recode

  /** The context of an FF1 object under block function aes. */
  function ContextOf(f: Ffx, aes: BlockCipher): Context
  {
    Context(s => Ff1.Encrypt(f, aes, s, None), s => Ff1.Decrypt(f, aes, s))
  }

  /** Over its own alphabet, an FF1 context keeps length and alphabet and
      decrypts what it encrypts, whatever the block function. */
  lemma ContextInvertible(f: Ffx, aes: BlockCipher)
    requires Wf(f) && Distinct(f.alphabet)
    ensures Invertible(ContextOf(f, aes), f.alphabet)
  {
    var ctx := ContextOf(f, aes);
    forall s | AllIn(s, f.alphabet) && ctx.encrypt(s).Ok?
      ensures |ctx.encrypt(s).value| == |s| && AllIn(ctx.encrypt(s).value, f.alphabet)
      ensures ctx.decrypt(ctx.encrypt(s).value) == Ok(s)
    {
      assert ctx.encrypt(s) == Ff1.Encrypt(f, aes, s, None);
      CipherShape(f, aes, s, None, true);
      DecryptEncrypt(f, aes, s, None);
    }
  }

  /** AddFF1 builds the object from the dataset's input alphabet, of its
      length as radix and default tweak bounds; when the constructor
      accepts, the context is invertible over that alphabet. */
  lemma AddFF1Invertible(key: seq<uint8>, tweak: seq<uint8>, twkmin: Option<nat>, twkmax: Option<nat>,
                         input: string, aes: BlockCipher)
    requires Distinct(input)
    requires NewFf1(key, Some(tweak), twkmin, twkmax, |input|, input).Ok?
    ensures Invertible(ContextOf(NewFf1(key, Some(tweak), twkmin, twkmax, |input|, input).value, aes), input)
  {
    ContextInvertible(NewFf1(key, Some(tweak), twkmin, twkmax, |input|, input).value, aes);
  }
}
