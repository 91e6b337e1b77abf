/** The part both orchestrators share once the text is trimmed
    (lib/structuredEncryptDecrypt.js:258-265 and 338-355,
    lib/fpeEncryptDecrypt.js:157-164 and 200-217): the trimmed text is
    encrypted with the dataset's FF1 context, read as a number in the input
    alphabet, rendered in the output alphabet padded to the trimmed length,
    and the key number is hidden in the high bits of the first symbol's
    index. Decryption undoes each step in reverse order. */
module Recode {
  import opened Wrappers
  import opened Numerals
  import opened Bn
  import opened StrUtils
  import opened JsBits
  import opened Template

  /** An entry of `passthrough_priorities`; values other than the three
      named rules are skipped by the orchestrator's loop. */
  datatype Rule = PrefixRule | SuffixRule | PassthroughRule | OtherRule

  /** The dataset definition (the `ffs` object) the server sends. */
  datatype Dataset = Dataset(
    name: string,
    input: string,          // input_character_set
    output: string,         // output_character_set
    passthrough: string,
    minLength: int,         // min_input_length
    maxLength: int,         // max_input_length
    msbBits: nat,           // msb_encoding_bits
    prefixLength: int,
    suffixLength: int,
    priorities: seq<Rule>)

  /** `new Set(ffs.passthrough.split(''))`. */
  function PassSet(d: Dataset): (p: set<char>)
    ensures forall c :: c in p <==> c in d.passthrough
  {
    set c | c in d.passthrough
  }

  /** An FF1 context (`ctx.encrypt(s)`, `ctx.decrypt(s)` with the dataset's
      default tweak); the key material behind it is not modelled. */
  datatype Context = Context(encrypt: string -> Result<string>, decrypt: string -> Result<string>)

  /** What the orchestrators rely on from a context: over the input
      alphabet, a successful encryption keeps the length and the alphabet,
      and decryption undoes it. */
  ghost predicate Invertible(ctx: Context, alpha: string)
  {
    forall s {:trigger ctx.encrypt(s)} :: AllIn(s, alpha) && ctx.encrypt(s).Ok? ==>
      |ctx.encrypt(s).value| == |s| && AllIn(ctx.encrypt(s).value, alpha) &&
      ctx.decrypt(ctx.encrypt(s).value) == Ok(s)
  }

  /** `GetFF1(ffs, keyNumber)` reduced to its result: the context of a key
      number, or the error fetching it raised. */
  type KeyRing = int -> Result<Context>

  /** The first character of t outside alpha, as the validation loops
      report it. */
  function FirstOutside(t: string, alpha: string): (r: Option<char>)
    ensures r.None? <==> AllIn(t, alpha)
    ensures r.Some? ==> r.value in t && r.value !in alpha
  {
    if t == [] then None
    else if t[0] !in alpha then Some(t[0])
    else FirstOutside(t[1..], alpha)
  }

  lemma AllInCons(c: char, s: string, alpha: string)
    ensures AllIn([c] + s, alpha) <==> c in alpha && AllIn(s, alpha)
    ensures c in alpha ==> FirstOutside([c] + s, alpha) == FirstOutside(s, alpha)
  {
    if c in alpha && AllIn(s, alpha) {
      forall i | 0 <= i < |[c] + s|
        ensures ([c] + s)[i] in alpha
      {
        if i > 0 {
          assert ([c] + s)[i] == s[i - 1];
        }
      }
    }
    if AllIn([c] + s, alpha) {
      assert ([c] + s)[0] == c;
      forall i | 0 <= i < |s|
        ensures s[i] in alpha
      {
        assert s[i] == ([c] + s)[i + 1];
      }
    }
    assert ([c] + s)[1..] == s;
  }

  // ---------------------------------------------------------------------
  // Encryption

  /** Lines 258-261: encrypt, read the result in the input alphabet, render
      it in the output alphabet and pad it on the left with output[0] to
      the trimmed length. */
  function Rendered(d: Dataset, ctx: Context, t: string): (r: Result<string>)
    ensures ctx.encrypt(t).Err? ==> r == Err(ctx.encrypt(t).error)
    ensures r.Ok? ==> |d.output| > 0 && |r.value| >= |t| && |r.value| >= 1
  {
    var encrypted :- ctx.encrypt(t);
    var n :- SetStr(encrypted, d.input);
    var ct :- GetStr(d.output, n);
    Ok(PadStart(ct, |t|, d.output[0]))
  }

  /** The rendered text is written in the output alphabet. */
  lemma RenderedAlphabet(d: Dataset, ctx: Context, t: string)
    requires Rendered(d, ctx, t).Ok?
    ensures AllIn(Rendered(d, ctx, t).value, d.output)
  {
    var n := SetStr(ctx.encrypt(t).value, d.input).value;
    var ct := GetStr(d.output, n).value;
    var pad := Rendered(d, ctx, t).value;
    forall i | 0 <= i < |pad|
      ensures pad[i] in d.output
    {
      if |ct| < |t| && i < |t| - |ct| {
        assert pad[i] == d.output[0];
      } else if |ct| < |t| {
        assert pad[i] == pad[|t| - |ct|..][i - (|t| - |ct|)];
      }
    }
  }

  /** Lines 262-265: the first symbol is replaced by the symbol whose index
      is its own index plus `keyNumber << msb_encoding_bits` (undefined when
      that index is outside the output alphabet). */
  function Embed(d: Dataset, pad: string, keyNumber: int): (r: seq<Cell>)
    requires |pad| >= 1
    ensures |r| == |pad|
  {
    var idx := IndexOf(d.output, pad[0]);
    [At(d.output, idx + Shl32(keyNumber, d.msbBits))] + Lift(pad[1..])
  }

  /** The encrypting half: the cells scattered into the template. */
  function EncryptTrimmed(d: Dataset, ctx: Context, t: string, keyNumber: int): (r: Result<seq<Cell>>)
    ensures r.Ok? <==> Rendered(d, ctx, t).Ok?
    ensures r.Ok? ==> |r.value| == |Rendered(d, ctx, t).value| >= |t|
  {
    var pad :- Rendered(d, ctx, t);
    Ok(Embed(d, pad, keyNumber))
  }

  // ---------------------------------------------------------------------
  // Decryption

  /** Lines 338-341: the key number is the first symbol's index shifted
      right by msb_encoding_bits, and the symbol at the remaining index is
      put back in first place. An empty text has no first symbol: indexOf
      gives -1 and the assignment creates the first slot. */
  function Extract(d: Dataset, t: string): (r: (int, seq<Cell>))
    ensures |r.1| == if |t| == 0 then 1 else |t|
  {
    var first := if |t| > 0 then IndexOf(d.output, t[0]) else -1;
    var key := Sar32(first, d.msbBits);
    var rest := first - Shl32(key, d.msbBits);
    (key, [At(d.output, rest)] + (if |t| > 0 then Lift(t[1..]) else []))
  }

  /** Lines 344-355: look up the key's context, read the restored text in
      the output alphabet, render it in the input alphabet padded with
      input[0], and decrypt. Gives the key number and the plain text. */
  function DecryptTrimmed(d: Dataset, keys: KeyRing, t: string): (r: Result<(int, string)>)
    ensures keys(Extract(d, t).0).Err? ==> r == Err(keys(Extract(d, t).0).error)
    ensures r.Ok? ==> r.value.0 == Extract(d, t).0 && |d.input| > 0
  {
    var (key, cells) := Extract(d, t);
    var ctx :- keys(key);
    var n :- SetStr(Join(cells), d.output);
    var plain :- GetStr(d.input, n);
    var value :- ctx.decrypt(PadStart(plain, |cells|, d.input[0]));
    Ok((key, value))
  }

  // ---------------------------------------------------------------------
  // Round trip

  /** The conditions the code does not check under which the key number
      survives: the rendered text is no longer than the trimmed text, the
      first symbol's index fits in msb_encoding_bits bits, the shifted key
      number stays inside the output alphabet, and the alphabet is small
      enough for 32-bit shifts. */
  predicate Embeddable(d: Dataset, pad: string, width: nat, keyNumber: int)
  {
    var p := Pow(2, ShiftCount(d.msbBits));
    && |pad| == width >= 1
    && pad[0] in d.output
    && IndexOf(d.output, pad[0]) < p
    && 0 <= keyNumber
    && IndexOf(d.output, pad[0]) + keyNumber * p < |d.output| <= TwoTo31
  }

  /** Key number in, key number out: the extraction of decryption undoes
      the embedding of encryption, restoring the padded rendering. */
  lemma ExtractEmbed(d: Dataset, pad: string, k: int)
    requires Distinct(d.output) && Embeddable(d, pad, |pad|, k)
    ensures Embed(d, pad, k) == Lift(Join(Embed(d, pad, k)))
    ensures Extract(d, Join(Embed(d, pad, k))) == (k, Lift(pad))
  {
    var p := Pow(2, ShiftCount(d.msbBits));
    var idx := IndexOf(d.output, pad[0]);
    KeyEmbedding(idx, k, d.msbBits);
    ShlNoWrap(k, d.msbBits);
    var v := idx + k * p;
    var e := Embed(d, pad, k);
    var t := [d.output[v]] + pad[1..];
    assert e == Lift(t);
    JoinLift(t);
    IndexOfDistinct(d.output, v);
    assert Lift(t[1..]) == Lift(pad[1..]);
    assert [At(d.output, idx)] + Lift(pad[1..]) == Lift(pad);
  }

  /** The rendered text, read back in the output alphabet, is the value of
      the encrypted text read in the input alphabet. */
  lemma RenderedValue(d: Dataset, ctx: Context, t: string)
    requires Distinct(d.output) && |d.output| >= 2
    requires Rendered(d, ctx, t).Ok?
    ensures SetStr(Rendered(d, ctx, t).value, d.output)
         == Ok(SetStr(ctx.encrypt(t).value, d.input).value)
  {
    var n := SetStr(ctx.encrypt(t).value, d.input).value;
    var ct := GetStr(d.output, n).value;
    var pad := Rendered(d, ctx, t).value;
    PowMonotone(|d.output|, |ct|, |pad|);
    GetStrPadded(d.output, n, |pad|);
    if |ct| < |t| {
      assert pad == PadStart(ct, |pad|, d.output[0]);
    } else {
      assert pad == ct;
      PadStartRepeat(ct, |ct|, d.output[0]);
    }
    SetStrOfSymbols(d.output, Digits(n, |d.output|, |pad|));
    NumDigits(n, |d.output|, |pad|);
  }

  /** The embedded cells hold symbols of the output alphabet only. */
  lemma EmbedAlphabet(d: Dataset, pad: string, k: int)
    requires Distinct(d.output) && Embeddable(d, pad, |pad|, k) && AllIn(pad, d.output)
    ensures AllIn(Join(Embed(d, pad, k)), d.output)
  {
    var cells := Embed(d, pad, k);
    ExtractEmbed(d, pad, k);
    var y := Join(cells);
    forall i | 0 <= i < |y|
      ensures y[i] in d.output
    {
      assert cells[i] == Some(y[i]);
      if i > 0 {
        assert cells[i] == Lift(pad[1..])[i - 1];
      }
    }
  }

  /** Decryption of the restored rendering: it reads back the value the
      encryption produced, renders it in the input alphabet at the trimmed
      width, which gives back the cipher output, and decrypts that. */
  lemma DecryptRendered(d: Dataset, ctx: Context, keys: KeyRing, t: string, k: int, y: string)
    requires Distinct(d.input) && Distinct(d.output) && |d.input| >= 2 && |d.output| >= 2
    requires Invertible(ctx, d.input) && AllIn(t, d.input) && keys(k) == Ok(ctx)
    requires Rendered(d, ctx, t).Ok? && |Rendered(d, ctx, t).value| == |t|
    requires Extract(d, y) == (k, Lift(Rendered(d, ctx, t).value))
    ensures DecryptTrimmed(d, keys, y) == Ok((k, t))
  {
    var pad := Rendered(d, ctx, t).value;
    var encrypted := ctx.encrypt(t).value;
    JoinLift(pad);
    RenderedValue(d, ctx, t);
    PaddedRoundTrip(encrypted, d.input);
  }

  /** decrypt(encrypt(t)) == t on the trimmed text: when the context is
      invertible, the alphabets have distinct symbols and at least two of
      them, the key ring gives back the encrypting context for its key
      number, and the embedding conditions hold, decryption recovers both
      the key number and the text. */
  lemma RecodeInverse(d: Dataset, ctx: Context, keys: KeyRing, t: string, k: int)
    requires Distinct(d.input) && Distinct(d.output) && |d.input| >= 2 && |d.output| >= 2
    requires Invertible(ctx, d.input) && AllIn(t, d.input) && keys(k) == Ok(ctx)
    requires Rendered(d, ctx, t).Ok? && Embeddable(d, Rendered(d, ctx, t).value, |t|, k)
    ensures EncryptTrimmed(d, ctx, t, k).Ok?
    ensures var cells := EncryptTrimmed(d, ctx, t, k).value;
            && cells == Lift(Join(cells)) && |Join(cells)| == |t| && AllIn(Join(cells), d.output)
            && DecryptTrimmed(d, keys, Join(cells)) == Ok((k, t))
  {
    var pad := Rendered(d, ctx, t).value;
    ExtractEmbed(d, pad, k);
    RenderedAlphabet(d, ctx, t);
    EmbedAlphabet(d, pad, k);
    DecryptRendered(d, ctx, keys, t, k, Join(Embed(d, pad, k)));
  }
}
