/** The orchestrator of lib/fpeEncryptDecrypt.js: a single pass splits the
    text into the characters to encrypt and a placeholder template, the
    trimmed text goes through the shared recode core, and the result is
    scattered back into the template. */
module Fpe {
  import opened Wrappers
  import opened Bn
  import opened Template
  import opened Recode

  /** Lines 143-153 (encrypt) and 189-199 (decrypt): one pass over the
      text; a non-passthrough character outside `alpha` throws at once,
      any other is appended to the trimmed text with the placeholder z in
      its slot; passthrough characters are copied into the template. */
  function Scan(x: string, pass: set<char>, alpha: string, z: Cell): (r: Result<(string, seq<Cell>)>)
    ensures r.Ok? <==> AllIn(TrimInput(x, pass, z).0, alpha)
    ensures r.Ok? ==> r.value == TrimInput(x, pass, z)
    ensures r.Err? ==> r.error == InvalidInputChar(FirstOutside(TrimInput(x, pass, z).0, alpha).value)
  {
    if x == [] then Ok(([], []))
    else if x[0] !in pass then
      if x[0] !in alpha then
        assert TrimInput(x, pass, z).0[0] == x[0];
        Err(InvalidInputChar(x[0]))
      else
        AllInCons(x[0], TrimInput(x[1..], pass, z).0, alpha);
        var rest :- Scan(x[1..], pass, alpha, z);
        Ok(([x[0]] + rest.0, [z] + rest.1))
    else
      var rest :- Scan(x[1..], pass, alpha, z);
      Ok((rest.0, [Some(x[0])] + rest.1))
  }

  /** The trimmed text of x: its non-passthrough characters. */
  function Trimmed(d: Dataset, x: string): string
  {
    TrimInput(x, PassSet(d), At(d.output, 0)).0
  }

  /** EncryptAsyncKeyNumber (lines 133-176) without its billing call. */
  function Encrypt(d: Dataset, ctx: Context, x: string, keyNumber: int): (r: Result<string>)
    ensures !AllIn(Trimmed(d, x), d.input) ==>
              r == Err(InvalidInputChar(FirstOutside(Trimmed(d, x), d.input).value))
    ensures AllIn(Trimmed(d, x), d.input) &&
            (|Trimmed(d, x)| < d.minLength || |Trimmed(d, x)| > d.maxLength) ==>
              r == Err(InvalidInputLength)
    ensures r.Ok? ==> AllIn(Trimmed(d, x), d.input) && Rendered(d, ctx, Trimmed(d, x)).Ok? &&
                      d.minLength <= |Trimmed(d, x)| <= d.maxLength
  {
    var z := At(d.output, 0);
    var tf :- Scan(x, PassSet(d), d.input, z);
    :- Need(!(|tf.0| < d.minLength || |tf.0| > d.maxLength), InvalidInputLength);
    var cells :- EncryptTrimmed(d, ctx, tf.0, keyNumber);
    Ok(Join(Scatter(tf.1, z, cells)))
  }

  /** DecryptAsync (lines 178-230) once the dataset is known, without its
      billing call: the key number comes from the cipher text itself. */
  function Decrypt(d: Dataset, keys: KeyRing, y: string): (r: Result<string>)
    ensures !AllIn(TrimInput(y, PassSet(d), At(d.input, 0)).0, d.output) ==>
              r.Err? && r.error.InvalidInputChar?
  {
    var z := At(d.input, 0);
    var tf :- Scan(y, PassSet(d), d.output, z);
    var kv :- DecryptTrimmed(d, keys, tf.0);
    Ok(Join(Scatter(tf.1, z, Lift(kv.1))))
  }

  /** A successful encryption is the reference reading Fill of the text
      with the recoded symbols e, which are output symbols, one per
      trimmed character. */
  lemma EncryptFilled(d: Dataset, ctx: Context, x: string, k: int)
    requires Distinct(d.output) && |d.output| >= 1 && d.output[0] !in d.passthrough
    requires Encrypt(d, ctx, x, k).Ok?
    requires Embeddable(d, Rendered(d, ctx, Trimmed(d, x)).value, |Trimmed(d, x)|, k)
    ensures var e := Join(EncryptTrimmed(d, ctx, Trimmed(d, x), k).value);
            && |e| == Count(x, PassSet(d)) && AllIn(e, d.output)
            && Encrypt(d, ctx, x, k).value == Fill(x, PassSet(d), e)
  {
    var pass := PassSet(d);
    var t := Trimmed(d, x);
    var pad := Rendered(d, ctx, t).value;
    var cells := EncryptTrimmed(d, ctx, t, k).value;
    ExtractEmbed(d, pad, k);
    RenderedAlphabet(d, ctx, t);
    EmbedAlphabet(d, pad, k);
    var e := Join(cells);
    ScatterTemplate(x, pass, d.output[0], e);
    JoinLift(Fill(x, pass, e));
  }

  /** Encryption keeps the length of the text and every passthrough
      character in place, provided the rendered cipher text fits the
      trimmed width and the shifted key number stays in the alphabet. */
  lemma EncryptShape(d: Dataset, ctx: Context, x: string, k: int)
    requires Distinct(d.output) && |d.output| >= 1 && d.output[0] !in d.passthrough
    requires Encrypt(d, ctx, x, k).Ok?
    requires Embeddable(d, Rendered(d, ctx, Trimmed(d, x)).value, |Trimmed(d, x)|, k)
    ensures |Encrypt(d, ctx, x, k).value| == |x|
    ensures forall i :: 0 <= i < |x| && x[i] in d.passthrough ==> Encrypt(d, ctx, x, k).value[i] == x[i]
  {
    var pass := PassSet(d);
    EncryptFilled(d, ctx, x, k);
    var e := Join(EncryptTrimmed(d, ctx, Trimmed(d, x), k).value);
    forall i | 0 <= i < |x| && x[i] in d.passthrough
      ensures Fill(x, pass, e)[i] == x[i]
    {
      FillKeeps(x, pass, e, i);
    }
  }

  /** Fill leaves the passthrough characters where they are. */
  lemma {:induction false} FillKeeps(s: string, pass: set<char>, c: string, i: nat)
    requires |c| == Count(s, pass) && i < |s| && s[i] in pass
    ensures Fill(s, pass, c)[i] == s[i]
  {
    if i > 0 {
      if s[0] in pass {
        FillKeeps(s[1..], pass, c, i - 1);
      } else {
        FillKeeps(s[1..], pass, c[1..], i - 1);
      }
    }
  }

  /** Decrypting a text filled with the symbols e, which decrypt to the
      trimmed text of x, gives back x. */
  lemma DecryptFilled(d: Dataset, keys: KeyRing, x: string, e: string, k: int)
    requires |d.input| >= 1 && d.input[0] !in d.passthrough
    requires |e| == Count(x, PassSet(d)) && AllIn(e, d.output)
    requires forall i :: 0 <= i < |d.output| ==> d.output[i] !in d.passthrough
    requires DecryptTrimmed(d, keys, e) == Ok((k, Trimmed(d, x)))
    ensures Decrypt(d, keys, Fill(x, PassSet(d), e)) == Ok(x)
  {
    var pass := PassSet(d);
    var t := Trimmed(d, x);
    var z := At(d.input, 0);
    assert forall i :: 0 <= i < |e| ==> e[i] !in pass;
    TrimFilled(x, pass, e, z);
    FillTrimmed(x, pass, At(d.output, 0));
    TrimFilled(x, pass, t, z);
    FillTrimmed(x, pass, z);
    ScatterTemplate(x, pass, d.input[0], t);
    JoinLift(x);
  }

  /** Decrypt(Encrypt(x)) == x, under the conditions the code does not
      check: distinct alphabets of at least two symbols, no output symbol
      and not input[0] among the passthrough characters, a key ring that
      returns the encrypting context for its key number, and the embedding
      conditions of the recode core. */
  lemma RoundTrip(d: Dataset, ctx: Context, keys: KeyRing, x: string, k: int)
    requires Distinct(d.input) && Distinct(d.output) && |d.input| >= 2 && |d.output| >= 2
    requires forall i :: 0 <= i < |d.output| ==> d.output[i] !in d.passthrough
    requires d.input[0] !in d.passthrough
    requires Invertible(ctx, d.input) && keys(k) == Ok(ctx)
    requires Encrypt(d, ctx, x, k).Ok?
    requires Embeddable(d, Rendered(d, ctx, Trimmed(d, x)).value, |Trimmed(d, x)|, k)
    ensures Decrypt(d, keys, Encrypt(d, ctx, x, k).value) == Ok(x)
  {
    var t := Trimmed(d, x);
    RecodeInverse(d, ctx, keys, t, k);
    EncryptFilled(d, ctx, x, k);
    var e := Join(EncryptTrimmed(d, ctx, t, k).value);
    DecryptFilled(d, keys, x, e, k);
  }
}
