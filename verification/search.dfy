/** The orchestrators wired to the FF1 context cache: EncryptAsync takes
    the context cached for null, DecryptAsync the one cached for the key
    number it extracts, and EncryptForSearchAsync encrypts under every key
    of the dataset. With key number 0 kept apart in the cache, each of
    these cipher texts decrypts back to the plain text. */
module Search {
  import opened Wrappers
  import opened JsValues
  import opened Bn
  import opened Template
  import opened Recode
  import opened Ff1Cache
  import Fpe
  import Structured

  /** The context AddFF1 builds from the data key of each key number. */
  type Contexts = int -> Context

  /** The key ring DecryptAsync reads through GetFF1: the context of the
      entry the cache holds, or builds, for the extracted key number. The
      cache GetFF1 leaves behind is FpeDecryptCurrent's first result. */
  function CacheRing(kg: Keying, c: Cache<Entry>, name: string, ctxs: Contexts): KeyRing
  {
    k => Ok(ctxs(GetFF1(kg, c, name, Number(k), k).1.dataKey))
  }

  /** With 0 kept apart, a consistent cache yields the context of the
      key number asked for. */
  lemma CacheRingSeparated(c: Cache<Entry>, name: string, ctxs: Contexts, k: int)
    requires Consistent(Separated, c, name)
    ensures CacheRing(Separated, c, name, ctxs)(k) == Ok(ctxs(k))
  {
    GetFF1Separated(c, name, Number(k), k);
  }

  /** As written, once an encryption has cached current key 1, a
      decryption of a cipher text that names key 0 is given key 1's
      context, while a process with an empty cache gives it key 0's. */
  lemma CacheRingAsWritten(name: string, ctxs: Contexts)
    ensures var c := GetFF1(AsWritten, map[], name, Null, 1).0;
            CacheRing(AsWritten, c, name, ctxs)(0) == Ok(ctxs(1))
    ensures CacheRing(AsWritten, map[], name, ctxs)(0) == Ok(ctxs(0))
  {
    ZeroSharesNull(name);
    var c := GetFF1(AsWritten, map[], name, Null, 1).0;
    assert GetCache(AsWritten, c, name, Number(0)) == Some(Entry(1, 1));
    assert GetFF1(AsWritten, c, name, Number(0), 0).1 == Entry(1, 1);
    assert CacheRing(AsWritten, c, name, ctxs)(0) == Ok(ctxs(GetFF1(AsWritten, c, name, Number(0), 0).1.dataKey));
    assert GetCache<Entry>(AsWritten, map[], name, Number(0)) == None;
    assert GetFF1(AsWritten, map[], name, Number(0), 0).1 == Entry(0, 0);
    assert CacheRing(AsWritten, map[], name, ctxs)(0) == Ok(ctxs(GetFF1(AsWritten, map[], name, Number(0), 0).1.dataKey));
  }

  // ---------------------------------------------------------------------
  // EncryptAsync

  /** GetFF1Separated for null, stated for any keying and cache. */
  lemma NullLookup(kg: Keying, c: Cache<Entry>, name: string, current: int)
    ensures kg == Separated && Consistent(Separated, c, name) ==>
              var r := GetFF1(kg, c, name, Null, current);
              Consistent(Separated, r.0, name) && r.1.dataKey == r.1.activeKey
  {
    if kg == Separated && Consistent(Separated, c, name) {
      GetFF1Separated(c, name, Null, current);
    }
  }

  /** EncryptAsync of lib/fpeEncryptDecrypt.js: the context for null, then
      EncryptAsyncKeyNumber with the activeKey stored beside it. */
  function FpeEncryptCurrent(kg: Keying, c: Cache<Entry>, name: string, d: Dataset, ctxs: Contexts,
                             x: string, current: int): (r: (Cache<Entry>, Result<string>))
    ensures kg == Separated && Consistent(Separated, c, name) ==>
              var k := GetFF1(kg, c, name, Null, current).1.activeKey;
              && Consistent(Separated, r.0, name)
              && r.1 == Fpe.Encrypt(d, ctxs(k), x, k)
  {
    NullLookup(kg, c, name, current);
    var got := GetFF1(kg, c, name, Null, current);
    (got.0, Fpe.Encrypt(d, ctxs(got.1.dataKey), x, got.1.activeKey))
  }

  /** EncryptAsync of lib/structuredEncryptDecrypt.js. */
  function StructuredEncryptCurrent(kg: Keying, c: Cache<Entry>, name: string, d: Dataset, ctxs: Contexts,
                                    x: string, current: int): (r: (Cache<Entry>, Result<string>))
    ensures kg == Separated && Consistent(Separated, c, name) ==>
              var k := GetFF1(kg, c, name, Null, current).1.activeKey;
              && Consistent(Separated, r.0, name)
              && r.1 == Structured.Encrypt(d, ctxs(k), x, k)
  {
    NullLookup(kg, c, name, current);
    var got := GetFF1(kg, c, name, Null, current);
    (got.0, Structured.Encrypt(d, ctxs(got.1.dataKey), x, got.1.activeKey))
  }

  /** The dataset conditions under which the recode core is invertible. */
  predicate Recodable(d: Dataset)
  {
    && Distinct(d.input) && Distinct(d.output) && |d.input| >= 2 && |d.output| >= 2
    && (forall i :: 0 <= i < |d.output| ==> d.output[i] !in d.passthrough)
    && d.input[0] !in d.passthrough
  }

  /** With 0 kept apart, EncryptAsync keeps the cache consistent, and any
      consistent cache decrypts its cipher text back. */
  lemma FpeCurrentRoundTrip(c: Cache<Entry>, c2: Cache<Entry>, name: string, d: Dataset, ctxs: Contexts,
                            x: string, current: int)
    requires Consistent(Separated, c, name) && Consistent(Separated, c2, name)
    requires Recodable(d)
    requires var e := GetFF1(Separated, c, name, Null, current).1;
             && Invertible(ctxs(e.dataKey), d.input)
             && Fpe.Encrypt(d, ctxs(e.dataKey), x, e.activeKey).Ok?
             && Embeddable(d, Rendered(d, ctxs(e.dataKey), Fpe.Trimmed(d, x)).value, |Fpe.Trimmed(d, x)|, e.activeKey)
    ensures var r := FpeEncryptCurrent(Separated, c, name, d, ctxs, x, current);
            && Consistent(Separated, r.0, name)
            && r.1.Ok?
            && Fpe.Decrypt(d, CacheRing(Separated, c2, name, ctxs), r.1.value) == Ok(x)
  {
    var e := GetFF1(Separated, c, name, Null, current).1;
    GetFF1Separated(c, name, Null, current);
    CacheRingSeparated(c2, name, ctxs, e.activeKey);
    Fpe.RoundTrip(d, ctxs(e.dataKey), CacheRing(Separated, c2, name, ctxs), x, e.activeKey);
  }

  /** The same for the structured orchestrator. */
  lemma StructuredCurrentRoundTrip(c: Cache<Entry>, c2: Cache<Entry>, name: string, d: Dataset, ctxs: Contexts,
                                   x: string, current: int)
    requires Consistent(Separated, c, name) && Consistent(Separated, c2, name)
    requires Recodable(d)
    requires Structured.NoRepeats(d.priorities) && Structured.Plan(d, Mask(x, PassSet(d))).ok
    requires var e := GetFF1(Separated, c, name, Null, current).1;
             && Invertible(ctxs(e.dataKey), d.input)
             && Structured.Encrypt(d, ctxs(e.dataKey), x, e.activeKey).Ok?
             && Embeddable(d, Rendered(d, ctxs(e.dataKey), Structured.Trimmed(d, x)).value,
                           |Structured.Trimmed(d, x)|, e.activeKey)
    ensures var r := StructuredEncryptCurrent(Separated, c, name, d, ctxs, x, current);
            && Consistent(Separated, r.0, name)
            && r.1.Ok?
            && Structured.Decrypt(d, CacheRing(Separated, c2, name, ctxs), r.1.value) == Ok(x)
  {
    var e := GetFF1(Separated, c, name, Null, current).1;
    GetFF1Separated(c, name, Null, current);
    CacheRingSeparated(c2, name, ctxs, e.activeKey);
    Structured.RoundTrip(d, ctxs(e.dataKey), CacheRing(Separated, c2, name, ctxs), x, e.activeKey);
  }

  // ---------------------------------------------------------------------
  // DecryptAsync

  /** GetFF1Separated for any keying and cache. */
  lemma KeyLookup(kg: Keying, c: Cache<Entry>, name: string, keyNumber: KeyNumber, active: int)
    ensures kg == Separated && Consistent(Separated, c, name) ==>
              Consistent(Separated, GetFF1(kg, c, name, keyNumber, active).0, name)
  {
    if kg == Separated && Consistent(Separated, c, name) {
      GetFF1Separated(c, name, keyNumber, active);
    }
  }

  /** The key number DecryptAsync of lib/fpeEncryptDecrypt.js hands to
      GetFF1, or None when the cipher text is rejected before that call. */
  function FpeKeyOf(d: Dataset, y: string): Option<int>
  {
    var t := TrimInput(y, PassSet(d), At(d.input, 0)).0;
    if AllIn(t, d.output) then Some(Extract(d, t).0) else None
  }

  /** The same for lib/structuredEncryptDecrypt.js, after the rules. */
  function StructuredKeyOf(d: Dataset, y: string): Option<int>
  {
    var t := Structured.Decompose(d, At(d.input, 0), y).trimmed;
    if AllIn(t, d.output) then Some(Extract(d, t).0) else None
  }

  /** The cache after DecryptAsync's GetFF1, when that call is reached:
      a miss builds the context and files it under the key number. */
  function DecryptLookup(kg: Keying, c: Cache<Entry>, name: string, key: Option<int>): (r: Cache<Entry>)
    ensures key.None? ==> r == c
    ensures key.Some? ==> GetCache(kg, r, name, Number(key.value)).Some?
    ensures kg == Separated && Consistent(Separated, c, name) ==> Consistent(Separated, r, name)
  {
    if key.None? then c
    else
      KeyLookup(kg, c, name, Number(key.value), key.value);
      GetFF1(kg, c, name, Number(key.value), key.value).0
  }

  /** DecryptAsync of lib/fpeEncryptDecrypt.js with the cache it leaves:
      the plain text comes through the context the cache holds, or builds,
      for the extracted key number, and a cipher text rejected before the
      lookup leaves the cache as it was. */
  function FpeDecryptCurrent(kg: Keying, c: Cache<Entry>, name: string, d: Dataset, ctxs: Contexts,
                             y: string): (r: (Cache<Entry>, Result<string>))
    ensures r.1 == Fpe.Decrypt(d, CacheRing(kg, c, name, ctxs), y)
    ensures FpeKeyOf(d, y).None? ==> r.0 == c && r.1.Err?
    ensures FpeKeyOf(d, y).Some? ==> GetCache(kg, r.0, name, Number(FpeKeyOf(d, y).value)).Some?
    ensures kg == Separated && Consistent(Separated, c, name) ==> Consistent(Separated, r.0, name)
  {
    (DecryptLookup(kg, c, name, FpeKeyOf(d, y)), Fpe.Decrypt(d, CacheRing(kg, c, name, ctxs), y))
  }

  /** DecryptAsync of lib/structuredEncryptDecrypt.js with the cache it
      leaves. */
  function StructuredDecryptCurrent(kg: Keying, c: Cache<Entry>, name: string, d: Dataset, ctxs: Contexts,
                                    y: string): (r: (Cache<Entry>, Result<string>))
    ensures r.1 == Structured.Decrypt(d, CacheRing(kg, c, name, ctxs), y)
    ensures StructuredKeyOf(d, y).None? ==> r.0 == c && r.1.Err?
    ensures StructuredKeyOf(d, y).Some? ==> GetCache(kg, r.0, name, Number(StructuredKeyOf(d, y).value)).Some?
    ensures kg == Separated && Consistent(Separated, c, name) ==> Consistent(Separated, r.0, name)
  {
    (DecryptLookup(kg, c, name, StructuredKeyOf(d, y)), Structured.Decrypt(d, CacheRing(kg, c, name, ctxs), y))
  }

  /** As written, a decryption of a key-0 cipher text in a fresh process
      files key 0's context under null, so every later EncryptAsync, with
      current key 1, encrypts under the retired key 0 and embeds 0. */
  lemma DecryptThenEncryptAsWritten(name: string, d: Dataset, ctxs: Contexts, y: string, x: string)
    requires FpeKeyOf(d, y) == Some(0)
    ensures var c := FpeDecryptCurrent(AsWritten, map[], name, d, ctxs, y).0;
            FpeEncryptCurrent(AsWritten, c, name, d, ctxs, x, 1).1 == Fpe.Encrypt(d, ctxs(0), x, 0)
  {
    ZeroSharesNull(name);
    var c := FpeDecryptCurrent(AsWritten, map[], name, d, ctxs, y).0;
    assert GetCache<Entry>(AsWritten, map[], name, Number(0)) == None;
    assert c == AddFF1(AsWritten, map[], name, 0, Number(0), 0).0;
    assert GetCache(AsWritten, c, name, Null) == Some(Entry(0, 0));
  }

  /** With 0 kept apart, the decryption of any cipher text leaves
      EncryptAsync in a fresh process on the current key. */
  lemma DecryptThenEncryptSeparated(name: string, d: Dataset, ctxs: Contexts, y: string, x: string, current: int)
    requires FpeKeyOf(d, y).Some?
    ensures var c := FpeDecryptCurrent(Separated, map[], name, d, ctxs, y).0;
            FpeEncryptCurrent(Separated, c, name, d, ctxs, x, current).1 == Fpe.Encrypt(d, ctxs(current), x, current)
  {
    var k := FpeKeyOf(d, y).value;
    var c := FpeDecryptCurrent(Separated, map[], name, d, ctxs, y).0;
    assert GetCache<Entry>(Separated, map[], name, Number(k)) == None;
    assert c == AddFF1(Separated, map[], name, k, Number(k), k).0;
    SeparatedKeys(name, Null, Number(k));
    assert GetCache(Separated, c, name, Null) == None;
  }

  // ---------------------------------------------------------------------
  // EncryptForSearchAsync

  /** The collaborators EncryptForSearchAsync calls before its loop:
      `ubiqWebServices.GetFFSAndDataKeys` and `ffsCacheManager.AddToCache`.
      Neither is defined in the library (WebServices has only
      GetFfsConfigurationsync and GetFpeEncryptionKeyAsync, FfsCacheManager
      only LoadAsync and GetAsync), so calling either raises a TypeError. */
  datatype Services = Services(getFfsAndDataKeys: bool, addToCache: bool)

  /** The library as shipped. */
  const Shipped := Services(false, false)

  /** SearchSeparated, stated for any keying and cache. */
  lemma SearchLookup(kg: Keying, c: Cache<Entry>, name: string, current: int, n: nat,
                     enc: (int, int) -> Result<string>)
    ensures var r := EncryptForSearch(kg, c, name, current, n, enc).1;
            kg == Separated && Consistent(Separated, c, name) && r.Ok? ==>
              forall j :: 0 <= j < n ==> enc(j, j) == Ok(r.value[j])
  {
    if kg == Separated && Consistent(Separated, c, name) && EncryptForSearch(kg, c, name, current, n, enc).1.Ok? {
      SearchSeparated(c, name, current, n, enc);
    }
  }

  /** The loop of EncryptForSearchAsync of lib/fpeEncryptDecrypt.js over
      n keys, read as intended: the current key stored under null, then
      one cipher text per key number. */
  function FpeSearch(kg: Keying, c: Cache<Entry>, name: string, d: Dataset, ctxs: Contexts,
                     x: string, current: int, n: nat): (r: (Cache<Entry>, Result<seq<string>>))
    ensures r.1.Ok? ==> |r.1.value| == n
    ensures kg == Separated && Consistent(Separated, c, name) && r.1.Ok? ==>
              forall j :: 0 <= j < n ==> Fpe.Encrypt(d, ctxs(j), x, j) == Ok(r.1.value[j])
  {
    var enc := (dk, i) => Fpe.Encrypt(d, ctxs(dk), x, i);
    SearchLookup(kg, c, name, current, n, enc);
    EncryptForSearch(kg, c, name, current, n, enc)
  }

  /** The same loop of lib/structuredEncryptDecrypt.js. */
  function StructuredSearch(kg: Keying, c: Cache<Entry>, name: string, d: Dataset, ctxs: Contexts,
                            x: string, current: int, n: nat): (r: (Cache<Entry>, Result<seq<string>>))
    ensures r.1.Ok? ==> |r.1.value| == n
    ensures kg == Separated && Consistent(Separated, c, name) && r.1.Ok? ==>
              forall j :: 0 <= j < n ==> Structured.Encrypt(d, ctxs(j), x, j) == Ok(r.1.value[j])
  {
    var enc := (dk, i) => Structured.Encrypt(d, ctxs(dk), x, i);
    SearchLookup(kg, c, name, current, n, enc);
    EncryptForSearch(kg, c, name, current, n, enc)
  }

  /** EncryptForSearchAsync of lib/fpeEncryptDecrypt.js as written: the
      dataset and key fetch and the FFS cache store come first, and a
      missing method throws before the cache or the loop is reached. */
  function FpeSearchAsync(sv: Services, kg: Keying, c: Cache<Entry>, name: string, d: Dataset,
                          ctxs: Contexts, x: string, current: int, n: nat): (r: (Cache<Entry>, Result<seq<string>>))
    ensures !sv.getFfsAndDataKeys || !sv.addToCache ==> r == (c, Err(TypeError))
    ensures sv.getFfsAndDataKeys && sv.addToCache ==> r == FpeSearch(kg, c, name, d, ctxs, x, current, n)
  {
    if !sv.getFfsAndDataKeys then (c, Err(TypeError))
    else if !sv.addToCache then (c, Err(TypeError))
    else FpeSearch(kg, c, name, d, ctxs, x, current, n)
  }

  /** EncryptForSearchAsync of lib/structuredEncryptDecrypt.js as written;
      its catch rethrows every failure as a plain Error with the same
      message, which the model keeps as the same tag. */
  function StructuredSearchAsync(sv: Services, kg: Keying, c: Cache<Entry>, name: string, d: Dataset,
                                 ctxs: Contexts, x: string, current: int, n: nat): (r: (Cache<Entry>, Result<seq<string>>))
    ensures !sv.getFfsAndDataKeys || !sv.addToCache ==> r == (c, Err(TypeError))
    ensures sv.getFfsAndDataKeys && sv.addToCache ==> r == StructuredSearch(kg, c, name, d, ctxs, x, current, n)
  {
    if !sv.getFfsAndDataKeys then (c, Err(TypeError))
    else if !sv.addToCache then (c, Err(TypeError))
    else StructuredSearch(kg, c, name, d, ctxs, x, current, n)
  }

  /** As shipped, neither EncryptForSearchAsync returns a cipher text, for
      any input, and the FF1 cache is left as it was. */
  lemma ShippedSearchThrows(kg: Keying, c: Cache<Entry>, name: string, d: Dataset, ctxs: Contexts,
                            x: string, current: int, n: nat)
    ensures FpeSearchAsync(Shipped, kg, c, name, d, ctxs, x, current, n) == (c, Err(TypeError))
    ensures StructuredSearchAsync(Shipped, kg, c, name, d, ctxs, x, current, n) == (c, Err(TypeError))
  {
  }

  /** With 0 kept apart, search cipher text j decrypts back to the plain
      text through any consistent cache. */
  lemma FpeSearchRoundTrip(c: Cache<Entry>, c2: Cache<Entry>, name: string, d: Dataset, ctxs: Contexts,
                           x: string, current: int, n: nat, j: nat)
    requires Consistent(Separated, c, name) && Consistent(Separated, c2, name)
    requires Recodable(d) && Invertible(ctxs(j), d.input)
    requires FpeSearch(Separated, c, name, d, ctxs, x, current, n).1.Ok? && j < n
    requires Rendered(d, ctxs(j), Fpe.Trimmed(d, x)).Ok? ==>
               Embeddable(d, Rendered(d, ctxs(j), Fpe.Trimmed(d, x)).value, |Fpe.Trimmed(d, x)|, j)
    ensures Fpe.Decrypt(d, CacheRing(Separated, c2, name, ctxs),
                        FpeSearch(Separated, c, name, d, ctxs, x, current, n).1.value[j]) == Ok(x)
  {
    var enc := (dk, i) => Fpe.Encrypt(d, ctxs(dk), x, i);
    SearchSeparated(c, name, current, n, enc);
    assert enc(j, j) == Fpe.Encrypt(d, ctxs(j), x, j);
    CacheRingSeparated(c2, name, ctxs, j);
    Fpe.RoundTrip(d, ctxs(j), CacheRing(Separated, c2, name, ctxs), x, j);
  }

  /** The same for the structured orchestrator. */
  lemma StructuredSearchRoundTrip(c: Cache<Entry>, c2: Cache<Entry>, name: string, d: Dataset, ctxs: Contexts,
                                  x: string, current: int, n: nat, j: nat)
    requires Consistent(Separated, c, name) && Consistent(Separated, c2, name)
    requires Recodable(d) && Invertible(ctxs(j), d.input)
    requires Structured.NoRepeats(d.priorities) && Structured.Plan(d, Mask(x, PassSet(d))).ok
    requires StructuredSearch(Separated, c, name, d, ctxs, x, current, n).1.Ok? && j < n
    requires Rendered(d, ctxs(j), Structured.Trimmed(d, x)).Ok? ==>
               Embeddable(d, Rendered(d, ctxs(j), Structured.Trimmed(d, x)).value, |Structured.Trimmed(d, x)|, j)
    ensures Structured.Decrypt(d, CacheRing(Separated, c2, name, ctxs),
                               StructuredSearch(Separated, c, name, d, ctxs, x, current, n).1.value[j]) == Ok(x)
  {
    var enc := (dk, i) => Structured.Encrypt(d, ctxs(dk), x, i);
    SearchSeparated(c, name, current, n, enc);
    assert enc(j, j) == Structured.Encrypt(d, ctxs(j), x, j);
    CacheRingSeparated(c2, name, ctxs, j);
    Structured.RoundTrip(d, ctxs(j), CacheRing(Separated, c2, name, ctxs), x, j);
  }
}
