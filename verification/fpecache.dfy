/** lib/fpeCacheManager.js: FPE key responses memoised under the encrypt
    URL for null and the key-numbered decrypt URL otherwise. */
module FpeCache {
  import opened Wrappers
  import opened JsValues
  import opened UrlHelper
  import opened Memo

  /** The URL GetAsync keys a request by. */
  function Url(enc: Encoder, accessKeyId: string, name: string, k: KeyNumber): (u: string)
    ensures k.Null? ==> u == FpeUrlEncrypt(enc, name, accessKeyId)
    ensures !k.Null? ==> Ok(u) == FpeUrlDecrypt(enc, name, k, accessKeyId)
  {
    if k.Null? then FpeUrlEncrypt(enc, name, accessKeyId)
    else FpeUrlDecrypt(enc, name, k, accessKeyId).value
  }

  /** GetAsync(FfsName, keyNumber): `load` is the outcome of LoadAsync. */
  function GetAsync<V>(m: Store<V>, enc: Encoder, accessKeyId: string, name: string, k: KeyNumber,
                       load: (string, KeyNumber) -> Load<V>): (r: (Store<V>, Result<V>))
  {
    Lookup(m, Url(enc, accessKeyId, name, k), load(name, k), "Fpe for: " + name)
  }

  /** Every key number, null included, has its own URL: unlike the FF1
      context cache, 0 and null are kept apart. */
  lemma UrlInjective(enc: Encoder, accessKeyId: string, name: string, k: KeyNumber, k': KeyNumber)
    requires Url(enc, accessKeyId, name, k) == Url(enc, accessKeyId, name, k')
    ensures k == k'
  {
    if !k.Null? {
      DecryptUrlsDistinct(enc, name, k, k', accessKeyId);
    } else if !k'.Null? {
      DecryptUrlsDistinct(enc, name, k', k, accessKeyId);
    }
  }

  /** A cached response is returned as stored; a miss stores and returns a
      loaded response, and a falsy load throws and stores nothing. */
  lemma GetAsyncSpec<V>(m: Store<V>, enc: Encoder, accessKeyId: string, name: string, k: KeyNumber,
                        load: (string, KeyNumber) -> Load<V>)
    ensures var url := Url(enc, accessKeyId, name, k);
            var r := GetAsync(m, enc, accessKeyId, name, k, load);
            && (url in m ==> r == (m, Ok(m[url])))
            && (url !in m && load(name, k) == Ok(None) ==> r == (m, Err(CouldNotLoad("Fpe for: " + name))))
            && (url !in m && load(name, k).Err? ==> r == (m, Err(load(name, k).error)))
            && (url !in m && load(name, k).Ok? && load(name, k).value.Some? ==>
                  r == (m[url := load(name, k).value.value], Ok(load(name, k).value.value)))
  {
  }

  /** A response cached for null does not answer key number 0: after
      loading the current key from an empty cache, the request for key 0
      goes to the loader. */
  lemma NullDoesNotAnswerZero<V>(enc: Encoder, accessKeyId: string, name: string, load: (string, KeyNumber) -> Load<V>)
    requires load(name, Null).Ok? && load(name, Null).value.Some?
    ensures var c := GetAsync(map[], enc, accessKeyId, name, Null, load).0;
            GetAsync(c, enc, accessKeyId, name, Number(0), load).1
            == GetAsync(map[], enc, accessKeyId, name, Number(0), load).1
  {
    var u0 := Url(enc, accessKeyId, name, Null);
    var u1 := Url(enc, accessKeyId, name, Number(0));
    if u0 == u1 {
      UrlInjective(enc, accessKeyId, name, Null, Number(0));
    }
    LookupOther(map[], u0, load(name, Null), "Fpe for: " + name, u1, load(name, Number(0)), "Fpe for: " + name);
  }
}
