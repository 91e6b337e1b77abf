/** lib/ffsCacheManager.js: dataset definitions memoised under the FFS
    URL of the dataset name. */
module FfsCache {
  import opened Wrappers
  import opened UrlHelper
  import opened Memo

  /** GetAsync(FfsName): `load` is the outcome of LoadAsync for a name. */
  function GetAsync<V>(m: Store<V>, enc: Encoder, accessKeyId: string, name: string,
                       load: string -> Load<V>): (r: (Store<V>, Result<V>))
  {
    Lookup(m, FfsUrl(enc, name, accessKeyId), load(name), "FfsName: " + name)
  }

  /** A cached dataset is returned as stored; a miss stores and returns a
      loaded dataset, and a falsy load throws and stores nothing. */
  lemma GetAsyncSpec<V>(m: Store<V>, enc: Encoder, accessKeyId: string, name: string, load: string -> Load<V>)
    ensures var url := FfsUrl(enc, name, accessKeyId);
            var r := GetAsync(m, enc, accessKeyId, name, load);
            && (url in m ==> r == (m, Ok(m[url])))
            && (url !in m && load(name) == Ok(None) ==> r == (m, Err(CouldNotLoad("FfsName: " + name))))
            && (url !in m && load(name).Err? ==> r == (m, Err(load(name).error)))
            && (url !in m && load(name).Ok? && load(name).value.Some? ==>
                  r == (m[url := load(name).value.value], Ok(load(name).value.value)))
  {
  }

  /** Two requests for one dataset agree; the second one never loads. */
  lemma GetAsyncTwice<V>(m: Store<V>, enc: Encoder, accessKeyId: string, name: string,
                         load: string -> Load<V>, load': string -> Load<V>)
    requires GetAsync(m, enc, accessKeyId, name, load).1.Ok?
    ensures var r := GetAsync(m, enc, accessKeyId, name, load);
            GetAsync(r.0, enc, accessKeyId, name, load') == r
  {
    LookupTwice(m, FfsUrl(enc, name, accessKeyId), load(name), load'(name), "FfsName: " + name, "FfsName: " + name);
  }
}
