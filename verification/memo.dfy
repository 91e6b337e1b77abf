/** The memoising lookup shared by lib/ffsCacheManager.js and
    lib/fpeCacheManager.js: a map from request URL to the loaded value,
    filled on a miss from a loader whose outcome is a parameter. */
module Memo {
  import opened Wrappers

  type Store<V> = map<string, V>

  /** How the loader's promise settles: a value, a falsy value (None), or
      a rejection (Err). */
  type Load<V> = Result<Option<V>>

  /** `if (!map.has(url)) { v = await load; if (!v) throw; map.set(url, v) }
      return map.get(url)`; `what` names the request in the error. */
  function Lookup<V>(m: Store<V>, url: string, load: Load<V>, what: string): (r: (Store<V>, Result<V>))
    ensures url in m ==> r == (m, Ok(m[url]))
    ensures r.1.Ok? <==> url in m || (load.Ok? && load.value.Some?)
    ensures r.1.Ok? ==> url in r.0 && r.0[url] == r.1.value
    ensures r.1.Err? ==> r.0 == m && r.1.error == (if load.Err? then load.error else CouldNotLoad(what))
    ensures r.0.Keys == m.Keys + (if r.1.Ok? then {url} else {})
    ensures forall key :: key in m ==> r.0[key] == m[key]
  {
    if url in m then (m, Ok(m[url]))
    else
      match load
      case Err(e) => (m, Err(e))
      case Ok(None) => (m, Err(CouldNotLoad(what)))
      case Ok(Some(v)) => (m[url := v], Ok(v))
  }

  /** Once a lookup has succeeded, the next one for the same URL returns
      the same value and leaves the map alone, whatever the loader would
      do. */
  lemma LookupTwice<V>(m: Store<V>, url: string, load: Load<V>, load': Load<V>, what: string, what': string)
    requires Lookup(m, url, load, what).1.Ok?
    ensures var r := Lookup(m, url, load, what);
            Lookup(r.0, url, load', what') == r
  {
  }

  /** A lookup leaves every other URL's lookup as it was. */
  lemma LookupOther<V>(m: Store<V>, url: string, load: Load<V>, what: string,
                       url': string, load': Load<V>, what': string)
    requires url' != url
    ensures Lookup(Lookup(m, url, load, what).0, url', load', what').1 == Lookup(m, url', load', what').1
  {
  }
}
