/** The FF1 context cache (lib/ff1CacheManager.js) and the two methods of
    both orchestrators that fill it, GetFF1 and AddFF1, with the network
    call and the key unwrap reduced to their outcome: which data key the
    context was built from. The cache key is modelled as written, where
    key number 0 falls into the slot of null, and with 0 kept apart. */
module Ff1Cache {
  import opened Wrappers
  import opened JsValues

  /** How a key number becomes part of a cache key. */
  datatype Keying =
    | AsWritten   // `${KeyNumber || 'isNull'}`
    | Separated   // every number rendered, only null and undefined as 'isNull'

  function Slot(kg: Keying, k: KeyNumber): string
  {
    match kg
    case AsWritten => if Truthy(k) then Decimal(k.n) else "isNull"
    case Separated => if k.Number? then Decimal(k.n) else "isNull"
  }

  /** GetCacheKey(FfsName, KeyNumber). */
  function CacheKey(kg: Keying, name: string, k: KeyNumber): string
  {
    name + "-" + Slot(kg, k)
  }

  type Cache<V> = map<string, V>

  /** SetCache(FfsName, KeyNumber, data). */
  function SetCache<V>(kg: Keying, c: Cache<V>, name: string, k: KeyNumber, v: V): (c': Cache<V>)
    ensures CacheKey(kg, name, k) in c' && c'[CacheKey(kg, name, k)] == v
    ensures c'.Keys == c.Keys + {CacheKey(kg, name, k)}
    ensures forall key :: key in c && key != CacheKey(kg, name, k) ==> c'[key] == c[key]
  {
    c[CacheKey(kg, name, k) := v]
  }

  /** GetCache(FfsName, KeyNumber): the stored value, or null (None). */
  function GetCache<V>(kg: Keying, c: Cache<V>, name: string, k: KeyNumber): (r: Option<V>)
    ensures r.Some? <==> CacheKey(kg, name, k) in c
    ensures r.Some? ==> r.value == c[CacheKey(kg, name, k)]
  {
    var key := CacheKey(kg, name, k);
    if key in c then Some(c[key]) else None
  }

  /** A lookup right after a store under the same key number finds it. */
  lemma GetAfterSet<V>(kg: Keying, c: Cache<V>, name: string, k: KeyNumber, v: V)
    ensures GetCache(kg, SetCache(kg, c, name, k, v), name, k) == Some(v)
  {
  }

  /** A store leaves every lookup under another cache key as it was. */
  lemma GetAfterSetOther<V>(kg: Keying, c: Cache<V>, name: string, k: KeyNumber, v: V, name': string, k': KeyNumber)
    requires CacheKey(kg, name', k') != CacheKey(kg, name, k)
    ensures GetCache(kg, SetCache(kg, c, name, k, v), name', k') == GetCache(kg, c, name', k')
  {
  }

  /** Cache keys of one dataset agree exactly when their slots agree. */
  lemma CacheKeySlot(kg: Keying, name: string, k: KeyNumber, k': KeyNumber)
    ensures CacheKey(kg, name, k) == CacheKey(kg, name, k') <==> Slot(kg, k) == Slot(kg, k')
  {
    if CacheKey(kg, name, k) == CacheKey(kg, name, k') {
      assert CacheKey(kg, name, k)[|name| + 1..] == Slot(kg, k);
      assert CacheKey(kg, name, k')[|name| + 1..] == Slot(kg, k');
    }
  }

  /** As written, key number 0, null and undefined share one entry. */
  lemma ZeroSharesNull(name: string)
    ensures CacheKey(AsWritten, name, Number(0)) == CacheKey(AsWritten, name, Null)
    ensures CacheKey(AsWritten, name, Undefined) == CacheKey(AsWritten, name, Null)
  {
  }

  /** As written, two key numbers share an entry exactly when both are
      falsy or both are the same non-zero number. */
  lemma AsWrittenKeys(name: string, k: KeyNumber, k': KeyNumber)
    ensures CacheKey(AsWritten, name, k) == CacheKey(AsWritten, name, k') <==>
              (!Truthy(k) && !Truthy(k')) || (Truthy(k) && Truthy(k') && k.n == k'.n)
  {
    CacheKeySlot(AsWritten, name, k, k');
    if Truthy(k) && Truthy(k') && Decimal(k.n) == Decimal(k'.n) {
      DecimalInjective(k.n, k'.n);
    }
    if Truthy(k) && !Truthy(k') {
      assert Decimal(k.n)[0] != "isNull"[0];
    }
    if !Truthy(k) && Truthy(k') {
      assert Decimal(k'.n)[0] != "isNull"[0];
    }
  }

  /** With 0 kept apart, every key number has its own entry and only null
      and undefined share one. */
  lemma SeparatedKeys(name: string, k: KeyNumber, k': KeyNumber)
    ensures CacheKey(Separated, name, k) == CacheKey(Separated, name, k') <==>
              (!k.Number? && !k'.Number?) || (k.Number? && k'.Number? && k.n == k'.n)
  {
    CacheKeySlot(Separated, name, k, k');
    if k.Number? && k'.Number? && Decimal(k.n) == Decimal(k'.n) {
      DecimalInjective(k.n, k'.n);
    }
    if k.Number? && !k'.Number? {
      assert Decimal(k.n)[0] != "isNull"[0];
    }
    if !k.Number? && k'.Number? {
      assert Decimal(k'.n)[0] != "isNull"[0];
    }
  }

  // ---------------------------------------------------------------------
  // GetFF1 and AddFF1

  /** What the cache holds for a context: the key number of the data key
      it was built from, and the activeKey stored beside it. */
  datatype Entry = Entry(dataKey: int, activeKey: int)

  /** AddFF1(ffs, privateKey, wrapped_data_key, keyNumber, activeKey) with
      the data key named by its key number: the context goes in under
      keyNumber and, when that is null or undefined, under activeKey too. */
  function AddFF1(kg: Keying, c: Cache<Entry>, name: string, dataKey: int, keyNumber: KeyNumber, activeKey: int)
    : (r: (Cache<Entry>, Entry))
    ensures r.1 == Entry(dataKey, activeKey)
    ensures GetCache(kg, r.0, name, keyNumber) == Some(r.1)
    ensures !keyNumber.Number? ==> GetCache(kg, r.0, name, Number(activeKey)) == Some(r.1)
    ensures forall key :: key in c && key != CacheKey(kg, name, keyNumber) &&
                          (keyNumber.Number? || key != CacheKey(kg, name, Number(activeKey))) ==>
                            key in r.0 && r.0[key] == c[key]
  {
    var e := Entry(dataKey, activeKey);
    var c1 := SetCache(kg, c, name, keyNumber, e);
    if keyNumber.Null? || keyNumber.Undefined? then (SetCache(kg, c1, name, Number(activeKey), e), e)
    else (c1, e)
  }

  /** GetFF1(ffs, keyNumber): the cached context, or else one built from
      the data key the server returns, which is that of the key number
      asked for, or the current key `active` when asked for null. */
  function GetFF1(kg: Keying, c: Cache<Entry>, name: string, keyNumber: KeyNumber, active: int)
    : (r: (Cache<Entry>, Entry))
    ensures GetCache(kg, c, name, keyNumber).Some? ==> r == (c, GetCache(kg, c, name, keyNumber).value)
    ensures GetCache(kg, c, name, keyNumber).None? && keyNumber.Number? ==> r.1 == Entry(keyNumber.n, keyNumber.n)
    ensures GetCache(kg, c, name, keyNumber).None? && !keyNumber.Number? ==> r.1 == Entry(active, active)
  {
    match GetCache(kg, c, name, keyNumber)
    case Some(e) => (c, e)
    case None =>
      var served := if keyNumber.Number? then keyNumber.n else active;
      AddFF1(kg, c, name, served, keyNumber, served)
  }

  /** Every entry was built from the data key of the key number it is
      stored under, and its activeKey names that key. */
  ghost predicate Consistent(kg: Keying, c: Cache<Entry>, name: string)
  {
    && (forall key :: key in c ==> c[key].dataKey == c[key].activeKey)
    && (forall n: int {:trigger CacheKey(kg, name, Number(n))} ::
          CacheKey(kg, name, Number(n)) in c ==> c[CacheKey(kg, name, Number(n))].dataKey == n)
  }

  /** With 0 kept apart, GetFF1 keeps the cache consistent and returns the
      context of the key number asked for, and for null a context whose
      activeKey names its own data key. */
  lemma GetFF1Separated(c: Cache<Entry>, name: string, keyNumber: KeyNumber, active: int)
    requires Consistent(Separated, c, name)
    ensures var r := GetFF1(Separated, c, name, keyNumber, active);
            && Consistent(Separated, r.0, name)
            && r.1.dataKey == r.1.activeKey
            && (keyNumber.Number? ==> r.1.dataKey == keyNumber.n)
  {
    var r := GetFF1(Separated, c, name, keyNumber, active);
    if GetCache(Separated, c, name, keyNumber).None? {
      forall n: int | CacheKey(Separated, name, Number(n)) in r.0
        ensures r.0[CacheKey(Separated, name, Number(n))].dataKey == n
      {
        var key := CacheKey(Separated, name, Number(n));
        SeparatedKeys(name, Number(n), keyNumber);
        if !keyNumber.Number? {
          SeparatedKeys(name, Number(n), Number(active));
        }
      }
    }
  }

  /** As written, the lookup for key number 0 after an encryption has
      cached the current key 1 returns key 1's context. */
  lemma ZeroReadsActive(name: string)
    ensures var c := GetFF1(AsWritten, map[], name, Null, 1).0;
            GetFF1(AsWritten, c, name, Number(0), 1).1 == Entry(1, 1)
  {
    ZeroSharesNull(name);
  }

  // ---------------------------------------------------------------------
  // The loop of EncryptForSearchAsync

  /** Lines 254-264 of lib/fpeEncryptDecrypt.js (396-406 of
      lib/structuredEncryptDecrypt.js) from index i: look up key number i,
      build its context from data key i on a miss (which is GetFF1 for key
      number i), and encrypt with it, embedding i; `enc(dataKey, i)` is
      that encryption. The first error ends the loop. */
  function SearchLoop(kg: Keying, c: Cache<Entry>, name: string, i: nat, n: nat,
                      enc: (int, int) -> Result<string>): (r: (Cache<Entry>, Result<seq<string>>))
    ensures r.1.Ok? ==> |r.1.value| == if i <= n then n - i else 0
    decreases if i <= n then n - i else 0
  {
    if i >= n then (c, Ok([]))
    else
      var got := GetFF1(kg, c, name, Number(i), i);
      match enc(got.1.dataKey, i)
      case Err(err) => (got.0, Err(err))
      case Ok(ct) =>
        var rest := SearchLoop(kg, got.0, name, i + 1, n, enc);
        (rest.0, if rest.1.Ok? then Ok([ct] + rest.1.value) else rest.1)
  }

  /** EncryptForSearchAsync: the current key's context is first stored
      under null and under current_key_number, then the loop runs over
      the n keys. */
  function EncryptForSearch(kg: Keying, c: Cache<Entry>, name: string, current: int, n: nat,
                            enc: (int, int) -> Result<string>): (r: (Cache<Entry>, Result<seq<string>>))
    ensures r.1.Ok? ==> |r.1.value| == n
  {
    var c1 := AddFF1(kg, c, name, current, Null, current).0;
    SearchLoop(kg, c1, name, 0, n, enc)
  }

  /** One turn of the loop with 0 kept apart: key number i is encrypted
      under data key i, and the loop goes on from a consistent cache c'. */
  lemma SearchLoopStep(c: Cache<Entry>, name: string, i: nat, n: nat, enc: (int, int) -> Result<string>)
    returns (c': Cache<Entry>)
    requires Consistent(Separated, c, name) && i < n
    requires SearchLoop(Separated, c, name, i, n, enc).1.Ok?
    ensures Consistent(Separated, c', name)
    ensures enc(i, i).Ok?
    ensures SearchLoop(Separated, c', name, i + 1, n, enc).1.Ok?
    ensures SearchLoop(Separated, c, name, i, n, enc).1.value
            == [enc(i, i).value] + SearchLoop(Separated, c', name, i + 1, n, enc).1.value
  {
    GetFF1Separated(c, name, Number(i), i);
    c' := GetFF1(Separated, c, name, Number(i), i).0;
  }

  /** With 0 kept apart, the j-th ciphertext of the loop is encrypted with
      data key i + j and embeds key number i + j. */
  lemma {:induction false} SearchLoopSeparated(c: Cache<Entry>, name: string, i: nat, n: nat,
                                               enc: (int, int) -> Result<string>)
    requires Consistent(Separated, c, name)
    requires SearchLoop(Separated, c, name, i, n, enc).1.Ok?
    ensures EncryptsFrom(SearchLoop(Separated, c, name, i, n, enc).1.value, i, enc)
    decreases if i <= n then n - i else 0
  {
    if i < n {
      var c' := SearchLoopStep(c, name, i, n, enc);
      SearchLoopSeparated(c', name, i + 1, n, enc);
      var rest := SearchLoop(Separated, c', name, i + 1, n, enc).1.value;
      var cts := SearchLoop(Separated, c, name, i, n, enc).1.value;
      EncryptedFrom(cts, rest, i, enc);
    }
  }

  /** Ciphertext j of cts is the encryption under data key i + j,
      embedding key number i + j. */
  predicate EncryptsFrom(cts: seq<string>, i: nat, enc: (int, int) -> Result<string>)
  {
    forall j :: 0 <= j < |cts| ==> enc(i + j, i + j) == Ok(cts[j])
  }

  /** A ciphertext for key i in front of ciphertexts for keys i + 1, ...
      gives ciphertexts for keys i, i + 1, .... */
  lemma EncryptedFrom(cts: seq<string>, rest: seq<string>, i: nat, enc: (int, int) -> Result<string>)
    requires enc(i, i).Ok? && cts == [enc(i, i).value] + rest
    requires EncryptsFrom(rest, i + 1, enc)
    ensures EncryptsFrom(cts, i, enc)
  {
    forall j | 0 <= j < |cts|
      ensures enc(i + j, i + j) == Ok(cts[j])
    {
      if j > 0 {
        assert cts[j] == rest[j - 1];
        assert i + 1 + (j - 1) == i + j;
      }
    }
  }

  /** With 0 kept apart, search ciphertext j is the encryption under key j
      embedding key number j, for every j. */
  lemma SearchSeparated(c: Cache<Entry>, name: string, current: int, n: nat, enc: (int, int) -> Result<string>)
    requires Consistent(Separated, c, name)
    requires EncryptForSearch(Separated, c, name, current, n, enc).1.Ok?
    ensures var cts := EncryptForSearch(Separated, c, name, current, n, enc).1.value;
            forall j :: 0 <= j < n ==> enc(j, j) == Ok(cts[j])
  {
    var c1 := AddFF1(Separated, c, name, current, Null, current).0;
    AddNullConsistent(c, name, current);
    SearchLoopSeparated(c1, name, 0, n, enc);
  }

  /** Storing the current key under null keeps the cache consistent. */
  lemma AddNullConsistent(c: Cache<Entry>, name: string, current: int)
    requires Consistent(Separated, c, name)
    ensures Consistent(Separated, AddFF1(Separated, c, name, current, Null, current).0, name)
  {
    var r := AddFF1(Separated, c, name, current, Null, current).0;
    forall n: int | CacheKey(Separated, name, Number(n)) in r
      ensures r[CacheKey(Separated, name, Number(n))].dataKey == n
    {
      SeparatedKeys(name, Number(n), Null);
      SeparatedKeys(name, Number(n), Number(current));
    }
  }

  /** As written, with current key 1 and two keys, ciphertext 0 comes from
      the context of key 1 while it embeds key number 0. */
  lemma SearchAsWritten(name: string, enc: (int, int) -> Result<string>)
    requires enc(1, 0).Ok? && enc(1, 1).Ok?
    ensures EncryptForSearch(AsWritten, map[], name, 1, 2, enc).1 == Ok([enc(1, 0).value, enc(1, 1).value])
  {
    ZeroSharesNull(name);
    var c1 := AddFF1(AsWritten, map[], name, 1, Null, 1).0;
    assert GetFF1(AsWritten, c1, name, Number(0), 0) == (c1, Entry(1, 1));
    assert GetFF1(AsWritten, c1, name, Number(1), 1) == (c1, Entry(1, 1));
    assert enc(1, 1) == Ok(enc(1, 1).value) && enc(1, 0) == Ok(enc(1, 0).value);
    assert SearchLoop(AsWritten, c1, name, 2, 2, enc) == (c1, Ok([]));
    assert [enc(1, 1).value] + [] == [enc(1, 1).value];
    assert SearchLoop(AsWritten, c1, name, 1, 2, enc) == (c1, Ok([enc(1, 1).value]));
    assert [enc(1, 0).value] + [enc(1, 1).value] == [enc(1, 0).value, enc(1, 1).value];
  }
}
