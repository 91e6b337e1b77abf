# ubiq-node format-preserving encryption, modelled in Dafny

This project models the format-preserving encryption (FPE) core of the
ubiq-node client library and proves properties of the model. The core
covers:

- the alphabet numeral codec (`bigint_set_str` / `bigint_get_str`);
- the FFX base class and the FF1 Feistel cipher (NIST SP 800-38G,
  section 5.1, Algorithms 7 and 8), with AES as an uninterpreted block
  function;
- the array and string helpers the cipher uses;
- the pure parts of the two orchestrators, `StructuredEncryptDecrypt` and
  `FpeEncryptDecrypt`:
  - the prefix, suffix and passthrough rules;
  - the placeholder template;
  - alphabet validation and the length bounds;
  - re-encoding from the input alphabet into the output alphabet;
  - hiding the key number in the high bits of the first symbol;
  - the loop of `EncryptForSearchAsync`;
- the FF1 context cache, the dataset and FPE-key caches, the URL builders
  that key them, and the expiring `ubiqCache`;
- the billing-event aggregation, the credentials host normalisation, and
  the configuration defaults.

Everything is functional: JS arrays are sequences, and state is a value
that operations return. A JS array slot that may hold `undefined` is an
`Option<char>` (a `Cell`), and `join('')` drops it. JS `<<` and `>>` are
modelled with their 32-bit wrap (`JsBits.Shl32`, `JsBits.Sar32`). JS `%`
truncates toward zero (`Ffx.JsRem`). `Math.log` computations are replaced
by their integer meaning:

- `Ffx.TxtMin` is the least m with radix^m ≥ 10^6;
- `Ff1.ByteCount` is the least b with 256^b ≥ radix^v.

The modules follow the source files:

| module | models |
|---|---|
| `Numerals` | digit sequences, powers and big-endian bytes (arithmetic support) |
| `Wrappers` | `Result` / `Option` and the error tags of the source |
| `ArrayUtil`, `StrUtils` | `arrayUtil.js`, `strUtils.js`, FFX `xor`, JS `padStart` |
| `Bn` | `Bn.js` with an alphabet |
| `JsBits`, `JsValues` | JS 32-bit shifts and the decimal rendering of key numbers |
| `Ffx`, `Ff1` | `FFX.js`, `FF1.js` |
| `Feistel`, `Ff1Facts`, `Ff1Inverse`, `Ff1Context` | the 10-round structure and its inverse |
| `Template`, `Recode`, `Structured`, `Fpe` | the two orchestrators' pure bodies |
| `UrlHelper`, `Memo`, `FfsCache`, `FpeCache`, `Ff1Cache`, `UbiqCache` | the caches |
| `Search` | encrypt, decrypt and encrypt-for-search wired to the FF1 cache |
| `Billing`, `Credentials`, `Configuration` | `billingEvents.js`, `credentials.js`, `configuration.js` |

`lib/fpeEncryptDecrypt.js` takes FF1 and Bn from the external
`ubiq-security-fpe` package. The model uses the local `lib/structured`
versions for both. The orchestrators see an FF1 context only through the
`Recode.Invertible` property: encryption keeps length and alphabet, and
decryption undoes it. `Ff1Context.ContextInvertible` proves that the FF1
model has this property.

Where the code and its documentation disagree, the model follows the
code:

- A suffix length longer than the text does not take the whole text; the
  negative slice start wraps (`Structured.ParseSuffixOverlong`).
- FFX's radix check is commented out, so radix 0 or 1 is not rejected
  there. Radix 1 gives a NaN minimum length, which every comparison
  accepts (`Ffx.TxtMin`).
- `GetCacheKey` files key number 0 under null; see Findings.

## Model

| member | source | states |
|---|---|---|
| ArrayUtil.ArrayCopy | lib/structured/arrayUtil.js:7-12 | the `length` elements from srcPos land at dstPos, in order, and every other destination element is unchanged |
| ArrayUtil.ArrayCopyEmpty | lib/structured/arrayUtil.js:8 | a zero-length copy leaves the destination as it was |
| ArrayUtil.CopyOfRange | lib/structured/arrayUtil.js:1-6 | src[start..end) is written into dst from destOff and every other element of dst is unchanged; when start ≥ end nothing is written |
| ArrayUtil.Xor | lib/structured/FFX.js:156-160 | for operands of equal length, element i of the result is the xor of element i of each operand |
| ArrayUtil.XorZero | lib/structured/FFX.js:156-160 | xor with an all-zero block is the identity |
| ArrayUtil.XorInto | lib/structured/FFX.js:156-160 | xor(d, doff, s1, s1off, s2, s2off, len) overwrites exactly d[doff..doff+len) with the xor of the two source windows |
| ArrayUtil.XorInPlace | lib/structured/FF1.js:149 | the aliased call xor(R, l, R, 0, R, l, 16) gives the xor of the first block and the old block at l, and nothing else changes |
| StrUtils.InsertChar | lib/structured/strUtils.js:13-15 | for 0 ≤ p ≤ \|str\|, the result is one longer, has ch at p, str[..p] before it and str[p..] after it; a position past the end appends |
| StrUtils.InsertCharAtFront | lib/structured/Bn.js:115 | inserting at 0, the only way Bn uses it, prepends the character |
| StrUtils.PadStart | lib/structured/FFX.js:184-186 | a string at least n long is returned as it is; otherwise the result is n long, ends with the string, and is filled with c before it |
| StrUtils.PadStartRepeat | lib/structured/FFX.js:184-186 | padding is the fill character repeated n − \|s\| times, then s |
| Bn.IndexOf | lib/structured/Bn.js:68 | indexOf gives −1 exactly when the character is absent, and otherwise its first position |
| Bn.IndexOfDistinct | lib/structured/Bn.js:39-45 | in an alphabet of distinct symbols, the index of the symbol at i is i |
| Bn.SetStrLoop | lib/structured/Bn.js:61-79 | the digit loop, from any point where x holds the value of the suffix read so far, succeeds exactly when every symbol is in the alphabet, and yields the value of the whole string |
| Bn.SetStr | lib/structured/Bn.js:33-81 | an empty alphabet is an error; otherwise the call succeeds exactly when every symbol is in the alphabet, with the value Σ index(s[i])·\|alpha\|^(\|s\|−1−i); an absent symbol is the invalid-character error |
| Bn.SetStrOfSymbols | lib/structured/Bn.js:33-81 | reading the symbols of a digit sequence gives the number those digits denote |
| Bn.GetStrLoop | lib/structured/Bn.js:110-116 | the division loop prepends the base-\|alpha\| digits of q, most significant first, to what was built so far |
| Bn.GetStr | lib/structured/Bn.js:91-122 | an empty alphabet is an error, a one-symbol alphabet loops forever on x > 0 (modelled as an error), 0 gives alpha[0], and otherwise the result is the digits of x in exactly as many symbols as x needs |
| Bn.GetStrNoLeadingZero | lib/structured/Bn.js:110-120 | for x > 0 the first symbol is not alpha[0] |
| Bn.SetStrGetStr | lib/structured/Bn.js:33-122 | reading back the rendering of x gives x, for distinct symbols |
| Bn.GetStrSetStr | lib/structured/Bn.js:33-122 | rendering the value of a non-empty string that does not start with alpha[0] gives the string back |
| Bn.GetStrOfWidth | lib/structured/Bn.js:91-122 | a number with exactly w digits renders as its w-digit expansion |
| Bn.GetStrWidth | lib/structured/FFX.js:181-184 | a number below radix^m renders in at most m symbols |
| Bn.GetStrPadded | lib/structured/FFX.js:181-187 | left-padding the rendering of x < radix^m to m symbols with alpha[0] gives the m-digit expansion of x |
| Bn.PaddedRoundTrip | lib/structured/FFX.js:181-187 | left-padding the rendering of a string's value to the string's length with alpha[0] gives the string back |
| Bn.SetStrRejects | tests/Bn.test.js:28-32 | '109' is rejected over '012345678', which lacks '9', and over the empty alphabet, and rendering 0 over the empty alphabet is an error |
| Bn.GetStrExampleZero | tests/Bn.test.js:34-39 | 0 over the hex alphabet renders as '0' |
| Bn.SetStrExampleDecimal | tests/Bn.test.js:53-57 | '@$#' over '!@#$%^&*()' reads as 132 |
| Bn.SetStrExampleOctal | tests/Bn.test.js:59-63 | '@$#' over '!@#$%^&*' reads as 90 |
| JsBits.ToInt32 | lib/structured/FF1.js:81-93 | the operand of a JS shift is wrapped into [−2^31, 2^31) and stays congruent mod 2^32 |
| JsBits.ShiftedByteIsByteAt | lib/structured/FF1.js:81-93 | storing `x >> k` into a byte array (k = 0, 8, 16, 24) keeps byte k/8 of x, counted from the least significant, even when x wraps past 2^31 |
| JsBits.ShlNoWrap | lib/structuredEncryptDecrypt.js:263 | while the product stays below 2^31, `k << s` is k·2^(s mod 32) |
| JsBits.KeyEmbedding | lib/structuredEncryptDecrypt.js:338-341 | for idx < 2^s and no overflow, `(idx + (k << s)) >> s` recovers k, and subtracting `k << s` back recovers idx |
| JsValues.DecimalInjective | lib/urlHelper.js:12 | different integers have different decimal renderings |
| JsValues.TextInjective | lib/billingEvents.js:20 | different key numbers (null, undefined, or an integer) render as different text |
| JsValues.DecimalExamples | lib/urlHelper.js:12 | 0, 42 and −7 render as '0', '42' and '-7' |
| UrlHelper.FfsUrl | lib/urlHelper.js:4 | the FFS URL starts with 'papi=' and the encoded access key id and ends with '&ffs_name=' and the encoded dataset name |
| UrlHelper.FpeUrlEncrypt | lib/urlHelper.js:6 | the FPE encrypt URL starts with 'papi=' and the encoded access key id and ends with '&ffs_name=' and the encoded dataset name |
| UrlHelper.FpeUrlDecrypt | lib/urlHelper.js:8-14 | the decrypt URL fails exactly for a null key number, with the missing-key error; otherwise it is the encrypt URL followed by '&key_number=' and the key number as JS renders it |
| UrlHelper.FfsUrlIsEncryptUrl | lib/urlHelper.js:4-6 | the FFS URL and the FPE encrypt URL agree on all inputs and start with 'papi=' and the encoded access key id |
| UrlHelper.DecryptUrlRendersKey | lib/urlHelper.js:8-14 | an undefined key number passes the null check and is rendered 'undefined', and key number 0 is rendered '0', after the encrypt URL and '&key_number=' |
| UrlHelper.DecryptUrlsDistinct | lib/urlHelper.js:6-14 | a decrypt URL never equals the encrypt URL, and different key numbers give different decrypt URLs |
| Memo.Lookup | lib/ffsCacheManager.js:14-24 | a hit returns the stored value and leaves the map unchanged; a miss calls the loader; a falsy load is the could-not-load error and a rejection passes its error on, both leaving the map unchanged; a successful load is stored and returned; other entries never change |
| Memo.LookupTwice | lib/ffsCacheManager.js:16-23 | after a successful lookup, a second lookup of the same URL gives the same answer whatever the loader would now do |
| Memo.LookupOther | lib/fpeCacheManager.js:21-28 | a lookup does not change the answer for any other URL |
| FfsCache.GetAsyncSpec | lib/ffsCacheManager.js:14-24 | keyed by the FFS URL: a hit returns the stored dataset and changes nothing; a falsy load is the error 'FfsName: ' + name and a rejection passes its error on, both leaving the map unchanged; a successful load is stored under the URL and returned |
| FfsCache.GetAsyncTwice | lib/ffsCacheManager.js:14-24 | once a dataset has loaded, it is served from the map without calling the loader |
| FpeCache.Url | lib/fpeCacheManager.js:15-20 | the key is the encrypt URL for null and the decrypt URL for any other key number |
| FpeCache.UrlInjective | lib/fpeCacheManager.js:15-20 | different key numbers, 0 and null among them, get different cache keys |
| FpeCache.GetAsyncSpec | lib/fpeCacheManager.js:14-29 | keyed by the URL for the key number: a hit returns the stored key and changes nothing; a falsy load is the error 'Fpe for: ' + name and a rejection passes its error on, both leaving the map unchanged; a successful load is stored under the URL and returned |
| FpeCache.NullDoesNotAnswerZero | lib/fpeCacheManager.js:16-20 | loading the key for null leaves the answer for key number 0 as it would be from an empty cache |
| UbiqCache.New | lib/ubiqCache.js:6-9 | the cache starts empty, with a ttl of 1800 s by default, kept in milliseconds |
| UbiqCache.Set | lib/ubiqCache.js:11-15 | the key maps to the value, overwriting any earlier one; the key set grows by exactly that key; the ttl is kept |
| UbiqCache.Get | lib/ubiqCache.js:17-31 | a value is returned exactly when the entry exists and has not expired (an undefined expiry never does); an expired or absent entry reads as undefined, and only that key is removed |
| UbiqCache.Delete | lib/ubiqCache.js:34-36 | the result says whether an entry, expired or not, was present, and only that key is removed |
| UbiqCache.Has | lib/ubiqCache.js:38-40 | true exactly when the key is present and its entry has not expired |
| UbiqCache.Clear | lib/ubiqCache.js:42-44 | every entry goes and the ttl stays |
| UbiqCache.ExpiryAlwaysSet | lib/ubiqCache.js:6-15 | a cache built by the constructor always gives its entries an expiry time |
| UbiqCache.GetAfterSet | lib/ubiqCache.js:11-31 | a value set at t reads back unchanged before t + ttl, and from then on reads as undefined and is dropped |
| UbiqCache.GetAfterSetOther | lib/ubiqCache.js:11-31 | setting one key leaves every other key's reading as it was |
| UbiqCache.GetShrinks | lib/ubiqCache.js:17-31 | a read adds nothing, changes no entry, and removes at most the key read |
| UbiqCache.HasTwice | lib/ubiqCache.js:38-40 | a false has() leaves the key absent, and repeating has() at the same time gives the same answer and state |
| Billing.Validate | lib/billingEvents.js:15-18 | passes exactly for action encrypt/decrypt and type structured/unstructured; the action is checked first |
| Billing.GetKey | lib/billingEvents.js:14-22 | a key is produced exactly for valid fields, and otherwise the validation error |
| Billing.NewEvent | lib/billingEvents.js:29-53 | the constructor fails exactly when getKey does, with the same error, and otherwise records the fields and count |
| Billing.UpdateCount | lib/billingEvents.js:55-58 | the count grows by the additional count and the fields stay |
| Billing.Empty | lib/billingEvents.js:93-95 | the aggregate starts with no events |
| Billing.AddBillingEvent | lib/billingEvents.js:97-120 | it fails exactly when the fields are invalid, with that error, before anything is recorded |
| Billing.AddPreserves | lib/billingEvents.js:106-116 | a new key is appended with the given count; an existing key keeps its fields and adds the count; every other event is unchanged; the aggregate stays well formed |
| Billing.GetEventCount | lib/billingEvents.js:135-137 | the event count is 0 exactly when no event has been added |
| Billing.CountIsDistinctKeys | lib/billingEvents.js:135-137 | getEventCount is the number of distinct keys |
| Billing.GetBillingEvents | lib/billingEvents.js:140-145 | all events are returned in insertion order and the aggregate is left empty |
| Billing.KeyInjective | lib/billingEvents.js:20 | for fields without a quote character, equal keys mean equal fields, key number included, so differing events are counted apart |
| Billing.AddTwiceSums | lib/billingEvents.js:106-116 | two additions under one new key give a single event whose count is their sum |
| Billing.OrchestratorEventRecorded | lib/structuredEncryptDecrypt.js:274 | the event each orchestrator records (empty group, type 'structured', count 1, action encrypt or decrypt) is always accepted and raises its key's count by one, or starts it at one |
| Credentials.SetAttributes | lib/credentials.js:18-31 | the three keys pass through; a missing or empty host becomes the default URL; a host with an http:// or https:// scheme is kept, and any other gets https:// in front |
| Credentials.SetAttributesIdempotent | lib/credentials.js:18-31 | normalising a normalised record changes nothing |
| Credentials.HostKeptIff | lib/credentials.js:21-23 | a non-empty host is kept exactly when it already has a scheme |
| Configuration.Or | lib/configuration.js:8-12 | `a \|\| b` is a when a is truthy and b otherwise, and it is truthy when either is |
| Configuration.Setting | lib/configuration.js:8-12 | a truthy field is kept and a falsy or missing one becomes the default |
| Configuration.SetAttributes | lib/configuration.js:6-15 | reading a null or undefined section is a TypeError; otherwise every setting is truthy |
| Configuration.FractionAndArrayKept | lib/configuration.js:6-15 | a fractional wake interval (0.5) and an array setting, even an empty one, are truthy and kept, while the unset flush interval takes its default |
| Configuration.ProcessJsonConfiguration | lib/configuration.js:34-44 | it fails exactly on a null or undefined root, and otherwise every setting is truthy |
| Configuration.EmptySectionsDefault | lib/configuration.js:28-30 | empty sections give every default: 1, 5, 10, 250 and 15 |
| Configuration.MissingSectionsDefault | lib/configuration.js:39-41 | missing or falsy sections give every default |
| Configuration.SettingKeptIff | lib/configuration.js:8-12 | a configured value is kept exactly when it is truthy |
| Configuration.ZeroWakeReplaced | lib/configuration.js:8 | a configured wake interval of 0 becomes the default 1 |
| Ffx.TxtMin | lib/structured/FFX.js:59 | for radix ≥ 2, the least m with radix^m ≥ 10^6; NaN for radix 1; 0 for radix 0 |
| Ffx.New | lib/structured/FFX.js:16-88 | a key not 16, 24 or 32 bytes long is the key-size error; success needs a tweak, twkmin ≤ twkmax and a tweak length within the bounds (twkmax 0 is unbounded), and for radix ≥ 2 also 2 ≤ txtmin ≤ txtmax; for radix ≥ 2 and a valid key and tweak these conditions are also sufficient; without a tweak the error is the text-length or tweak one; the object records its arguments with txtmin computed |
| Ffx.NewKeySizes | lib/structured/FFX.js:29-41 | only 16-, 24- and 32-byte keys construct |
| Ffx.JsRem | lib/structured/FFX.js:99 | JS `%`: the sign follows the dividend |
| Ffx.BlockCount | lib/structured/FFX.js:103 | the number of blocks the prf loop encrypts: it stops once 16·k reaches len or the available bytes |
| Ffx.Prf | lib/structured/FFX.js:97-116 | a source whose length from soff is not a multiple of 16 is the invalid-source-length error; otherwise the result is the last block of AES-CBC, zero IV, over the blocks the loop visits |
| Ffx.PrfLoop | lib/structured/FFX.js:102-107 | the loop's last output is the CBC chain over exactly BlockCount blocks from soff, or nothing when no block is visited |
| Ffx.PrfInto | lib/structured/FFX.js:97-116 | prf writes its block into dst at doff and changes nothing else, or passes the error on |
| Ffx.CiphIsOneBlock | lib/structured/FFX.js:118-133 | ciph on one 16-byte block is a single AES block encryption |
| Ffx.Str | lib/structured/FFX.js:171-188 | str(m, r, i) with an alphabet succeeds exactly when m ≥ 1 and i < radix^m, and then gives the m-digit expansion of i; otherwise it is the string-exceeds error, or the non-terminating case of a one-symbol alphabet |
| Ffx.StrFacts | lib/structured/FFX.js:181-187 | the rendering fits in m symbols exactly when i < radix^m, and padding it gives the m-digit expansion |
| Ffx.StrOfNum | lib/structured/FFX.js:171-188 | str of a string's value at its own length gives the string back |
| Ffx.HexDigits | lib/structured/FFX.js:235 | `toString(16)`: hex digits of the number, with no leading zero, and '0' for zero |
| Ffx.EvenLength | lib/structured/FFX.js:236-238 | a leading 0 is added to an odd-length hex string; the value is unchanged and a non-zero first pair stays non-zero |
| Ffx.HexPairs | lib/structured/FFX.js:239-248 | an even number of hex digits gives half as many bytes |
| Ffx.HexPairsValue | lib/structured/FFX.js:239-248 | the bytes read big-endian have the value of the hex string |
| Ffx.BigIntToByteArray | lib/structured/FFX.js:234-250 | the minimal big-endian bytes of the number: [0] for zero, no leading zero byte otherwise |
| Ffx.NoLeadingZeroByte | lib/structured/FF1.js:113-123 | the byte array never starts with a zero when it is longer than one byte |
| Ff1.NewFf1 | lib/structured/FF1.js:19-24 | a non-empty alphabet fixes the radix to its length, and txtmax is 2^32 |
| Ff1.ByteCount | lib/structured/FF1.js:50-52 | b is the least byte count with 256^b ≥ radix^v |
| Ff1.MakeLayout | lib/structured/FF1.js:33-58 | u = ⌊n/2⌋, v = n − u, d = 4⌈b/4⌉ + 4, and r is d rounded up to whole blocks |
| Ff1.QLength | lib/structured/FF1.js:72 | \|Q\| = 16·⌈(t + b + 1)/16⌉ |
| Ff1.PBlockLayout | lib/structured/FF1.js:77-93 | P is [1,2,1], radix in 3 bytes, [10], u mod 256, n in 4 bytes, and t in 4 bytes, all big-endian |
| Ff1.BuildPQ | lib/structured/FF1.js:77-130 | the imperative filling of PQ gives P followed by Q: the tweak, zeros, the round byte, and NUM(B) in b bytes |
| Ff1.NumFieldIsBigEndian | lib/structured/FF1.js:111-130 | the b-byte field for NUM(B) < 256^b is its big-endian encoding, padded on the left with zeros |
| Ff1.NumFieldValue | lib/structured/FF1.js:124-130 | the field read big-endian is NUM(B) |
| Ff1.Extend | lib/structured/FF1.js:140-151 | R is extended to whole blocks and keeps its first block |
| Ff1.BytesToInteger | lib/structured/FF1.js:8-16 | the loop computes the big-endian value of the first d bytes |
| Ff1.NoLeadingZeroStrip | lib/structured/FF1.js:113-123 | the leading-zero strip never fires |
| Ff1.RoundValue | lib/structured/FF1.js:106-161 | the round's y is below 256^d, and it exists exactly when B is over the alphabet |
| Ff1.Round | lib/structured/FF1.js:97-179 | a successful round returns (B, C) with C of length m for that round, u or v |
| Ff1.Mix | lib/structured/FF1.js:158-174 | (NUM(A) ± y) mod radix^m, normalised into [0, radix^m) |
| Ff1.TruncatedModLifted | lib/structured/FF1.js:169-174 | adding radix^m to a negative truncated remainder gives the mathematical modulus |
| Ff1.MixInverse | lib/structured/FF1.js:158-174 | subtracting y undoes adding y, and the reverse |
| Ff1.Split | lib/structured/FF1.js:42-48 | the two halves concatenate back to X, as A‖B when encrypting and as B‖A when decrypting |
| Ff1.Cipher | lib/structured/FF1.js:31-182 | a text length outside [txtmin, txtmax] is the invalid-input-length error, checked first; then a bad length of the tweak in use is the invalid-tweak-length error |
| Ff1.Encrypt | lib/structured/FFX.js:201-203 | encrypt fails with the invalid-input-length error on a text length outside [txtmin, txtmax], and then with the invalid-tweak-length error when the tweak in use is outside [twkmin, twkmax] |
| Ff1.Decrypter | lib/structured/FFX.js:216-218 | decrypter fails on exactly the same length and tweak checks as encrypt, in the same order |
| Ff1.Decrypt | lib/structured/FFX.js:230-232 | decrypt with no tweak checks the tweak given at construction: a bad text length, then a bad length of that tweak, are the two errors |
| Ff1Facts.RoundOk | lib/structured/FF1.js:111-175 | a round succeeds exactly when both halves are over a non-empty alphabet and its output length is at least 1, and its output is over the alphabet |
| Ff1Facts.CipherSucceeds | lib/structured/FF1.js:31-182 | cipher succeeds exactly when the length and tweak checks pass, n ≥ 2, and X is over the alphabet |
| Ff1Facts.SucceedsOnlyOnText | lib/structured/FF1.js:97-179 | ten successful rounds imply n ≥ 2 and X over the alphabet |
| Ff1Facts.TwoRoundsLong | lib/structured/FF1.js:33-36 | ten successful rounds imply u ≥ 1 and v ≥ 1 |
| Ff1Facts.RunsOnText | lib/structured/FF1.js:97-179 | on a text over the alphabet with n ≥ 2, all ten rounds succeed |
| Ff1Facts.CipherShape | lib/structured/FF1.js:175-181 | the output has the input's length and alphabet |
| Ff1Inverse.RoundPairing | lib/structured/FF1.js:99-106 | decrypt round 9 − k has the length and round byte of encrypt round k |
| Ff1Inverse.RoundInverse | lib/structured/FF1.js:158-178 | decrypt round 9 − k maps (C, B) back to (B, A) when encrypt round k maps (A, B) to (B, C), for distinct symbols |
| Ff1Inverse.RoundsUndo | lib/structured/FF1.js:97-179 | every round of one direction is undone by the paired round of the other |
| Ff1Inverse.CipherInverse | lib/structured/FF1.js:31-182 | for any block function, a constructed cipher over distinct symbols (radix = alphabet length), run the other way on its output, gives X back |
| Ff1Inverse.DecryptEncrypt | lib/structured/FFX.js:201-218 | for a constructed cipher over distinct symbols, decrypter(encrypt(X, twk), twk) == X whenever encrypt succeeds |
| Ff1Inverse.EncryptDecrypt | lib/structured/FFX.js:201-218 | for a constructed cipher over distinct symbols, encrypt(decrypter(Y, twk), twk) == Y whenever decrypter succeeds |
| Feistel.RunLengths | lib/structured/FF1.js:97-179 | the halves alternate between the two lengths, round by round |
| Feistel.RunGuarded | lib/structured/FF1.js:97-179 | when every round needs its halves in a set and keeps its output in it, a successful run started inside it and stays inside it |
| Feistel.RunTotal | lib/structured/FF1.js:97-179 | rounds that succeed on well-formed halves make every run from well-formed halves succeed |
| Feistel.RunInverse | lib/structured/FF1.js:97-181 | n rounds of the undoing steps on the swapped output give the swapped input back |
| Ff1Context.ContextInvertible | lib/structured/FFX.js:201-232 | an FF1 object over distinct symbols is a length- and alphabet-preserving invertible context |
| Ff1Context.AddFF1Invertible | lib/structuredEncryptDecrypt.js:105-112 | the context built from the dataset's input alphabet is invertible over that alphabet |
| Template.At | lib/structuredEncryptDecrypt.js:239 | indexing is undefined exactly outside the string |
| Template.TrimInput | lib/structuredEncryptDecrypt.js:184-199 | trimmed is the non-passthrough characters in order; the template has the input's length, with passthrough characters in place and the placeholder elsewhere |
| Template.FillTrimmed | lib/structuredEncryptDecrypt.js:266-272 | filling the template positions with the trimmed text restores the input |
| Template.TrimFilled | lib/structuredEncryptDecrypt.js:184-199 | trimming a filled text gives back the filling and the same template |
| Template.MaskFill | lib/structuredEncryptDecrypt.js:266-272 | filling with non-passthrough characters keeps every passthrough position where it was |
| Template.Scatter | lib/structuredEncryptDecrypt.js:266-272 | positions that do not hold the placeholder are left alone |
| Template.ScatterOrder | lib/structuredEncryptDecrypt.js:266-272 | the k-th placeholder, counted from the left, receives the k-th value |
| Template.ScatterTemplate | lib/structuredEncryptDecrypt.js:266-272 | scattering into a trimmed template is filling the original text |
| Recode.PassSet | lib/structuredEncryptDecrypt.js:204 | the passthrough set holds exactly the passthrough characters |
| Recode.FirstOutside | lib/structuredEncryptDecrypt.js:249-253 | the validation loop reports a character outside the alphabet exactly when there is one |
| Recode.Rendered | lib/structuredEncryptDecrypt.js:258-261 | an encryption error passes through; a rendering is at least as long as the trimmed text |
| Recode.RenderedAlphabet | lib/structuredEncryptDecrypt.js:258-261 | the rendering is over the output alphabet |
| Recode.RenderedValue | lib/structuredEncryptDecrypt.js:259-261 | reading the padded rendering in the output alphabet gives the value of the cipher output in the input alphabet |
| Recode.EncryptTrimmed | lib/structuredEncryptDecrypt.js:258-265 | succeeds exactly when the rendering does, with as many cells as it has |
| Recode.DecryptTrimmed | lib/structuredEncryptDecrypt.js:338-355 | the key number comes from the first symbol, an error looking up its context passes through, and a result names that key number |
| Recode.ExtractEmbed | lib/structuredEncryptDecrypt.js:338-341 | extracting from an embedded first symbol gives back the key number and the original rendering |
| Recode.EmbedAlphabet | lib/structuredEncryptDecrypt.js:262-265 | within the bounds, the embedded text stays over the output alphabet |
| Recode.DecryptRendered | lib/structuredEncryptDecrypt.js:338-355 | decrypting the rendering under its key number gives back the key number and the trimmed text |
| Recode.RecodeInverse | lib/structuredEncryptDecrypt.js:258-355 | the trimmed cipher text has the trimmed text's length and the output alphabet, and decrypts to that key number and that text |
| Fpe.Scan | lib/fpeEncryptDecrypt.js:143-153 | the single pass succeeds exactly when every non-passthrough character is in the input alphabet, and otherwise reports the first one that is not |
| Fpe.Encrypt | lib/fpeEncryptDecrypt.js:133-176 | the invalid-character error comes first, then the length bounds; success implies both hold and the rendering succeeded |
| Fpe.Decrypt | lib/fpeEncryptDecrypt.js:178-230 | a non-passthrough character outside the output alphabet is an invalid-character error |
| Fpe.EncryptFilled | lib/fpeEncryptDecrypt.js:165-175 | the cipher text is the input with its non-passthrough characters replaced, in order, by the output-alphabet cipher symbols |
| Fpe.EncryptShape | lib/fpeEncryptDecrypt.js:139-175 | the cipher text has the input's length and every passthrough character at its place |
| Fpe.DecryptFilled | lib/fpeEncryptDecrypt.js:178-230 | if e is over the output alphabet and its trimmed decryption is x's trimmed text, then decrypting x with its non-passthrough characters replaced by e gives x |
| Fpe.RoundTrip | lib/fpeEncryptDecrypt.js:133-230 | Decrypt(Encrypt(x)) == x under the stated alphabet and embedding conditions |
| Structured.ParsePrefix | lib/structuredEncryptDecrypt.js:140-142 | the parts concatenate to the input; the prefix has k characters when 0 ≤ k ≤ \|arr\|, and is all of it beyond |
| Structured.ParseSuffix | lib/structuredEncryptDecrypt.js:180-182 | the rest followed by the suffix is the input; the suffix has k characters when 0 ≤ k ≤ \|arr\| |
| Structured.ParseSuffixOverlong | lib/structuredEncryptDecrypt.js:180-182 | a suffix length of 4 on 'abc' gives suffix 'c', not 'abc' |
| Structured.PrefixTrimmedStep | lib/structuredEncryptDecrypt.js:150-158 | one turn of the prefix loop: a passthrough slot moves to the prefix without counting, any other slot takes the next trimmed character and counts |
| Structured.PrefixTrimmedCut | lib/structuredEncryptDecrypt.js:144-160 | cutting n by count takes the text up to its n-th non-passthrough character, and leaves the trimmed form of the rest |
| Structured.SuffixTrimmedStep | lib/structuredEncryptDecrypt.js:168-176 | the same turn from the back |
| Structured.SuffixTrimmedCut | lib/structuredEncryptDecrypt.js:162-178 | cutting n from the back takes the text from its n-th last non-passthrough character |
| Structured.ApplyHolds | lib/structuredEncryptDecrypt.js:212-241 | each rule keeps the loop state equal to prefix / trimmed middle / suffix of the original text at the reference cuts |
| Structured.RulesHold | lib/structuredEncryptDecrypt.js:212-241 | so does the whole rules loop |
| Structured.DecomposeView | lib/structuredEncryptDecrypt.js:212-246 | after the loop and the final trim, the prefix, the suffix, and the trimmed middle with its template are those of the reference cuts |
| Structured.Encrypt | lib/structuredEncryptDecrypt.js:200-277 | the invalid-character error comes first, then the length bounds; success implies both hold |
| Structured.Decrypt | lib/structuredEncryptDecrypt.js:279-371 | a trimmed character outside the output alphabet is an invalid-character error; success implies the trimmed decryption succeeded |
| Structured.EncryptParts | lib/structuredEncryptDecrypt.js:258-276 | the cipher text is the prefix, the template with the cipher symbols scattered in, then the suffix |
| Structured.EncryptFilled | lib/structuredEncryptDecrypt.js:258-276 | the cipher text is the prefix, the middle with its non-passthrough characters replaced by output-alphabet symbols, then the suffix |
| Structured.DecryptParts | lib/structuredEncryptDecrypt.js:338-367 | decryption is the prefix, the template with the plain symbols scattered in, then the suffix |
| Structured.DecryptFilled | lib/structuredEncryptDecrypt.js:279-371 | if e is over the output alphabet and its trimmed decryption is the trimmed middle of x, then decrypting x with the middle's non-passthrough characters replaced by e gives x |
| Structured.RoundTrip | lib/structuredEncryptDecrypt.js:200-371 | Decrypt(Encrypt(x)) == x under the stated alphabet, placeholder, rule and embedding conditions |
| Ff1Cache.SetCache | lib/ff1CacheManager.js:10-13 | the entry goes under its cache key, and all other keys keep their values |
| Ff1Cache.GetCache | lib/ff1CacheManager.js:15-21 | a value is returned exactly when the cache key is present, and it is the stored one |
| Ff1Cache.GetAfterSet | lib/ff1CacheManager.js:10-21 | get after set returns what was set |
| Ff1Cache.GetAfterSetOther | lib/ff1CacheManager.js:10-21 | a set does not change the answer for a different cache key |
| Ff1Cache.CacheKeySlot | lib/ff1CacheManager.js:6-8 | two key numbers of one dataset share an entry exactly when their slot texts agree |
| Ff1Cache.ZeroSharesNull | lib/ff1CacheManager.js:6-8 | as written, key number 0 and undefined share the entry of null |
| Ff1Cache.AsWrittenKeys | lib/ff1CacheManager.js:6-8 | as written, two key numbers collide exactly when both are falsy or both are the same non-zero number |
| Ff1Cache.SeparatedKeys | lib/ff1CacheManager.js:6-8 | with 0 kept apart, two key numbers collide exactly when neither is a number or both are the same number |
| Ff1Cache.AddFF1 | lib/structuredEncryptDecrypt.js:93-120 | the context goes in under the key number and, for null or undefined, under activeKey too; nothing else changes |
| Ff1Cache.GetFF1 | lib/structuredEncryptDecrypt.js:71-90 | a cached entry is returned as it is; a miss builds the entry from the data key of the key number asked for, or of the current key for null |
| Ff1Cache.GetFF1Separated | lib/structuredEncryptDecrypt.js:71-120 | with 0 kept apart, the cache stays consistent and a key number's lookup yields that key's context |
| Ff1Cache.ZeroReadsActive | lib/structuredEncryptDecrypt.js:71-90 | as written, after the lookup for null has cached current key 1, the lookup for key number 0 returns key 1's context |
| Ff1Cache.SearchLoop | lib/structuredEncryptDecrypt.js:396-406 | the loop from i yields one cipher text per remaining key |
| Ff1Cache.EncryptForSearch | lib/structuredEncryptDecrypt.js:391-408 | the current key stored under null, then the loop, read as intended, gives one cipher text per key of the dataset |
| Ff1Cache.SearchLoopSeparated | lib/structuredEncryptDecrypt.js:396-406 | with 0 kept apart, cipher text j of the loop from i is encrypted under data key i + j and embeds i + j |
| Ff1Cache.SearchSeparated | lib/structuredEncryptDecrypt.js:391-408 | with 0 kept apart, the j-th search cipher text is encrypted under data key j and embeds key number j |
| Ff1Cache.AddNullConsistent | lib/structuredEncryptDecrypt.js:391 | storing the current key under null keeps the cache consistent |
| Ff1Cache.SearchAsWritten | lib/structuredEncryptDecrypt.js:391-406 | with the cache key as written and the loop read as intended, current key 1 and two keys, the cipher text for key number 0 is encrypted under data key 1 |
| Search.CacheRingSeparated | lib/structuredEncryptDecrypt.js:338-344 | with 0 kept apart, decryption obtains the context of the key number it extracts |
| Search.CacheRingAsWritten | lib/structuredEncryptDecrypt.js:338-344 | as written, once current key 1 is cached, a cipher text naming key 0 is given key 1's context, although an empty cache gives key 0's |
| Search.DecryptLookup | lib/structuredEncryptDecrypt.js:71-89 | when DecryptAsync reaches GetFF1, the cache afterwards holds an entry for the extracted key number and stays consistent with 0 kept apart; when it does not, the cache is unchanged |
| Search.FpeDecryptCurrent | lib/fpeEncryptDecrypt.js:178-206 | DecryptAsync decrypts through the context the cache holds for the extracted key number; a cipher text rejected before the lookup leaves the cache as it was and fails; otherwise the key number's entry is present afterwards, and with 0 kept apart the cache stays consistent |
| Search.StructuredDecryptCurrent | lib/structuredEncryptDecrypt.js:279-344 | the same for the structured DecryptAsync, with the key number extracted after the prefix, suffix and passthrough rules |
| Search.DecryptThenEncryptAsWritten | lib/structuredEncryptDecrypt.js:115-117 | as written, decrypting a key-0 cipher text in a fresh process files key 0's context under null, so a later EncryptAsync with current key 1 encrypts under retired key 0 and embeds 0 |
| Search.DecryptThenEncryptSeparated | lib/ff1CacheManager.js:6-8 | with 0 kept apart, after decrypting any cipher text in a fresh process, EncryptAsync encrypts under the current key and embeds it |
| Search.FpeEncryptCurrent | lib/fpeEncryptDecrypt.js:124-131 | with 0 kept apart and a consistent cache, EncryptAsync leaves the cache consistent and encrypts under the data key of the very key number it embeds |
| Search.StructuredEncryptCurrent | lib/structuredEncryptDecrypt.js:125-138 | the same for the structured EncryptAsync |
| Search.FpeCurrentRoundTrip | lib/fpeEncryptDecrypt.js:124-230 | with 0 kept apart, EncryptAsync under the current key leaves the cache consistent, and its cipher text decrypts back to the plain text through any consistent cache |
| Search.StructuredCurrentRoundTrip | lib/structuredEncryptDecrypt.js:125-371 | with 0 kept apart, the structured EncryptAsync leaves the cache consistent, and its cipher text decrypts back to the plain text through any consistent cache |
| Search.FpeSearchRoundTrip | lib/fpeEncryptDecrypt.js:249-264 | with 0 kept apart, every cipher text of the EncryptForSearchAsync loop, read as intended, decrypts back to the plain text |
| Search.StructuredSearchRoundTrip | lib/structuredEncryptDecrypt.js:391-406 | with 0 kept apart, every cipher text of the structured EncryptForSearchAsync loop, read as intended, decrypts back to the plain text |
| Search.FpeSearch | lib/fpeEncryptDecrypt.js:249-264 | the loop, read as intended, gives one cipher text per key; with 0 kept apart and a consistent cache, cipher text j is the encryption under data key j embedding key number j |
| Search.StructuredSearch | lib/structuredEncryptDecrypt.js:391-406 | the same for the structured loop |
| Search.FpeSearchAsync | lib/fpeEncryptDecrypt.js:232-267 | when the dataset-and-keys fetch or the FFS cache store is missing, EncryptForSearchAsync fails with a TypeError and leaves the FF1 cache untouched; with both present it is the loop |
| Search.StructuredSearchAsync | lib/structuredEncryptDecrypt.js:373-412 | the same for the structured method, whose catch rethrows the failure with its message |
| Search.ShippedSearchThrows | lib/fpeEncryptDecrypt.js:232-241 | as shipped, where neither GetFFSAndDataKeys nor AddToCache is defined, both EncryptForSearchAsync methods fail with a TypeError on every input |

## Left out

- Network, HTTP, request signing, RSA-OAEP unwrap and node-forge: the
  dataset, the FPE key and the key list come in as values or loader
  outcomes (`Memo.Load`), and a data key is named by its key number.
- AES itself: the block cipher is a function parameter, and
  `createCipheriv` state is not modelled. Each `prf` call starts a fresh
  chain, as the code's reset does.
- `Math.log` and `Math.ceil`: replaced by the integer characterisations
  `Ffx.TxtMin` and `Ff1.ByteCount`. Floating-point rounding at exact
  powers is not modelled.
- The external `ubiq-security-fpe` package is not part of this model; the
  local FF1 and Bn stand in for it.
- The unstructured AES-GCM path, key-pair generation, the examples and
  the test suites are not part of this model.
- Fpe.Encrypt, Fpe.Decrypt, Structured.Encrypt, Structured.Decrypt: the
  `addBillingEvent` call each makes after a successful result is not part
  of these functions (lib/fpeEncryptDecrypt.js:173 and :226,
  lib/structuredEncryptDecrypt.js:274 and :364). Each records one event
  with count 1, type 'structured', an empty group, and the key number it
  embeds or extracts. Its action and type are valid constants, so it
  cannot throw and the modelled results are unaffected
  (Billing.OrchestratorEventRecorded). The dataset name is not the same
  in every call: the FPE encrypt call passes `ffs.ffsName`, a field no
  code in the library sets on the dataset record the server returns, so
  unless the server sends it the event records undefined; the structured encrypt call passes
  `ffs.name`; both decrypt calls pass the `ffsName` argument, and the FPE
  decrypt call is not awaited.
- Billing timestamps, `serialize`, `serialize_events`, and the metadata
  and usage methods the orchestrators call (they depend on the clock and
  package.json).
- Concurrency: every async method runs to completion before the next.
- UTF-16: strings are sequences of `char`, one per code unit.
- Credential and configuration loading from files and environment
  variables (`Credentials`, `ConfigCredentials`, `Configuration`
  constructors, `load_configuration`).
- Dead or broken code: `EncodeKeyNum`, `ByteArrayToBigInt`, `rev` and
  `revStr`.
- The no-alphabet branches of `bigint_set_str` and `str`, which delegate
  to the big-integer library's radix parsing and printing.
- `Passthrough_Priorities` is imported from lib/ffsCacheManager.js, which
  does not export it. As written, comparing a rule with
  `Passthrough_Priorities.Prefix` would throw for any dataset with a
  non-empty rule list. The model reads the rules as the three-valued
  enumeration the code evidently means (`Recode.Rule`).
- An unknown key number in a cipher text: the server's answer to an
  unknown key is not modelled; `Search` maps every key number to a
  context.
- ubiqCache values that are `undefined` and a `null` ttl: values are
  ordinary values, and the time to live is a number or absent.
- Encrypt determinism: every operation is a function, so two calls on
  equal inputs agree by construction, and no lemma states it.
- Tweak handling in the orchestrators: `tweak_min_len` and
  `tweak_max_len` are never assigned, so the bounds are parameters that
  callers may leave unset.
- Ff1.Round: its contract states the shape of a successful round; its
  arithmetic (y reduced mod radix^m and C = STR_m(c)) is stated through
  Ff1.Mix, Ff1.MixInverse and Ff1Inverse.RoundInverse rather than on the
  function itself.
- Ff1.RoundValue: states only the bound y < 256^d and when it exists;
  the big-endian reading is stated by Ff1.BytesToInteger.
- Fpe.Decrypt: its contract states only the validation error; what it
  computes is stated by Fpe.DecryptFilled and Fpe.RoundTrip.
- Structured.RoundTrip: proved only when the count cuts after the
  passthrough rule find enough non-passthrough characters. When they do
  not, the loops take `undefined` past the end of the arrays.
- Fpe.RoundTrip, Structured.RoundTrip: they hold only under conditions
  the code does not check, each needed for the reason given:
  - distinct symbols in each alphabet, since `indexOf` reads a repeated
    symbol as its first occurrence;
  - at least two symbols in each alphabet, since `bigint_get_str` loops
    forever over a one-symbol alphabet;
  - no output symbol among the passthrough characters, since DecryptAsync's
    trim would skip such a cipher symbol as passthrough;
  - input[0] outside the passthrough set, since it marks the template's
    slots;
  - a key ring that gives back the encrypting context for the key number,
    a context that inverts over the input alphabet;
  - the embedding conditions: a key number of at least 0, a first symbol
    index below 2^msb_encoding_bits, the shifted index inside an output
    alphabet of at most 2^31 symbols, and a rendering no longer than the
    trimmed text;
  - for Structured only, no repeated rule in `passthrough_priorities`,
    since a second prefix or suffix rule overwrites the part the first
    one saved (the loop at lines 212-241 of
    lib/structuredEncryptDecrypt.js); the count condition is the
    Structured.RoundTrip line above.
- Bn.GetStr: a one-symbol alphabet makes the JS loop run forever for
  x > 0; the model returns an error there.
- Search.FpeSearchRoundTrip: as written, EncryptForSearchAsync of
  lib/fpeEncryptDecrypt.js throws a TypeError at line 235, since the web
  services define no `GetFFSAndDataKeys`, and line 239 would throw the
  same way, since FfsCacheManager defines no `AddToCache`. No input
  reaches the loop; the lemma reads the loop at lines 249-264 as intended.
  Search.FpeSearchAsync and Search.ShippedSearchThrows state the throw.
- Search.StructuredSearchRoundTrip: the same at lines 377 and 381 of
  lib/structuredEncryptDecrypt.js, rethrown as a plain Error at lines
  409-411; the lemma reads the loop at lines 391-406 as intended.
- Ff1Cache.EncryptForSearch: the loop as intended; as written it is never
  reached (see Search.FpeSearchAsync).
- Ff1Cache.SearchAsWritten: the cache-key collision inside the loop as
  intended; as written the loop is never reached.
- Search.FpeSearch: the loop as intended; as written it is never reached.
- Search.StructuredSearch: the loop as intended; as written it is never
  reached.
- The search keys themselves (`keys`, `current_key_number`) come from
  `GetFFSAndDataKeys`, which does not exist; the model takes the key
  count and the current key number as parameters.
- Configuration.JsValue: a number is its exact decimal value. A literal
  that a double rounds to 0, such as 1e-400, is truthy in the model but
  falsy in JS. NaN and the infinities cannot come from JSON.

## Findings

| source | as written | input that shows it | evidently intended | confidence | as-written member | corrected member |
|---|---|---|---|---|---|---|
| lib/ff1CacheManager.js:7 | the cache key uses `KeyNumber \|\| 'isNull'`, so key number 0 is filed under the same key as null, where AddFF1 stores the current key's context | current key number 1. One way: EncryptAsync's AddFF1 stores key 1's context under null and under 1 (lib/structuredEncryptDecrypt.js:115-117); a later DecryptAsync of a cipher text naming key 0 looks up GetCache(name, 0) (:344, :73-75), which reads the null entry and returns key 1's context, while a fresh process would fetch key 0. The other way: in a fresh process, DecryptAsync of a key-0 cipher text builds key 0's context and files it under 'isNull' (:344, :115); every later EncryptAsync then looks up null (:131), finds key 0, and encrypts under the retired key while embedding key number 0. The same collision would make the EncryptForSearchAsync loop encrypt its key-0 cipher text under key 1, but only once GetFFSAndDataKeys and AddToCache exist: as written that method throws before its loop | only null and undefined map to 'isNull'; every number, 0 included, gets its own entry | not executed | Ff1Cache.ZeroReadsActive, Search.CacheRingAsWritten, Search.DecryptThenEncryptAsWritten, Ff1Cache.SearchAsWritten (loop half, conditional) | Ff1Cache.GetFF1Separated, Search.CacheRingSeparated, Search.DecryptThenEncryptSeparated, Search.FpeCurrentRoundTrip, Search.StructuredCurrentRoundTrip, Ff1Cache.SearchSeparated (loop half, conditional) |
