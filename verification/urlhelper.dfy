/** The request query strings of lib/urlHelper.js, which the FFS and FPE
    caches also use as their keys. `encodeURIComponent` is a parameter. */
module UrlHelper {
  import opened Wrappers
  import opened JsValues

  /** encodeURIComponent, left abstract. */
  type Encoder = string -> string

  /** GenerateAccessKeyUrl: the encoded access key id. */
  function AccessKeyUrl(enc: Encoder, accessKeyId: string): (u: string)
  {
    enc(accessKeyId)
  }

  /** GenerateFfsUrl. */
  function FfsUrl(enc: Encoder, name: string, accessKeyId: string): (u: string)
    ensures |u| >= 5 + |AccessKeyUrl(enc, accessKeyId)| + 10 + |enc(name)|
    ensures u[..5 + |AccessKeyUrl(enc, accessKeyId)|] == "papi=" + AccessKeyUrl(enc, accessKeyId)
    ensures u[|u| - 10 - |enc(name)|..] == "&ffs_name=" + enc(name)
  {
    "papi=" + enc(accessKeyId) + "&ffs_name=" + enc(name)
  }

  /** GenerateFpeUrlEncrypt. */
  function FpeUrlEncrypt(enc: Encoder, name: string, accessKeyId: string): (u: string)
    ensures |u| >= 5 + |AccessKeyUrl(enc, accessKeyId)| + 10 + |enc(name)|
    ensures u[..5 + |AccessKeyUrl(enc, accessKeyId)|] == "papi=" + AccessKeyUrl(enc, accessKeyId)
    ensures u[|u| - 10 - |enc(name)|..] == "&ffs_name=" + enc(name)
  {
    "papi=" + enc(accessKeyId) + "&ffs_name=" + enc(name)
  }

  /** GenerateFpeUrlDecrypt: null is refused; any other key number,
      undefined included, is rendered into the query. */
  function FpeUrlDecrypt(enc: Encoder, name: string, k: KeyNumber, accessKeyId: string): (r: Result<string>)
    ensures r.Err? <==> k.Null?
    ensures r.Err? ==> r.error == MissingKey
    ensures r.Ok? ==> r.value == FpeUrlEncrypt(enc, name, accessKeyId) + "&key_number=" + Text(k)
  {
    if k.Null? then Err(MissingKey)
    else Ok("papi=" + enc(accessKeyId) + "&ffs_name=" + enc(name) + "&key_number=" + Text(k))
  }

  /** The two dataset URLs agree, so the FFS and the FPE caches key a
      dataset identically, and both start with the encoded access key. */
  lemma FfsUrlIsEncryptUrl(enc: Encoder, name: string, accessKeyId: string)
    ensures FfsUrl(enc, name, accessKeyId) == FpeUrlEncrypt(enc, name, accessKeyId)
    ensures FfsUrl(enc, name, accessKeyId)[..5 + |AccessKeyUrl(enc, accessKeyId)|] == "papi=" + AccessKeyUrl(enc, accessKeyId)
  {
  }

  /** The key number is rendered as a template literal renders it:
      undefined passes the null check and reads 'undefined', and key
      number 0 reads '0'. */
  lemma DecryptUrlRendersKey(enc: Encoder, name: string, accessKeyId: string)
    ensures FpeUrlDecrypt(enc, name, Undefined, accessKeyId)
            == Ok(FpeUrlEncrypt(enc, name, accessKeyId) + "&key_number=undefined")
    ensures FpeUrlDecrypt(enc, name, Number(0), accessKeyId)
            == Ok(FpeUrlEncrypt(enc, name, accessKeyId) + "&key_number=0")
  {
    DecimalExamples();
    var base := FpeUrlEncrypt(enc, name, accessKeyId);
    assert "&key_number=" + Text(Undefined) == "&key_number=undefined";
    assert "&key_number=" + Text(Number(0)) == "&key_number=0";
    assert base + "&key_number=" + Text(Undefined) == base + "&key_number=undefined";
    assert base + "&key_number=" + Text(Number(0)) == base + "&key_number=0";
  }

  /** Decrypt URLs of one dataset differ for different key numbers, and
      none equals the encrypt URL: in the FPE cache key number 0 and null
      have entries of their own. */
  lemma DecryptUrlsDistinct(enc: Encoder, name: string, k: KeyNumber, k': KeyNumber, accessKeyId: string)
    requires FpeUrlDecrypt(enc, name, k, accessKeyId).Ok?
    ensures FpeUrlDecrypt(enc, name, k, accessKeyId).value != FpeUrlEncrypt(enc, name, accessKeyId)
    ensures FpeUrlDecrypt(enc, name, k', accessKeyId) == FpeUrlDecrypt(enc, name, k, accessKeyId) ==> k' == k
  {
    var base := FpeUrlEncrypt(enc, name, accessKeyId);
    var u := FpeUrlDecrypt(enc, name, k, accessKeyId).value;
    assert |u| > |base|;
    if FpeUrlDecrypt(enc, name, k', accessKeyId) == FpeUrlDecrypt(enc, name, k, accessKeyId) {
      var tail := "&key_number=";
      assert u == base + tail + Text(k) == base + tail + Text(k');
      assert u[|base| + |tail|..] == Text(k);
      assert u[|base| + |tail|..] == Text(k');
      TextInjective(k, k');
    }
  }
}
