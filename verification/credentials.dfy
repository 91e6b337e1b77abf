/** set_attributes of lib/credentials.js: the three keys pass through and
    the host is normalised to an http or https URL. */
module Credentials {
  import opened Wrappers

  const DefaultHost: string := "https://api.ubiqsecurity.com"

  datatype Credentials = Credentials(accessKeyId: string, secretSigningKey: string,
                                     secretCryptoAccessKey: string, host: string)

  predicate StartsWith(s: string, p: string)
  {
    |p| <= |s| && s[..|p|] == p
  }

  /** The host has a scheme the client accepts. */
  predicate HasScheme(h: string)
  {
    StartsWith(h, "http://") || StartsWith(h, "https://")
  }

  /** set_attributes(access_key_id, secret_signing_key,
      secret_crypto_access_key, host); a missing host is None, and JS
      treats it and the empty string as falsy. */
  function SetAttributes(accessKeyId: string, secretSigningKey: string, secretCryptoAccessKey: string,
                         host: Option<string>): (r: Credentials)
    ensures r.accessKeyId == accessKeyId && r.secretSigningKey == secretSigningKey
    ensures r.secretCryptoAccessKey == secretCryptoAccessKey
    ensures HasScheme(r.host)
    ensures host.None? || host == Some("") ==> r.host == DefaultHost
    ensures host.Some? && host.value != "" && HasScheme(host.value) ==> r.host == host.value
    ensures host.Some? && host.value != "" && !HasScheme(host.value) ==> r.host == "https://" + host.value
  {
    var server := if host.Some? && host.value != "" then host.value else DefaultHost;
    var h := if !HasScheme(server) then "https://" + server else server;
    assert StartsWith("https://" + server, "https://");
    Credentials(accessKeyId, secretSigningKey, secretCryptoAccessKey, h)
  }

  /** Normalising a normalised host changes nothing. */
  lemma SetAttributesIdempotent(accessKeyId: string, secretSigningKey: string, secretCryptoAccessKey: string,
                                host: Option<string>)
    ensures var r := SetAttributes(accessKeyId, secretSigningKey, secretCryptoAccessKey, host);
            SetAttributes(r.accessKeyId, r.secretSigningKey, r.secretCryptoAccessKey, Some(r.host)) == r
  {
  }

  /** The host is the given one exactly when that already names a
      scheme. */
  lemma HostKeptIff(accessKeyId: string, secretSigningKey: string, secretCryptoAccessKey: string, h: string)
    requires h != ""
    ensures SetAttributes(accessKeyId, secretSigningKey, secretCryptoAccessKey, Some(h)).host == h <==> HasScheme(h)
  {
    var r := SetAttributes(accessKeyId, secretSigningKey, secretCryptoAccessKey, Some(h));
    if !HasScheme(h) {
      assert |r.host| == |h| + 8;
    }
  }
}
