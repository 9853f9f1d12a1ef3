/**
 * The pipeline end to end: the path-to-hash object that calcAllFileSha256
 * collects is the input of packageHashSync.
 */
module Integrity {
  import opened JsObjects
  import opened PathFilter
  import opened Json
  import opened Manifest
  import opened FileHashes

  /**
   * Per-file hashes that agree on every file outside key `key` yield
   * collected maps with the same keys that agree everywhere except at `key`.
   */
  lemma CollectedAgreeOffKey(keys: seq<string>, v1: map<string, string>, v2: map<string, string>, key: string)
    requires forall k :: k in keys ==> k in v1 && k in v2
    requires forall k :: k in keys && NormalizeKey(k) != key ==> v1[k] == v2[k]
    ensures Collected(keys, v1).values.Keys == Collected(keys, v2).values.Keys
    ensures forall k :: k in Collected(keys, v1).values && k != key ==>
      Collected(keys, v1).values[k] == Collected(keys, v2).values[k]
  {
    AssignedAgreeOffKey(Assignments(keys, v1), Assignments(keys, v2), key);
  }

  /**
   * The release-metadata sidecar keeps its entry in the file map, but its
   * hash has no say in the package digest: two hash runs that differ only in
   * the sidecar's hash give the same digest.
   */
  lemma ReleaseMetadataOutOfDigest(results: JsObject, file: string, hash: string, sha256: string -> string)
    requires results.Valid() && file in results.values
    requires IsPackageHashIgnored(NormalizeKey(file))
    ensures NormalizeKey(file) in Collected(results.keys, results.values).values
    ensures PackageHashSync(Collected(results.keys, results.values[file := hash]), sha256) ==
            PackageHashSync(Collected(results.keys, results.values), sha256)
  {
    SidecarStaysListed(results, file);
    SidecarOutOfHashedPart(results, file, hash);
    PackageHashDeterminedByHashedPart(
      Collected(results.keys, results.values[file := hash]), Collected(results.keys, results.values), sha256);
  }

  lemma SidecarOutOfHashedPart(results: JsObject, file: string, hash: string)
    requires results.Valid() && file in results.values
    requires IsPackageHashIgnored(NormalizeKey(file))
    ensures HashedPart(Collected(results.keys, results.values[file := hash]).values) ==
            HashedPart(Collected(results.keys, results.values).values)
  {
    var key := NormalizeKey(file);
    var d1, d2 := Collected(results.keys, results.values[file := hash]), Collected(results.keys, results.values);
    CollectedAgreeOffKey(results.keys, results.values[file := hash], results.values, key);
    HashedPartIgnoresKey(d1.values, d2.values, key);
  }

  lemma SidecarStaysListed(results: JsObject, file: string)
    requires results.Valid() && file in results.values
    requires IsPackageHashIgnored(NormalizeKey(file))
    ensures NormalizeKey(file) in Collected(results.keys, results.values).values
  {
    ProtoKeyHashed();
    var j := IndexOf(results.keys, file);
    CollectedHasKey(results.keys, results.values, j);
  }

  /** `__proto__` is not package-hash-ignored, so an ignored key is never it. */
  lemma ProtoKeyHashed()
    ensures !IsPackageHashIgnored(ProtoKey)
  {
    assert ProtoKey[..|MacOsxDir|][2] != MacOsxDir[2];
    assert ProtoKey[|ProtoKey| - |DsStore|..][0] != DsStore[0];
  }

  /**
   * When no two hashed files share a key, the package digest of the
   * collected map does not depend on the order the per-file hashes
   * completed in.
   */
  lemma DigestIndependentOfCompletionOrder(r1: JsObject, r2: JsObject, sha256: string -> string)
    requires r1.Valid() && r2.Valid() && r1.values == r2.values
    requires KeysApart(r1.keys) && KeysApart(r2.keys)
    ensures PackageHashSync(Collected(r1.keys, r1.values), sha256) ==
            PackageHashSync(Collected(r2.keys, r2.values), sha256)
  {
    CompletionOrderIrrelevant(r1, r2);
    PackageHashIgnoresOrder(Collected(r1.keys, r1.values), Collected(r2.keys, r2.values), sha256);
  }

  /**
   * With per-file hashes free of backslashes (hex digests are), no collected
   * key or hash holds a backslash followed by `/`, so the string
   * packageHashSync hashes for a collected map is exactly `JSON.stringify` of
   * its sorted manifest lines, and reads back as those lines.
   */
  lemma CollectedManifestIsJsonArray(results: JsObject)
    requires results.Valid()
    requires forall k :: k in results.values ==> '\\' !in results.values[k]
    ensures ManifestString(Collected(results.keys, results.values)) ==
            StringifyArray(ManifestLines(Collected(results.keys, results.values)))
    ensures ParseArray(ManifestString(Collected(results.keys, results.values))) ==
            Some(ManifestLines(Collected(results.keys, results.values)))
  {
    var data := Collected(results.keys, results.values);
    CollectedNoBackslashes(results.keys, results.values);
    assert NoBackslashSlashIn(HashedPart(data.values)) by {
      forall k | k in HashedPart(data.values)
        ensures NoBackslashSlash(k) && NoBackslashSlash(HashedPart(data.values)[k])
      {
        NoBackslashNoPair(k);
        NoBackslashNoPair(HashedPart(data.values)[k]);
      }
    }
    ManifestStringIsJsonArray(data);
  }

  lemma NoBackslashNoPair(s: string)
    requires '\\' !in s
    ensures NoBackslashSlash(s)
  {
    forall i | 0 <= i < |s| ensures s[i] != '\\' {
      assert s[i] in s;
    }
  }
}
