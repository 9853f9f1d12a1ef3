/**
 * The two ignore rules of the package-integrity pipeline, both pure
 * predicates on a relative path. A hash-ignored path is never hashed at all;
 * a path that is package-hash-ignored but not hash-ignored (the signing
 * sidecar) is hashed and listed in the file manifest, but stays out of the
 * package digest.
 */
module PathFilter {
  import opened JsStrings

  /** Archive-extraction leftovers created by macOS. */
  const MacOsxDir := "__MACOSX/"
  /** Finder metadata files. */
  const DsStore := ".DS_Store"
  /** The sidecar holding the release's code-signing token, which depends on the digest itself. */
  const ReleaseMetadata := ".codepushrelease"

  /**
   * `isHashIgnored`: the empty path, anything under `__MACOSX/`, and anything
   * named or ending in `.DS_Store`. The exact-name test is subsumed by the
   * suffix test, so the result is decided by the three remaining rules.
   */
  predicate IsHashIgnored(relativePath: string): (ignored: bool)
    ensures ignored <==>
      relativePath == "" || StartsWith(relativePath, MacOsxDir) || EndsWith(relativePath, DsStore)
  {
    if relativePath == "" then true
    else
      StartsWith(relativePath, MacOsxDir) ||
      relativePath == DsStore ||
      EndsWith(relativePath, DsStore)
  }

  /**
   * `isPackageHashIgnored`: the release-metadata sidecar (by name or suffix)
   * and everything `isHashIgnored` drops.
   */
  predicate IsPackageHashIgnored(relativePath: string): (ignored: bool)
    ensures ignored <==> EndsWith(relativePath, ReleaseMetadata) || IsHashIgnored(relativePath)
    ensures IsHashIgnored(relativePath) ==> ignored
  {
    if relativePath == "" then true
    else
      relativePath == ReleaseMetadata ||
      EndsWith(relativePath, ReleaseMetadata) ||
      IsHashIgnored(relativePath)
  }

  /** The ignore rules on archive leftovers, Finder files at any depth, the signing sidecar and a bundle path. */
  lemma IgnoreRuleExamples()
    ensures IsHashIgnored("__MACOSX/foo") && IsHashIgnored(".DS_Store") && IsHashIgnored("a/b/.DS_Store")
    ensures !IsHashIgnored("notes/.codepushrelease") && IsPackageHashIgnored("notes/.codepushrelease")
    ensures !IsPackageHashIgnored("CodePush/index.android.bundle")
  {
    var notes := "notes/.codepushrelease";
    assert EndsWith(notes, ReleaseMetadata);
    assert notes[..|MacOsxDir|][0] != MacOsxDir[0];
    assert notes[|notes| - |DsStore|..][0] != DsStore[0];
    var bundle := "CodePush/index.android.bundle";
    assert bundle[..|MacOsxDir|][0] != MacOsxDir[0];
    assert bundle[|bundle| - |DsStore|..][0] != DsStore[0];
    assert bundle[|bundle| - |ReleaseMetadata|..][0] != ReleaseMetadata[0];
  }
}
