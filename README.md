# CodePush server: package integrity helpers, modelled in Dafny

This project models the deterministic core of the CodePush server's
`security` helpers (`src/core/utils/security.js`). The server uses them to
fingerprint an uploaded release package and to classify it:

- **Ignore rules.** `isHashIgnored` drops macOS archive leftovers
  (`__MACOSX/`, `.DS_Store`) and the empty path from hashing.
  `isPackageHashIgnored` also keeps the code-signing sidecar
  `.codepushrelease` out of the package digest. The sidecar still stays in
  the file manifest.
- **File map.** `calcAllFileSha256` lists a package directory and drops the
  hash-ignored files, rejecting with `empty files` when nothing is left. It
  then hashes each file and collects a path-to-hash object. Each path is
  re-rooted: everything before its first `/` or `\` becomes `CodePush`, and
  backslashes become forward slashes.
- **Package digest.** `sortJsonToArr` turns that object into `{path, hash}`
  entries sorted by path. `packageHashSync` filters out the
  package-hash-ignored entries and renders the rest as sorted `path:hash`
  lines. It serialises those lines with `JSON.stringify`, rewrites every
  `\/` to `/`, and hashes the text with SHA-256.
- **Platform detection.** `uploadPackageType` scans the listed files in
  order. The first file whose path contains `android.bundle` or
  `main.jsbundle` decides between Android and iOS.
- **Tokens.** `parseToken` splits an access token into its 28-character
  prefix and its 9-character trailing fingerprint.

The JavaScript semantics these rely on are written out in their own
modules:

- `JsStrings`: `startsWith`, `endsWith`, literal regular-expression tests,
  `substr` clamping, and string `<`.
- `Sorting`: `_.sortBy` and `Array.prototype.sort` as one sort by key.
- `JsObjects`: plain objects with their enumeration order, and `o[k] = v`.
- `Json`: `JSON.stringify` of a string array, with a reader that inverts it.

SHA-256 is a function parameter `sha256`, so every digest property holds for
any hash function. The per-file hashing is concurrent in the source. Its
resolved object is an input `results`, whose key order (completion order)
is arbitrary.

Properties proved include:

- The digest depends only on the package-hashed part of the file map.
  Insertion order does not matter, and neither do ignored entries such as
  the signing sidecar.
- The `\/` rewrite leaves the serialised manifest unchanged exactly when no
  hashed path or hash holds a backslash immediately followed by `/`. The
  manifest then reads back as exactly its sorted lines; SHA-256 hex digests
  and the re-rooted keys hold no backslash at all.
- `sortJsonToArr` yields one entry per key, strictly ascending by path.
- When two hashed files share a re-rooted key, the stored hash depends on
  which hash completed last. When no two keys collide, completion order does
  not affect the digest.
- Platform detection returns the first match, and the empty listing is
  rejected.
- A file whose re-rooted key is `__proto__` is dropped from the file map,
  because assigning that key on a plain object calls the inherited setter.

## Model

| member | source | states |
|---|---|---|
| PathFilter.IsHashIgnored | src/core/utils/security.js:150-163 | a path is ignored exactly when it is empty, starts with `__MACOSX/` or ends with `.DS_Store` (the exact-name test adds no case) |
| PathFilter.IsPackageHashIgnored | src/core/utils/security.js:165-178 | a path is package-hash-ignored exactly when it ends with `.codepushrelease` or is hash-ignored; every hash-ignored path is package-hash-ignored |
| PathFilter.IgnoreRuleExamples | src/core/utils/security.js:148-178 | `__MACOSX/` content and `.DS_Store` at any depth are ignored; a nested `.codepushrelease` is hashed but kept out of the digest; a bundle path passes both filters |
| Tokens.ParseToken | src/core/utils/security.js:38-40 | `identical` is the suffix of length min(9, n) and `token` the prefix of length min(28, n) of an n-character token |
| Tokens.ParseTokenRoundTrip | src/core/utils/security.js:38-40 | a 37-character token is exactly its 28-character `token` followed by its 9-character `identical` |
| Tokens.ParseTokenShapes | src/core/utils/security.js:38-40 | a longer token loses its middle characters; a shorter non-empty one yields overlapping parts |
| JsStrings.ContainsAt | src/core/utils/security.js:127-135 | a literal pattern's `test` succeeds exactly when the pattern occurs at some offset of the string |
| JsStrings.BelowTotal | src/core/utils/security.js:225 | any two strings are comparable under JavaScript string order |
| JsStrings.BelowTransitive | src/core/utils/security.js:225 | JavaScript string order is transitive |
| JsStrings.BelowAntisymmetric | src/core/utils/security.js:225 | two strings each below the other are equal |
| Sorting.SortBy | src/core/utils/security.js:225 | the result is ordered by the key and is a permutation of the input |
| JsStrings.Substr | src/core/utils/security.js:39 | the result is never longer than the string or the requested length; an in-range start and length select exactly that slice; a negative start at most the string's length, with a length covering it, selects the suffix of that length; a start at or past the end, or a non-positive length, gives the empty string |
| JsObjects.Put | src/core/utils/security.js:209 | `o[k] = v` stores `v` under `k`, keeps the other values, appends a new key to the enumeration order and leaves an existing key in place; with `k` = `__proto__` the object is unchanged |
| JsObjects.AssignedSize | src/core/utils/security.js:202-210 | a run of assignments never stores `__proto__` and adds at most one key per assignment |
| JsObjects.AssignedLastWins | src/core/utils/security.js:202-210 | after a run of assignments, a key other than `__proto__` holds the value of its last assignment |
| JsObjects.AssignedAgreeOffKey | src/core/utils/security.js:202-210 | two runs assigning the same keys, whose values differ only under one key, end with the same keys and agree everywhere else |
| Manifest.SortJsonToArr | src/core/utils/security.js:220-226 | the entries are exactly the object's key/value pairs, one per key, in strictly ascending path order |
| Manifest.SortedEntries | src/core/utils/security.js:220-226 | the sorted entries are strictly ascending by path, hold exactly the object's entries and number as many as its keys |
| Manifest.StrictlySortedUnique | src/core/utils/security.js:225 | two strictly path-ordered entry lists with the same members are equal, so the sorted order is canonical |
| Manifest.HashedOnly | src/core/utils/security.js:64-66 | the filter keeps exactly the entries whose path is not package-hash-ignored and keeps them in path order |
| Manifest.HashedPartIgnoresKey | src/core/utils/security.js:64-66 | maps differing only under a package-hash-ignored key have the same hashed part |
| Manifest.HashedEntries | src/core/utils/security.js:63-66 | the filtered entries are path-ordered and are exactly the entries of the map's package-hashed part |
| Manifest.ManifestLinesSpec | src/core/utils/security.js:63-70 | the manifest lines are sorted, are a permutation of the `path:hash` lines of the hashed entries, and are exactly the lines of the package-hashed entries |
| Manifest.ManifestDeterminedByHashedPart | src/core/utils/security.js:62-71 | objects with the same package-hashed part produce the same entries and the same manifest string |
| Manifest.PackageHashDeterminedByHashedPart | src/core/utils/security.js:62-74 | objects with the same package-hashed part get the same digest |
| Manifest.PackageHashIgnoresOrder | src/core/utils/security.js:62-74 | objects with the same key/value pairs get the same digest whatever their insertion order |
| Manifest.PackageHashIgnoresIgnoredEntry | src/core/utils/security.js:62-74 | adding or changing a package-hash-ignored entry leaves the digest unchanged |
| Manifest.ReplaceEscapedSlashes | src/core/utils/security.js:71 | the rewrite never lengthens the text |
| Manifest.ReplaceEscapedSlashesUnchanged | src/core/utils/security.js:71 | the rewrite leaves the text unchanged exactly when no backslash in it is immediately followed by `/` |
| Manifest.ManifestString | src/core/utils/security.js:70-71 | the hashed text is `JSON.stringify` of the sorted lines exactly when no line holds a backslash immediately followed by `/` |
| Manifest.PackageHashSync | src/core/utils/security.js:62-74 | when no manifest line holds a backslash immediately followed by `/`, the digest is the hash of `JSON.stringify` of the sorted lines |
| Manifest.LineNoBackslashSlash | src/core/utils/security.js:67-68 | a `path:hash` line holds a backslash followed by `/` exactly when its path or its hash does |
| Manifest.ManifestStringIsJsonArray | src/core/utils/security.js:70-71 | the hashed text is `JSON.stringify` of the sorted lines exactly when no hashed path or hash holds a backslash immediately followed by `/`, and it then reads back as those lines |
| Manifest.SlashRewriteAltersBackslashSlash | src/core/utils/security.js:70-71 | an example of the failing direction: for the one-line manifest whose line is the two characters backslash and slash (`["\\/"]` in JavaScript notation), the rewritten text reads back as the one-character line `/`, not as the original line |
| Json.StringifyArray | src/core/utils/security.js:70 | reading back `JSON.stringify` of a string array yields the array; the text holds a backslash immediately followed by `/` exactly when some element does |
| FileHashes.Reroot | src/core/utils/security.js:204-206 | a path without a separator is unchanged; otherwise the result is `CodePush` followed by the longest stretch of the path that starts at its first separator and holds no line terminator |
| FileHashes.ToSlash | src/core/utils/security.js:208 | same length, no backslash left: each backslash becomes `/` and every other character is kept |
| FileHashes.NormalizeKey | src/core/utils/security.js:203-208 | a key never holds a backslash; a path without a separator is its own key; a path with one gets a key under `CodePush/` |
| FileHashes.RerootedKey | src/core/utils/security.js:203-208 | a path whose tail after the first separator has no line terminator gets the key `CodePush/` followed by that tail with backslashes turned into `/` |
| FileHashes.KeysOfSiblingFoldersCollide | src/core/utils/security.js:203-208 | `a/x` and `b/x` both get the key `CodePush/x` |
| FileHashes.KeyStopsAtLineTerminator | src/core/utils/security.js:204-206 | the regular expression's `.` stops at a newline, so `d/a` followed by a newline and `b` gets the key `CodePush/a` |
| FileHashes.HashableFiles | src/core/utils/security.js:191-194 | the filter keeps exactly the listed files that are not hash-ignored |
| FileHashes.NothingHashable | src/core/utils/security.js:191-196 | the filter keeps nothing exactly when every listed file is hash-ignored |
| FileHashes.Collected | src/core/utils/security.js:200-210 | the collected object has at most one key per resolved hash, no key `__proto__` and no key holding a backslash |
| FileHashes.CollectedHasKey | src/core/utils/security.js:202-210 | every hashed file's key other than `__proto__` is in the collected object |
| FileHashes.VisitedFileOf | src/core/utils/security.js:202-210 | every collected entry is the key and hash of some hashed file |
| FileHashes.CollectedLastWins | src/core/utils/security.js:202-210 | a file whose key no later file shares leaves its own hash under that key |
| FileHashes.CollectedNoBackslashes | src/core/utils/security.js:202-210 | when no per-file hash holds a backslash, no collected key or hash does |
| FileHashes.SecondOfTwoWins | src/core/utils/security.js:202-210 | of two files sharing a key, the one whose hash completed second decides the stored hash |
| FileHashes.CollidingKeysDependOnCompletionOrder | src/core/utils/security.js:97-112 | for `a/x` and `b/x`, the stored hash under `CodePush/x` is that of whichever file's hash completed last |
| FileHashes.CompletionOrderIrrelevant | src/core/utils/security.js:200-210 | when no two hashed files share a key, the collected map is the same for every completion order |
| FileHashes.CollectedFromHashableFiles | src/core/utils/security.js:191-210 | the collected keys are exactly the keys, other than `__proto__`, of the listed files that are not hash-ignored |
| FileHashes.CalcAllFileSha256 | src/core/utils/security.js:189-214 | rejects with `empty files` exactly when every listed file is hash-ignored; otherwise resolves with the collected object, whose keys are exactly those, other than `__proto__`, of the files not ignored |
| FileHashes.CollectHashes | src/core/utils/security.js:200-210 | the loop builds exactly the object of assigning each resolved hash under its file's key, in completion order |
| Classifier.Classify | src/core/utils/security.js:127-139 | the type stays `0` exactly when no file contains either pattern |
| Classifier.ClassifyFirstMatch | src/core/utils/security.js:127-139 | the type is Android exactly when the first matching file contains `android.bundle`, and iOS exactly when it contains only `main.jsbundle` |
| Classifier.UploadPackageType | src/core/utils/security.js:121-142 | an empty listing is rejected with `empty files`; otherwise the scan resolves with the first-match classification |
| Integrity.CollectedAgreeOffKey | src/core/utils/security.js:200-210 | hash runs differing only for files under one key collect maps that differ only under that key |
| Integrity.ReleaseMetadataOutOfDigest | src/core/utils/security.js:170-177 | the sidecar's key is in the collected map, but changing the sidecar's hash leaves the package digest unchanged |
| Integrity.DigestIndependentOfCompletionOrder | src/core/utils/security.js:97-112 | when no two hashed files share a key, the package digest of the collected map does not depend on completion order |
| Integrity.CollectedManifestIsJsonArray | src/core/utils/security.js:70-71 | with backslash-free per-file hashes, the hashed text of a collected map is `JSON.stringify` of its sorted lines and reads back as them |
| Integrity.ProtoKeyHashed | src/core/utils/security.js:165-178 | `__proto__` is not package-hash-ignored |

## Left out

- `md5`, `passwordHashSync`, `passwordVerifySync` and `randToken` wrap cryptographic libraries and have no logic of their own.
- `qetag` checks that a path argument is readable, rejecting with `AppError` otherwise, then defers to the `../utils/qetag` module, which is not part of this model; both are I/O.
- `stringSha256Sync` becomes the parameter `sha256`; the digests `fileSha256` computes arrive as the values of `results`. No property of the hash itself is assumed, so the converse of the digest lemmas ("different manifests give different digests") is not stated. It would need collision resistance.
- `sha256AllFiles` is concurrent. Its resolved object is the input `results` of `CalcAllFileSha256`, with keys in an arbitrary completion order. The `count == length` bookkeeping is not modelled, and neither is a failing `fileSha256`, which leaves the promise pending forever.
- The `recursive-readdir` listing and its error rejection are I/O. The listing is the `files` input.
- `path.relative` is not modelled. Files are given already relative to the package directory, and `results` is keyed by those relative paths.
- FileHashes.Reroot: `path.join` is taken as plain concatenation. The model does not collapse repeated separators or resolve `.` and `..` segments. On POSIX, a match starting with a backslash would also get an extra `/` after `CodePush`, which the model does not add.
- FileHashes.NormalizeKey: inherits the `path.join` simplification of `FileHashes.Reroot` described on the line above.
- FileHashes.ToSlash: the `slash` package leaves extended-length Windows paths and paths with non-ASCII characters unchanged. The model always converts backslashes.
- The numeric values of `constName.ANDROID` and `constName.IOS` live in a module that is not part of this model. They become the enumeration `Classifier.PackageType`, with `Unknown` for the initial `0`.
- Logging calls are left out.
- Characters are Unicode scalar values, while JavaScript counts and compares UTF-16 code units. `substr` counts, string order and lone surrogates can therefore differ for text outside the Basic Multilingual Plane.
- JavaScript enumerates integer-like object keys first, in numeric order. `JsObject` keeps plain insertion order for every key. Only the pre-sort push order of `sortJsonToArr` and the key order of the collected object depend on this.
- JsStrings.Substr: its contract covers the in-range slice, the in-range negative start, the empty cases and the length bound. A negative start with a shorter length, or a range running past the end, is stated only through the function body and `Tokens.ParseToken`.
- The stability of `_.sortBy` is not stated. The keys it sorts are distinct paths, so stability cannot change the result.
