/**
 * The deterministic part of `calcAllFileSha256`: the hash-ignore filter over
 * the listed files, the empty-package error, and the loop that re-roots each
 * hashed file's relative path under `CodePush` and collects the per-file
 * hashes into the path-to-hash object.
 */
module FileHashes {
  import opened JsStrings
  import opened JsObjects
  import opened PathFilter

  /** The logical root every wrapped package is re-rooted under. */
  const RootName := "CodePush"

  predicate IsSeparator(c: char) {
    c == '/' || c == '\\'
  }

  /** The characters a regular expression's `.` does not match. */
  predicate IsLineTerminator(c: char) {
    c == '\n' || c == '\r' || c == '\U{2028}' || c == '\U{2029}'
  }

  /** Where `/(\/|\\)/` first matches: the index of the first separator, or |s| if none. */
  function FirstSeparator(s: string): (i: nat)
    ensures i <= |s|
    ensures i < |s| ==> IsSeparator(s[i])
  {
    if s == [] || IsSeparator(s[0]) then 0 else 1 + FirstSeparator(s[1..])
  }

  /** No separator comes before the one FirstSeparator finds. */
  lemma {:induction false} FirstSeparatorIsFirst(s: string)
    ensures forall j :: 0 <= j < FirstSeparator(s) ==> !IsSeparator(s[j])
    decreases |s|
  {
    if s != [] && !IsSeparator(s[0]) {
      FirstSeparatorIsFirst(s[1..]);
      forall j | 1 <= j < FirstSeparator(s) ensures !IsSeparator(s[j]) {
        assert s[j] == s[1..][j - 1];
      }
    }
  }

  /** Where `.*` stops when started at `from`: the first line terminator at or after it, or |s|. */
  function LineEnd(s: string, from: nat): (i: nat)
    requires from <= |s|
    ensures from <= i <= |s|
    ensures i < |s| ==> IsLineTerminator(s[i])
    decreases |s| - from
  {
    if from == |s| || IsLineTerminator(s[from]) then from else LineEnd(s, from + 1)
  }

  /** No line terminator lies between `from` and LineEnd. */
  lemma {:induction false} LineEndIsFirst(s: string, from: nat)
    requires from <= |s|
    ensures forall j :: from <= j < LineEnd(s, from) ==> !IsLineTerminator(s[j])
    decreases |s| - from
  {
    if from < |s| && !IsLineTerminator(s[from]) {
      LineEndIsFirst(s, from + 1);
    }
  }

  /**
   * `relativePath.match(/(\/|\\).*\/)` and, on a match,
   * `path.join('CodePush', match[0])`, the join taken as plain
   * concatenation: the part before the first separator is replaced by
   * `CodePush`, and the match stops at the first line terminator.
   */
  function Reroot(relativePath: string): (r: string)
    ensures FirstSeparator(relativePath) == |relativePath| ==> r == relativePath
    ensures FirstSeparator(relativePath) < |relativePath| ==>
      var i, n := FirstSeparator(relativePath), |r| - |RootName|;
      && StartsWith(r, RootName)
      && 0 < n && i + n <= |relativePath| && r[|RootName|..] == relativePath[i..i + n]
      && (forall j :: i <= j < i + n ==> !IsLineTerminator(relativePath[j]))
      && (i + n < |relativePath| ==> IsLineTerminator(relativePath[i + n]))
  {
    var i := FirstSeparator(relativePath);
    if i == |relativePath| then relativePath
    else
      LineEndIsFirst(relativePath, i);
      RootName + relativePath[i..LineEnd(relativePath, i)]
  }

  /** `slash(p)`: every backslash becomes a forward slash. */
  function ToSlash(p: string): (r: string)
    ensures |r| == |p| && '\\' !in r
    ensures forall j :: 0 <= j < |p| && p[j] != '\\' ==> r[j] == p[j]
    ensures forall j :: 0 <= j < |p| && p[j] == '\\' ==> r[j] == '/'
  {
    seq(|p|, j requires 0 <= j < |p| => if p[j] == '\\' then '/' else p[j])
  }

  /**
   * The key a hashed file is stored under. A path without a separator keeps
   * its name; a path with one becomes `CodePush/` followed by what comes after
   * its first separator. No key holds a backslash.
   */
  function NormalizeKey(relativePath: string): (key: string)
    ensures '\\' !in key
    ensures FirstSeparator(relativePath) == |relativePath| ==> key == relativePath
    ensures FirstSeparator(relativePath) < |relativePath| ==> StartsWith(key, RootName + "/")
  {
    var r := Reroot(relativePath);
    var key := ToSlash(r);
    if FirstSeparator(relativePath) == |relativePath| then
      FirstSeparatorIsFirst(relativePath);
      assert forall j :: 0 <= j < |r| ==> r[j] != '\\';
      assert key == r;
      key
    else
      assert key[..|RootName| + 1] == RootName + "/";
      key
  }

  /** A separated path whose tail holds no line terminator keeps all of that tail. */
  lemma RerootedKey(relativePath: string, i: nat)
    requires i < |relativePath| && IsSeparator(relativePath[i])
    requires forall j :: 0 <= j < i ==> !IsSeparator(relativePath[j])
    requires forall j :: i <= j < |relativePath| ==> !IsLineTerminator(relativePath[j])
    ensures NormalizeKey(relativePath) == RootName + "/" + ToSlash(relativePath[i + 1..])
  {
    FirstSeparatorIsFirst(relativePath);
    assert FirstSeparator(relativePath) == i;
    LineEndIsFirst(relativePath, i);
    assert LineEnd(relativePath, i) == |relativePath|;
    assert Reroot(relativePath) == RootName + relativePath[i..];
  }

  /** Two top-level folders holding the same file name land on the same key. */
  lemma KeysOfSiblingFoldersCollide()
    ensures NormalizeKey("a/x") == NormalizeKey("b/x") == "CodePush/x"
  {
    RerootedKey("a/x", 1);
    RerootedKey("b/x", 1);
    assert ToSlash("x") == "x";
  }

  /** `.` stops at a line terminator, so whatever follows one in a file name is dropped. */
  lemma KeyStopsAtLineTerminator()
    ensures NormalizeKey("d/a\nb") == "CodePush/a"
  {
    var p := "d/a\nb";
    assert FirstSeparator(p) == 1;
    LineEndIsFirst(p, 1);
    assert LineEnd(p, 1) == 3;
    assert p[1..3] == "/a";
    assert ToSlash("CodePush/a") == "CodePush/a";
  }

  /** `files.filter((file) => !isHashIgnored(relative))`, order kept. */
  function HashableFiles(files: seq<string>): (kept: seq<string>)
    ensures forall f :: f in kept <==> f in files && !IsHashIgnored(f)
  {
    if files == [] then []
    else if IsHashIgnored(files[0]) then HashableFiles(files[1..])
    else [files[0]] + HashableFiles(files[1..])
  }

  /** The assignments the `forIn` loop makes: each visited file's key and hash, in order. */
  function Assignments(keys: seq<string>, values: map<string, string>): seq<(string, string)>
    requires forall k :: k in keys ==> k in values
  {
    seq(|keys|, j requires 0 <= j < |keys| => (NormalizeKey(keys[j]), values[keys[j]]))
  }

  /** The filter keeps nothing exactly when every file is ignored. */
  lemma NothingHashable(files: seq<string>)
    ensures HashableFiles(files) == [] <==> forall f :: f in files ==> IsHashIgnored(f)
  {
    var kept := HashableFiles(files);
    if kept != [] {
      assert kept[0] in kept;
    }
  }

  lemma AssignmentAt(keys: seq<string>, values: map<string, string>, i: nat)
    requires forall k :: k in keys ==> k in values
    requires i < |keys|
    ensures Assignments(keys, values)[i] == (NormalizeKey(keys[i]), values[keys[i]])
  {
  }

  /**
   * The object `data` once the `forIn` loop has visited `keys` in order: at
   * most one entry per visited file, none under `__proto__`, and no key
   * holding a backslash.
   */
  function Collected(keys: seq<string>, values: map<string, string>): (data: JsObject)
    requires forall k :: k in keys ==> k in values
    ensures data.Valid()
    ensures |data.keys| <= |keys| && ProtoKey !in data.values
    ensures forall k :: k in data.values ==> '\\' !in k
  {
    var pairs := Assignments(keys, values);
    AssignedSize(pairs);
    forall k | k in Assigned(pairs).values ensures '\\' !in k {
      var j := AssignedEntryOf(pairs, k);
      AssignmentAt(keys, values, j);
    }
    Assigned(pairs)
  }

  /** Every visited file whose key is not `__proto__` leaves its key in the collected object. */
  lemma CollectedHasKey(keys: seq<string>, values: map<string, string>, j: nat)
    requires forall k :: k in keys ==> k in values
    requires j < |keys| && NormalizeKey(keys[j]) != ProtoKey
    ensures NormalizeKey(keys[j]) in Collected(keys, values).values
  {
    AssignedHasKey(Assignments(keys, values), j);
  }

  /** Every collected entry is the key and hash of some visited file. */
  lemma VisitedFileOf(keys: seq<string>, values: map<string, string>, k: string) returns (j: nat)
    requires forall k :: k in keys ==> k in values
    requires k in Collected(keys, values).values
    ensures j < |keys| && k == NormalizeKey(keys[j]) && k != ProtoKey
    ensures Collected(keys, values).values[k] == values[keys[j]]
  {
    j := AssignedEntryOf(Assignments(keys, values), k);
  }

  /** A file whose key no later file shares leaves its own hash under that key: the last writer wins. */
  lemma CollectedLastWins(keys: seq<string>, values: map<string, string>, j: nat)
    requires forall k :: k in keys ==> k in values
    requires j < |keys| && NormalizeKey(keys[j]) != ProtoKey
    requires forall m :: j < m < |keys| ==> NormalizeKey(keys[m]) != NormalizeKey(keys[j])
    ensures NormalizeKey(keys[j]) in Collected(keys, values).values
    ensures Collected(keys, values).values[NormalizeKey(keys[j])] == values[keys[j]]
  {
    AssignedLastWins(Assignments(keys, values), j);
  }

  /** Collecting keeps hashes free of backslashes when the per-file hashes are. */
  lemma CollectedNoBackslashes(keys: seq<string>, values: map<string, string>)
    requires forall k :: k in keys ==> k in values && '\\' !in values[k]
    ensures forall k :: k in Collected(keys, values).values ==>
      '\\' !in k && '\\' !in Collected(keys, values).values[k]
  {
    forall k | k in Collected(keys, values).values
      ensures '\\' !in k && '\\' !in Collected(keys, values).values[k]
    {
      var j := VisitedFileOf(keys, values, k);
    }
  }

  /** No two of `keys` share a normalised key. */
  predicate KeysApart(keys: seq<string>) {
    forall i, j :: 0 <= i < j < |keys| ==> NormalizeKey(keys[i]) != NormalizeKey(keys[j])
  }

  /** When no two visited files share a key, each file's hash is stored under its key (`__proto__` aside). */
  lemma CollectedWhenApart(keys: seq<string>, values: map<string, string>, j: nat)
    requires forall k :: k in keys ==> k in values
    requires KeysApart(keys) && j < |keys| && NormalizeKey(keys[j]) != ProtoKey
    ensures NormalizeKey(keys[j]) in Collected(keys, values).values
    ensures Collected(keys, values).values[NormalizeKey(keys[j])] == values[keys[j]]
  {
    CollectedLastWins(keys, values, j);
  }

  /**
   * When no two hashed files share a key, the collected map does not depend
   * on the order the per-file hashes completed in.
   */
  lemma CompletionOrderIrrelevant(r1: JsObject, r2: JsObject)
    requires r1.Valid() && r2.Valid() && r1.values == r2.values
    requires KeysApart(r1.keys) && KeysApart(r2.keys)
    ensures Collected(r1.keys, r1.values).values == Collected(r2.keys, r2.values).values
  {
    var d1, d2 := Collected(r1.keys, r1.values).values, Collected(r2.keys, r2.values).values;
    forall k | k in d1 ensures k in d2 && d1[k] == d2[k] {
      SameHashUnderKey(r1, r2, k);
    }
    forall k | k in d2 ensures k in d1 {
      SameHashUnderKey(r2, r1, k);
    }
  }

  lemma SameHashUnderKey(r1: JsObject, r2: JsObject, k: string)
    requires r1.Valid() && r2.Valid() && r1.values == r2.values
    requires KeysApart(r1.keys) && KeysApart(r2.keys)
    requires k in Collected(r1.keys, r1.values).values
    ensures k in Collected(r2.keys, r2.values).values
    ensures Collected(r1.keys, r1.values).values[k] == Collected(r2.keys, r2.values).values[k]
  {
    var j1 := VisitedFileOf(r1.keys, r1.values, k);
    var j2 := IndexOf(r2.keys, r1.keys[j1]);
    CollectedWhenApart(r1.keys, r1.values, j1);
    CollectedWhenApart(r2.keys, r2.values, j2);
  }

  lemma IndexOf(keys: seq<string>, k: string) returns (j: nat)
    requires k in keys
    ensures j < |keys| && keys[j] == k
  {
    j :| 0 <= j < |keys| && keys[j] == k;
  }

  /** Of two files that share a key, the one visited second decides the stored hash. */
  lemma SecondOfTwoWins(first: string, second: string, values: map<string, string>)
    requires first in values && second in values
    requires NormalizeKey(first) == NormalizeKey(second) != ProtoKey
    ensures NormalizeKey(first) in Collected([first, second], values).values
    ensures Collected([first, second], values).values[NormalizeKey(first)] == values[second]
  {
    var pairs := Assignments([first, second], values);
    assert pairs[1] == (NormalizeKey(second), values[second]);
    AssignedLastWins(pairs, 1);
  }

  /** When two folders collide, the file whose hash completed last decides the stored hash. */
  lemma CollidingKeysDependOnCompletionOrder(h1: string, h2: string)
    ensures "CodePush/x" in Collected(["a/x", "b/x"], map["a/x" := h1, "b/x" := h2]).values
    ensures Collected(["a/x", "b/x"], map["a/x" := h1, "b/x" := h2]).values["CodePush/x"] == h2
    ensures "CodePush/x" in Collected(["b/x", "a/x"], map["a/x" := h1, "b/x" := h2]).values
    ensures Collected(["b/x", "a/x"], map["a/x" := h1, "b/x" := h2]).values["CodePush/x"] == h1
  {
    var m := map["a/x" := h1, "b/x" := h2];
    KeysOfSiblingFoldersCollide();
    SecondOfTwoWins("a/x", "b/x", m);
    SecondOfTwoWins("b/x", "a/x", m);
  }

  /**
   * The collected keys are exactly the normalised keys of the files that
   * survived the filter, except `__proto__`.
   */
  lemma CollectedFromHashableFiles(files: seq<string>, results: JsObject)
    requires results.Valid()
    requires forall f :: f in results.values <==> f in files && !IsHashIgnored(f)
    ensures forall k :: k in Collected(results.keys, results.values).values <==>
      k != ProtoKey && exists f :: f in files && !IsHashIgnored(f) && k == NormalizeKey(f)
  {
    var data := Collected(results.keys, results.values);
    forall k ensures k in data.values <==> k != ProtoKey && exists f :: f in files && !IsHashIgnored(f) && k == NormalizeKey(f) {
      if f :| f in files && !IsHashIgnored(f) && k == NormalizeKey(f) && k != ProtoKey {
        var j := IndexOf(results.keys, f);
        CollectedHasKey(results.keys, results.values, j);
      }
      if k in data.values {
        var j := VisitedFileOf(results.keys, results.values, k);
        HashedFileOf(files, results, j);
      }
    }
  }

  lemma HashedFileOf(files: seq<string>, results: JsObject, j: nat)
    requires results.Valid() && j < |results.keys|
    requires forall f :: f in results.values <==> f in files && !IsHashIgnored(f)
    ensures results.keys[j] in files && !IsHashIgnored(results.keys[j])
  {
    assert results.keys[j] in results.values;
  }

  /**
   * `calcAllFileSha256` once the directory has been listed and the files
   * hashed. `files` are the listed files' paths relative to the package
   * directory; `results` is what `sha256AllFiles` resolves with: one hash per
   * file that survived the filter, keyed by that file, in completion order.
   * Rejects with `empty files` when no file survives; otherwise resolves with
   * one entry per normalised key other than `__proto__`, each coming from a
   * surviving file.
   */
  method CalcAllFileSha256(files: seq<string>, results: JsObject) returns (r: Result<JsObject>)
    requires results.Valid()
    requires forall f :: f in results.values <==> f in files && !IsHashIgnored(f)
    ensures r.Err? <==> forall f :: f in files ==> IsHashIgnored(f)
    ensures r.Err? ==> r.message == EmptyFiles
    ensures r.Ok? ==> r.value == Collected(results.keys, results.values)
    ensures r.Ok? ==> forall k :: k in r.value.values <==>
      k != ProtoKey && exists f :: f in files && !IsHashIgnored(f) && k == NormalizeKey(f)
  {
    var kept := HashableFiles(files);
    NothingHashable(files);
    if |kept| == 0 {
      return Err(EmptyFiles);
    }
    var data := CollectHashes(results);
    CollectedFromHashableFiles(files, results);
    r := Ok(data);
  }

  /** The `forIn` loop over the resolved hashes: `data[key] = value` under each file's normalised key. */
  method CollectHashes(results: JsObject) returns (data: JsObject)
    requires results.Valid()
    ensures data == Collected(results.keys, results.values)
  {
    ghost var assignments := Assignments(results.keys, results.values);
    data := Empty;
    for i := 0 to |results.keys|
      invariant data == Assigned(assignments[..i])
    {
      var key := results.keys[i];
      AssignedStep(assignments, i);
      AssignmentAt(results.keys, results.values, i);
      data := Put(data, NormalizeKey(key), results.values[key]);
    }
    assert assignments[..|results.keys|] == assignments;
  }
}
