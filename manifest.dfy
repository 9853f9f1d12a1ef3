/**
 * The manifest canonicaliser and package hasher: `sortJsonToArr` turns a
 * path-to-hash object into `{path, hash}` entries ordered by path, and
 * `packageHashSync` drops the package-hash-ignored entries, renders the rest
 * as `path:hash` lines, sorts them, serialises them as a JSON array, turns
 * every `\/` back into `/`, and hashes the text with SHA-256. SHA-256 is a
 * parameter: nothing below depends on what it computes.
 */
module Manifest {
  import opened JsStrings
  import opened Sorting
  import opened JsObjects
  import opened PathFilter
  import opened Json

  /** `{ path, hash }` */
  datatype HashEntry = HashEntry(path: string, hash: string)

  /** The sort key of `_.sortBy(rs, (o) => o.path)`. */
  function PathOf(e: HashEntry): string { e.path }

  /** The sort key of `Array.prototype.sort()` on strings: the string itself. */
  function Itself(s: string): string { s }

  /** Paths strictly increase along `s`, so each path occurs once. */
  predicate StrictlyByPath(s: seq<HashEntry>) {
    forall i, j :: 0 <= i < j < |s| ==> Below(s[i].path, s[j].path) && s[i].path != s[j].path
  }

  /** `e` is the entry that `m` holds under `e.path`. */
  predicate EntryOf(e: HashEntry, m: map<string, string>) {
    e.path in m && m[e.path] == e.hash
  }

  /** The entries the `forIn` loop of sortJsonToArr pushes, in enumeration order. */
  function EntriesOf(o: JsObject): seq<HashEntry>
    requires o.Valid()
  {
    seq(|o.keys|, i requires 0 <= i < |o.keys| => HashEntry(o.keys[i], o.values[o.keys[i]]))
  }

  /**
   * `sortJsonToArr(o)` as a value: one entry per key, carrying that key's
   * value, in strictly ascending path order.
   */
  function SortedEntries(o: JsObject): (r: seq<HashEntry>)
    requires o.Valid()
    ensures StrictlyByPath(r)
    ensures forall e :: e in r <==> EntryOf(e, o.values)
    ensures |r| == |o.keys|
  {
    PushedThenSorted(o);
    SortBy(EntriesOf(o), PathOf)
  }

  lemma PushedThenSorted(o: JsObject)
    requires o.Valid()
    ensures StrictlyByPath(SortBy(EntriesOf(o), PathOf))
    ensures forall e :: e in SortBy(EntriesOf(o), PathOf) <==> EntryOf(e, o.values)
    ensures |SortBy(EntriesOf(o), PathOf)| == |o.keys|
  {
    var pushed := EntriesOf(o);
    var r := SortBy(pushed, PathOf);
    assert Distinct(pushed);
    DistinctPreserved(pushed, r);
    assert |r| == |multiset(r)| == |multiset(pushed)| == |pushed|;
    forall e ensures e in r <==> EntryOf(e, o.values) {
      calc {
        e in r;
        e in multiset(r);
        e in multiset(pushed);
        e in pushed;
      }
      if EntryOf(e, o.values) {
        var i :| 0 <= i < |o.keys| && o.keys[i] == e.path;
        assert pushed[i] == e;
      }
    }
    forall i, j | 0 <= i < j < |r| ensures Below(r[i].path, r[j].path) && r[i].path != r[j].path {
      assert Below(PathOf(r[i]), PathOf(r[j]));
      assert r[i] in r && r[j] in r;
    }
  }

  /**
   * `sortJsonToArr`: pushes one `{path, hash}` per key of `json` in
   * enumeration order, then sorts them by path. The result holds exactly
   * one entry per key, carrying that key's value, in ascending path order.
   */
  method SortJsonToArr(json: JsObject) returns (rs: seq<HashEntry>)
    requires json.Valid()
    ensures rs == SortedEntries(json)
    ensures StrictlyByPath(rs) && |rs| == |json.keys|
    ensures forall e :: e in rs <==> EntryOf(e, json.values)
  {
    var pushed: seq<HashEntry> := [];
    for i := 0 to |json.keys|
      invariant pushed == EntriesOf(json)[..i]
    {
      var key := json.keys[i];
      pushed := pushed + [HashEntry(key, json.values[key])];
    }
    assert pushed == EntriesOf(json);
    rs := SortBy(pushed, PathOf);
  }

  /** Two sequences, each strictly increasing by path, with the same elements, are equal. */
  lemma {:induction false} StrictlySortedUnique(a: seq<HashEntry>, b: seq<HashEntry>)
    requires StrictlyByPath(a) && StrictlyByPath(b)
    requires forall e :: e in a <==> e in b
    ensures a == b
    decreases |a|
  {
    if a == [] || b == [] {
      assert a == [] && b == [] by {
        NoneMissing(a, b);
      }
    } else {
      SameHead(a, b);
      TailMembers(a, b);
      TailMembers(b, a);
      StrictlySortedUnique(a[1..], b[1..]);
      assert a == [a[0]] + a[1..] && b == [b[0]] + b[1..];
    }
  }

  lemma SameHead(a: seq<HashEntry>, b: seq<HashEntry>)
    requires StrictlyByPath(a) && StrictlyByPath(b) && a != [] && b != []
    requires forall e :: e in a <==> e in b
    ensures a[0] == b[0]
  {
    assert a[0] in b && b[0] in a;
    var k :| 0 <= k < |b| && b[k] == a[0];
    var m :| 0 <= m < |a| && a[m] == b[0];
    if k != 0 && m != 0 {
      BelowAntisymmetric(a[0].path, b[0].path);
      assert false;
    }
  }

  lemma TailMembers(a: seq<HashEntry>, b: seq<HashEntry>)
    requires StrictlyByPath(a) && a != [] && b != [] && a[0] == b[0]
    requires forall e :: e in a ==> e in b
    ensures forall e :: e in a[1..] ==> e in b[1..]
  {
    forall e | e in a[1..] ensures e in b[1..] {
      var j :| 1 <= j < |a| && a[j] == e;
      assert e in b && e != b[0];
      var i :| 0 <= i < |b| && b[i] == e;
      assert i != 0;
      assert b[1..][i - 1] == e;
    }
  }

  lemma NoneMissing(a: seq<HashEntry>, b: seq<HashEntry>)
    requires forall e :: e in a <==> e in b
    ensures a == [] <==> b == []
  {
    if a != [] {
      assert a[0] in b;
    }
    if b != [] {
      assert b[0] in a;
    }
  }

  /** `_.filter(entries, (v) => !isPackageHashIgnored(v.path))` */
  function HashedOnly(s: seq<HashEntry>): (r: seq<HashEntry>)
    ensures forall e :: e in r <==> e in s && !IsPackageHashIgnored(e.path)
    ensures StrictlyByPath(s) ==> StrictlyByPath(r)
  {
    if s == [] then []
    else if IsPackageHashIgnored(s[0].path) then HashedOnly(s[1..])
    else
      var rest := HashedOnly(s[1..]);
      assert forall e :: e in rest ==> e in s[1..];
      [s[0]] + rest
  }

  /** The part of a path-to-hash map that enters the package digest. */
  function HashedPart(m: map<string, string>): map<string, string> {
    map k | k in m && !IsPackageHashIgnored(k) :: m[k]
  }

  /** Maps that differ at most under one package-hash-ignored key have the same hashed part. */
  lemma HashedPartIgnoresKey(m1: map<string, string>, m2: map<string, string>, key: string)
    requires m1.Keys == m2.Keys && IsPackageHashIgnored(key)
    requires forall k :: k in m1 && k != key ==> m1[k] == m2[k]
    ensures HashedPart(m1) == HashedPart(m2)
  {
  }

  /**
   * The entries that survive the filter of packageHashSync: still in path
   * order, and exactly the entries of the map's package-hashed part.
   */
  function HashedEntries(o: JsObject): (r: seq<HashEntry>)
    requires o.Valid()
    ensures StrictlyByPath(r)
    ensures forall e :: e in r <==> EntryOf(e, HashedPart(o.values))
  {
    HashedOnly(SortedEntries(o))
  }

  /** `v.path + ':' + v.hash` */
  function Line(e: HashEntry): string {
    e.path + ":" + e.hash
  }

  function LinesOf(s: seq<HashEntry>): seq<string> {
    seq(|s|, i requires 0 <= i < |s| => Line(s[i]))
  }

  /** `manifestData.sort()`: the manifest lines in ascending order. */
  function ManifestLines(o: JsObject): seq<string>
    requires o.Valid()
  {
    SortBy(LinesOf(HashedEntries(o)), Itself)
  }

  /** `_.replace(s, /\\\//g, '/')`: every `\/`, scanning left to right, becomes `/`. */
  function ReplaceEscapedSlashes(s: string): (r: string)
    ensures |r| <= |s|
    decreases |s|
  {
    if |s| < 2 then s
    else if s[0] == '\\' && s[1] == '/' then "/" + ReplaceEscapedSlashes(s[2..])
    else [s[0]] + ReplaceEscapedSlashes(s[1..])
  }

  /** The rewrite changes the text exactly when it holds a backslash immediately followed by `/`. */
  lemma {:induction false} ReplaceEscapedSlashesUnchanged(s: string)
    ensures ReplaceEscapedSlashes(s) == s <==> NoBackslashSlash(s)
    decreases |s|
  {
    if |s| < 2 {
    } else if s[0] == '\\' && s[1] == '/' {
      assert |ReplaceEscapedSlashes(s)| < |s|;
      assert !NoBackslashSlash(s) by {
        assert 0 < |s| - 1 && s[0] == '\\' && s[1] == '/';
      }
    } else {
      ReplaceEscapedSlashesUnchanged(s[1..]);
      NoBackslashSlashConcat([s[0]], s[1..]);
      assert [s[0]] + s[1..] == s;
    }
  }

  /**
   * The manifest string packageHashSync hashes. It is `JSON.stringify` of the
   * sorted lines exactly when no line holds a backslash followed by `/`.
   */
  function ManifestString(o: JsObject): (text: string)
    requires o.Valid()
    ensures text == StringifyArray(ManifestLines(o)) <==>
      forall k :: 0 <= k < |ManifestLines(o)| ==> NoBackslashSlash(ManifestLines(o)[k])
  {
    ReplaceEscapedSlashesUnchanged(StringifyArray(ManifestLines(o)));
    ReplaceEscapedSlashes(StringifyArray(ManifestLines(o)))
  }

  /**
   * `packageHashSync(o)`, with `sha256` standing for `stringSha256Sync`:
   * when no line holds a backslash followed by `/`, the digest is that of
   * `JSON.stringify` of the sorted lines.
   */
  function PackageHashSync(o: JsObject, sha256: string -> string): (digest: string)
    requires o.Valid()
    ensures (forall k :: 0 <= k < |ManifestLines(o)| ==> NoBackslashSlash(ManifestLines(o)[k])) ==>
      digest == sha256(StringifyArray(ManifestLines(o)))
  {
    sha256(ManifestString(o))
  }

  /**
   * The manifest lines are in ascending order and are exactly the lines
   * `path:hash` of the package-hashed entries, one per path.
   */
  lemma ManifestLinesSpec(o: JsObject)
    requires o.Valid()
    ensures SortedBy(ManifestLines(o), Itself)
    ensures multiset(ManifestLines(o)) == multiset(LinesOf(HashedEntries(o)))
    ensures StrictlyByPath(HashedEntries(o))
    ensures forall x :: x in ManifestLines(o) <==>
      exists e :: EntryOf(e, HashedPart(o.values)) && x == Line(e)
  {
    var lines := LinesOf(HashedEntries(o));
    forall x ensures x in ManifestLines(o) <==> exists e :: EntryOf(e, HashedPart(o.values)) && x == Line(e) {
      SameMembers(ManifestLines(o), lines, x);
      LinesOfMembers(HashedEntries(o), HashedPart(o.values), x);
    }
  }

  lemma SameMembers<T>(a: seq<T>, b: seq<T>, x: T)
    requires multiset(a) == multiset(b)
    ensures x in a <==> x in b
  {
    assert x in a <==> x in multiset(a);
    assert x in b <==> x in multiset(b);
  }

  /** The lines of entries that are exactly the entries of `m` are exactly the lines of `m`. */
  lemma LinesOfMembers(entries: seq<HashEntry>, m: map<string, string>, x: string)
    requires forall e :: e in entries <==> EntryOf(e, m)
    ensures x in LinesOf(entries) <==> exists e :: EntryOf(e, m) && x == Line(e)
  {
    var lines := LinesOf(entries);
    if x in lines {
      var i :| 0 <= i < |lines| && lines[i] == x;
      assert entries[i] in entries;
    }
    if e :| EntryOf(e, m) && x == Line(e) {
      var i :| 0 <= i < |entries| && entries[i] == e;
      assert lines[i] == x;
    }
  }

  /** The package digest depends on nothing but the package-hashed part of the map. */
  lemma ManifestDeterminedByHashedPart(o1: JsObject, o2: JsObject)
    requires o1.Valid() && o2.Valid()
    requires HashedPart(o1.values) == HashedPart(o2.values)
    ensures HashedEntries(o1) == HashedEntries(o2)
    ensures ManifestString(o1) == ManifestString(o2)
  {
    StrictlySortedUnique(HashedEntries(o1), HashedEntries(o2));
  }

  lemma PackageHashDeterminedByHashedPart(o1: JsObject, o2: JsObject, sha256: string -> string)
    requires o1.Valid() && o2.Valid()
    requires HashedPart(o1.values) == HashedPart(o2.values)
    ensures PackageHashSync(o1, sha256) == PackageHashSync(o2, sha256)
  {
    ManifestDeterminedByHashedPart(o1, o2);
  }

  /** The order in which keys were inserted into the object does not matter. */
  lemma PackageHashIgnoresOrder(o1: JsObject, o2: JsObject, sha256: string -> string)
    requires o1.Valid() && o2.Valid()
    requires o1.values == o2.values
    ensures PackageHashSync(o1, sha256) == PackageHashSync(o2, sha256)
  {
    ManifestDeterminedByHashedPart(o1, o2);
  }

  /**
   * Adding an ignored entry such as `.codepushrelease`, or changing its
   * hash, leaves the digest as it was.
   */
  lemma PackageHashIgnoresIgnoredEntry(o: JsObject, path: string, hash: string, sha256: string -> string)
    requires o.Valid()
    requires IsPackageHashIgnored(path)
    ensures PackageHashSync(Put(o, path, hash), sha256) == PackageHashSync(o, sha256)
  {
    var o' := Put(o, path, hash);
    assert HashedPart(o'.values) == HashedPart(o.values);
    ManifestDeterminedByHashedPart(o', o);
  }

  /** No path or hash of `m` holds a backslash immediately followed by `/`. */
  predicate NoBackslashSlashIn(m: map<string, string>) {
    forall k :: k in m ==> NoBackslashSlash(k) && NoBackslashSlash(m[k])
  }

  lemma LineNoBackslashSlash(e: HashEntry)
    ensures NoBackslashSlash(Line(e)) <==> NoBackslashSlash(e.path) && NoBackslashSlash(e.hash)
  {
    NoBackslashSlashConcat(e.path, ":");
    NoBackslashSlashConcat(e.path + ":", e.hash);
  }

  /**
   * The `\/` rewrite leaves the serialised manifest alone exactly when no
   * package-hashed path or hash holds a backslash followed by `/`; the
   * manifest string is then `JSON.stringify` of the sorted lines and reads
   * back as them.
   */
  lemma ManifestStringIsJsonArray(o: JsObject)
    requires o.Valid()
    ensures ManifestString(o) == StringifyArray(ManifestLines(o)) <==> NoBackslashSlashIn(HashedPart(o.values))
    ensures NoBackslashSlashIn(HashedPart(o.values)) ==> ParseArray(ManifestString(o)) == Some(ManifestLines(o))
  {
    ManifestLinesSpec(o);
    var lines := ManifestLines(o);
    var m := HashedPart(o.values);
    var clean := forall k :: 0 <= k < |lines| ==> NoBackslashSlash(lines[k]);
    if NoBackslashSlashIn(m) {
      LinesClean(lines, m);
    }
    if clean {
      LinesCleanMapClean(lines, m);
    }
    assert ManifestString(o) == StringifyArray(lines) <==> clean;
    assert clean ==> ManifestString(o) == StringifyArray(lines);
    assert ParseArray(StringifyArray(lines)) == Some(lines);
  }

  /** Lines built from a map with no backslash-slash pair carry none. */
  lemma LinesClean(lines: seq<string>, m: map<string, string>)
    requires forall x :: x in lines <==> exists e :: EntryOf(e, m) && x == Line(e)
    requires NoBackslashSlashIn(m)
    ensures forall k :: 0 <= k < |lines| ==> NoBackslashSlash(lines[k])
  {
    forall k | 0 <= k < |lines| ensures NoBackslashSlash(lines[k]) {
      assert lines[k] in lines;
      var e :| EntryOf(e, m) && lines[k] == Line(e);
      LineNoBackslashSlash(e);
    }
  }

  /** Conversely, clean lines come only from a clean map. */
  lemma LinesCleanMapClean(lines: seq<string>, m: map<string, string>)
    requires forall x :: x in lines <==> exists e :: EntryOf(e, m) && x == Line(e)
    requires forall k :: 0 <= k < |lines| ==> NoBackslashSlash(lines[k])
    ensures NoBackslashSlashIn(m)
  {
    forall p | p in m ensures NoBackslashSlash(p) && NoBackslashSlash(m[p]) {
      var e := HashEntry(p, m[p]);
      assert EntryOf(e, m);
      assert Line(e) in lines;
      var k :| 0 <= k < |lines| && lines[k] == Line(e);
      LineNoBackslashSlash(e);
    }
  }

  /**
   * The rewrite does change the text when a path holds a backslash
   * followed by `/`: JSON.stringify writes that backslash as `\\`, the
   * rewrite turns `\\/` into `\/`, and the text then reads back as `/`.
   */
  lemma SlashRewriteAltersBackslashSlash()
    ensures ParseArray(ReplaceEscapedSlashes(StringifyArray(["\\/"]))) == Some(["/"])
  {
    RewrittenBackslashSlash();
    EscapedSlashParses();
  }

  lemma RewrittenBackslashSlash()
    ensures ReplaceEscapedSlashes(StringifyArray(["\\/"])) == "[\"\\/\"]"
  {
    StringifiedBackslashSlash();
    assert ReplaceEscapedSlashes("[\"\\\\/\"]") == "[\"\\/\"]";
  }

  lemma StringifiedBackslashSlash()
    ensures StringifyArray(["\\/"]) == "[\"\\\\/\"]"
  {
    assert Escape("\\/") == "\\\\/" by {
      assert EscapeChar('\\') == "\\\\" && EscapeChar('/') == "/";
      assert "\\/"[1..] == "/" && Escape("/") == "/";
    }
    assert JoinElements(["\\/"]) == "\"\\\\/\"";
  }

  lemma EscapedSlashParses()
    ensures ParseArray("[\"\\/\"]") == Some(["/"])
  {
    var body := "\\/\"]";
    assert body[1..] == "/\"]" && body[1..][0] == '/';
    assert ParseEscape(body[1..]) == Some(('/', "\"]"));
    assert ParseStringBody("\"]") == Some(("", "]"));
    assert body[0] == '\\' && body[1..][1..] == "\"]";
    assert ParseStringBody(body) == Prepend('/', Some(("", "]")));
    assert ['/'] + "" == "/";
    assert ParseElements("\"\\/\"]") == Some(["/"]);
  }
}
