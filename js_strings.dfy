/**
 * The JavaScript string operations the integrity pipeline relies on:
 * `startsWith`, `endsWith`, a regular expression that is a plain literal
 * (which `test`s for a substring), `substr`, and the relational comparison
 * `<` that both `_.sortBy` and `Array.prototype.sort` use on strings.
 */
module JsStrings {

  function Min(a: int, b: int): int { if a < b then a else b }

  function Max(a: int, b: int): int { if a < b then b else a }

  /** `s.startsWith(prefix)` */
  predicate StartsWith(s: string, prefix: string) {
    |prefix| <= |s| && s[..|prefix|] == prefix
  }

  /** `s.endsWith(suffix)` */
  predicate EndsWith(s: string, suffix: string) {
    |suffix| <= |s| && s[|s| - |suffix|..] == suffix
  }

  /** `/pattern/.test(s)` for a pattern without metacharacters: `pattern` occurs somewhere in `s`. */
  predicate Contains(s: string, pattern: string)
    decreases |s|
  {
    StartsWith(s, pattern) || (|s| > 0 && Contains(s[1..], pattern))
  }

  /** `pattern` occurs in `s` starting at offset `k`. */
  predicate OccursAt(s: string, pattern: string, k: int) {
    0 <= k <= |s| - |pattern| && s[k..k + |pattern|] == pattern
  }

  /** Contains finds exactly the occurrences at some offset of `s`. */
  lemma {:induction false} ContainsAt(s: string, pattern: string)
    ensures Contains(s, pattern) <==> exists k :: OccursAt(s, pattern, k)
    decreases |s|
  {
    if StartsWith(s, pattern) {
      assert OccursAt(s, pattern, 0);
    } else if |s| > 0 {
      ContainsAt(s[1..], pattern);
      if Contains(s[1..], pattern) {
        var k :| OccursAt(s[1..], pattern, k);
        assert s[k + 1..k + 1 + |pattern|] == s[1..][k..k + |pattern|];
        assert OccursAt(s, pattern, k + 1);
      }
      if k :| OccursAt(s, pattern, k) {
        assert k != 0;
        assert s[1..][k - 1..k - 1 + |pattern|] == s[k..k + |pattern|];
        assert OccursAt(s[1..], pattern, k - 1);
      }
    }
  }

  /**
   * `s.substr(start, length)` (ECMAScript Annex B.2.3.1): a negative start
   * counts from the end and is clamped at 0, a start past the end is clamped
   * to the length, and the length is clamped between 0 and |s|.
   */
  function Substr(s: string, start: int, length: int): (r: string)
    ensures |r| <= |s| && |r| <= Max(length, 0)
    ensures 0 <= start && 0 <= length && start + length <= |s| ==> r == s[start..start + length]
    ensures start < 0 && -start <= |s| && -start <= length ==> r == s[|s| + start..]
    ensures start >= |s| || length <= 0 ==> r == []
  {
    var from := if start < 0 then Max(|s| + start, 0) else Min(start, |s|);
    var count := Min(Max(length, 0), |s|);
    var to := Min(from + count, |s|);
    s[from..to]
  }

  /**
   * `a <= b` for JavaScript strings: the first differing character decides,
   * and a prefix is smaller than any longer string that extends it.
   */
  predicate Below(a: string, b: string)
    decreases |a|
  {
    |a| == 0 || (|b| > 0 && (a[0] < b[0] || (a[0] == b[0] && Below(a[1..], b[1..]))))
  }

  lemma {:induction false} BelowReflexive(a: string)
    ensures Below(a, a)
    decreases |a|
  {
    if |a| > 0 {
      BelowReflexive(a[1..]);
    }
  }

  lemma {:induction false} BelowAntisymmetric(a: string, b: string)
    requires Below(a, b) && Below(b, a)
    ensures a == b
    decreases |a|
  {
    if |a| > 0 {
      BelowAntisymmetric(a[1..], b[1..]);
      assert a == [a[0]] + a[1..] && b == [b[0]] + b[1..];
    }
  }

  lemma {:induction false} BelowTransitive(a: string, b: string, c: string)
    requires Below(a, b) && Below(b, c)
    ensures Below(a, c)
    decreases |a|
  {
    if |a| > 0 && a[0] == b[0] && b[0] == c[0] {
      BelowTransitive(a[1..], b[1..], c[1..]);
    }
  }

  lemma {:induction false} BelowTotal(a: string, b: string)
    ensures Below(a, b) || Below(b, a)
    decreases |a|
  {
    if |a| > 0 && |b| > 0 && a[0] == b[0] {
      BelowTotal(a[1..], b[1..]);
    }
  }
}
