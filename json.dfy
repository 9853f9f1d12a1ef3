/**
 * `JSON.stringify` on an array of strings, as ECMAScript specifies it
 * (SerializeJSONArray without indentation, QuoteJSONString for each element,
 * the string escaping of section 7 of RFC 8259), together with a strict
 * reader of that canonical form, which serves as its inverse.
 */
module Json {

  datatype Option<T> = None | Some(value: T)

  const Backspace: char := 8 as char
  const FormFeed: char := 12 as char

  function HexDigit(n: nat): char
    requires n < 16
  {
    "0123456789abcdef"[n]
  }

  /** QuoteJSONString on one character: short escapes, `\u00xx` for other controls, else the character. */
  function EscapeChar(c: char): string {
    if c == Backspace then "\\b"
    else if c == '\t' then "\\t"
    else if c == '\n' then "\\n"
    else if c == FormFeed then "\\f"
    else if c == '\r' then "\\r"
    else if c == '"' then "\\\""
    else if c == '\\' then "\\\\"
    else if c < ' ' then "\\u00" + [HexDigit(c as int / 16), HexDigit(c as int % 16)]
    else [c]
  }

  function Escape(s: string): string {
    if s == [] then "" else EscapeChar(s[0]) + Escape(s[1..])
  }

  /** QuoteJSONString */
  function Quote(s: string): string {
    "\"" + Escape(s) + "\""
  }

  function JoinElements(xs: seq<string>): string {
    if xs == [] then ""
    else if |xs| == 1 then Quote(xs[0])
    else Quote(xs[0]) + "," + JoinElements(xs[1..])
  }

  /**
   * `JSON.stringify(xs)` for an array of strings. The text reads back as
   * `xs`, and a backslash in it is immediately followed by `/` exactly when
   * one in some element is.
   */
  function StringifyArray(xs: seq<string>): (text: string)
    ensures ParseArray(text) == Some(xs)
    ensures NoBackslashSlash(text) <==> forall k :: 0 <= k < |xs| ==> NoBackslashSlash(xs[k])
  {
    ArrayParses(xs);
    JoinNoBackslashSlash(xs);
    NoBackslashSlashConcat("[", JoinElements(xs));
    NoBackslashSlashConcat("[" + JoinElements(xs), "]");
    "[" + JoinElements(xs) + "]"
  }

  // ---------------------------------------------------------------------
  // Reading the canonical form back

  function HexValue(c: char): Option<nat> {
    if '0' <= c <= '9' then Some(c as int - '0' as int)
    else if 'a' <= c <= 'f' then Some(c as int - 'a' as int + 10)
    else if 'A' <= c <= 'F' then Some(c as int - 'A' as int + 10)
    else None
  }

  function Hex4(s: string): Option<nat>
    requires |s| == 4
  {
    match (HexValue(s[0]), HexValue(s[1]), HexValue(s[2]), HexValue(s[3]))
    case (Some(a), Some(b), Some(c), Some(d)) => Some(((a * 16 + b) * 16 + c) * 16 + d)
    case _ => None
  }

  /** Reads the escape sequence after a backslash: the character it stands for and what follows it. */
  function ParseEscape(s: string): (r: Option<(char, string)>)
    ensures r.Some? ==> |r.value.1| < |s|
  {
    if s == [] then None
    else if s[0] == '"' then Some(('"', s[1..]))
    else if s[0] == '\\' then Some(('\\', s[1..]))
    else if s[0] == '/' then Some(('/', s[1..]))
    else if s[0] == 'b' then Some((Backspace, s[1..]))
    else if s[0] == 'f' then Some((FormFeed, s[1..]))
    else if s[0] == 'n' then Some(('\n', s[1..]))
    else if s[0] == 'r' then Some(('\r', s[1..]))
    else if s[0] == 't' then Some(('\t', s[1..]))
    else if s[0] == 'u' && |s| >= 5 then
      match Hex4(s[1..5])
      case Some(v) =>
        if v < 0xD800 || 0xE000 <= v then Some((v as char, s[5..])) else None
      case None => None
    else None
  }

  function Prepend(c: char, r: Option<(string, string)>): Option<(string, string)> {
    match r
    case None => None
    case Some((body, rest)) => Some(([c] + body, rest))
  }

  /** Reads a string's contents after its opening quote: the decoded text and what follows the closing quote. */
  function ParseStringBody(s: string): (r: Option<(string, string)>)
    ensures r.Some? ==> |r.value.1| < |s|
    decreases |s|
  {
    if s == [] then None
    else if s[0] == '"' then Some(("", s[1..]))
    else if s[0] == '\\' then
      match ParseEscape(s[1..])
      case None => None
      case Some((c, rest)) => Prepend(c, ParseStringBody(rest))
    else if s[0] < ' ' then None
    else Prepend(s[0], ParseStringBody(s[1..]))
  }

  /** Reads `"…","…",…,"…"]`, the elements of a non-empty array after its `[`. */
  function ParseElements(s: string): Option<seq<string>>
    decreases |s|
  {
    if s == [] || s[0] != '"' then None
    else
      match ParseStringBody(s[1..])
      case None => None
      case Some((x, rest)) =>
        if rest == "]" then Some([x])
        else if rest != [] && rest[0] == ',' then
          match ParseElements(rest[1..])
          case None => None
          case Some(xs) => Some([x] + xs)
        else None
  }

  /** Reads an array of strings written without whitespace. */
  function ParseArray(s: string): Option<seq<string>> {
    if s == "[]" then Some([])
    else if s != [] && s[0] == '[' then ParseElements(s[1..])
    else None
  }

  lemma HexDigitValue(n: nat)
    requires n < 16
    ensures HexValue(HexDigit(n)) == Some(n)
  {
  }

  lemma EscapeCharParses(c: char, t: string)
    ensures ParseStringBody(EscapeChar(c) + t) == Prepend(c, ParseStringBody(t))
  {
    var s := EscapeChar(c) + t;
    if c == '"' || c == '\\' || c == Backspace || c == FormFeed || c == '\n' || c == '\r' || c == '\t' {
      assert s[1..][1..] == t;
    } else if c < ' ' {
      ControlEscapeParses(c, t);
    } else {
      assert s[0] == c && s[1..] == t;
    }
  }

  /** A control character without a short escape reads back from its `\u00xx` form. */
  lemma ControlEscapeParses(c: char, t: string)
    requires c < ' ' && c != Backspace && c != FormFeed && c != '\n' && c != '\r' && c != '\t'
    ensures ParseEscape((EscapeChar(c) + t)[1..]) == Some((c, t))
  {
    var n := c as int;
    HexDigitValue(n / 16);
    HexDigitValue(n % 16);
    var e := (EscapeChar(c) + t)[1..];
    assert e == "u00" + [HexDigit(n / 16), HexDigit(n % 16)] + t;
    assert e[1..5] == "00" + [HexDigit(n / 16), HexDigit(n % 16)];
    assert Hex4(e[1..5]) == Some(n);
    assert e[5..] == t;
  }

  lemma {:induction false} EscapeParses(x: string, t: string)
    ensures ParseStringBody(Escape(x) + "\"" + t) == Some((x, t))
    decreases |x|
  {
    if x == [] {
      assert Escape(x) + "\"" + t == "\"" + t;
    } else {
      var tail := Escape(x[1..]) + "\"" + t;
      assert Escape(x) + "\"" + t == EscapeChar(x[0]) + tail;
      EscapeCharParses(x[0], tail);
      EscapeParses(x[1..], t);
      assert [x[0]] + x[1..] == x;
    }
  }

  /** A quoted element followed by `after` reads back as the element, leaving `after`. */
  lemma QuotedParses(x: string, after: string)
    ensures (Quote(x) + after)[0] == '"'
    ensures ParseStringBody((Quote(x) + after)[1..]) == Some((x, after))
  {
    var s := Quote(x) + after;
    assert s[1..] == Escape(x) + "\"" + after;
    EscapeParses(x, after);
  }

  lemma QuotedLastParses(x: string)
    ensures ParseElements(Quote(x) + "]") == Some([x])
  {
    QuotedParses(x, "]");
  }

  lemma QuotedThenParses(x: string, rest: string, ys: seq<string>)
    requires ParseElements(rest) == Some(ys)
    ensures ParseElements(Quote(x) + ("," + rest)) == Some([x] + ys)
  {
    var after := "," + rest;
    QuotedParses(x, after);
    assert after[0] == ',' && after[1..] == rest;
    assert after != "]" by {
      assert "]"[0] == ']';
    }
  }

  lemma Regroup(a: string, b: string, c: string, d: string)
    ensures a + b + c + d == a + (b + (c + d))
  {
  }

  lemma {:induction false} ElementsParse(xs: seq<string>)
    requires xs != []
    ensures ParseElements(JoinElements(xs) + "]") == Some(xs)
    decreases |xs|
  {
    if |xs| == 1 {
      QuotedLastParses(xs[0]);
      assert [xs[0]] == xs;
    } else {
      var rest := JoinElements(xs[1..]) + "]";
      assert JoinElements(xs) == Quote(xs[0]) + "," + JoinElements(xs[1..]);
      Regroup(Quote(xs[0]), ",", JoinElements(xs[1..]), "]");
      ElementsParse(xs[1..]);
      QuotedThenParses(xs[0], rest, xs[1..]);
      assert [xs[0]] + xs[1..] == xs;
    }
  }

  /** Reading back the bracketed elements yields the original array. */
  lemma ArrayParses(xs: seq<string>)
    ensures ParseArray("[" + JoinElements(xs) + "]") == Some(xs)
  {
    var s := "[" + JoinElements(xs) + "]";
    if xs != [] {
      assert JoinElements(xs)[0] == '"';
      assert s[1] == '"';
      assert s[1..] == JoinElements(xs) + "]";
      ElementsParse(xs);
    }
  }

  // ---------------------------------------------------------------------
  // Where backslashes stand in the serialised text

  /** No backslash of `s` is immediately followed by `/`. */
  predicate NoBackslashSlash(s: string) {
    forall i :: 0 <= i < |s| - 1 && s[i] == '\\' ==> s[i + 1] != '/'
  }

  /** A concatenation is free of `\/` exactly when both parts are and the seam does not form one. */
  lemma NoBackslashSlashConcat(a: string, b: string)
    ensures NoBackslashSlash(a + b) <==>
      NoBackslashSlash(a) && NoBackslashSlash(b) && !(a != [] && b != [] && a[|a| - 1] == '\\' && b[0] == '/')
  {
    var s := a + b;
    if NoBackslashSlash(s) {
      forall i | 0 <= i < |a| - 1 && a[i] == '\\' ensures a[i + 1] != '/' {
        assert s[i] == a[i] && s[i + 1] == a[i + 1];
      }
      forall i | 0 <= i < |b| - 1 && b[i] == '\\' ensures b[i + 1] != '/' {
        assert s[|a| + i] == b[i] && s[|a| + i + 1] == b[i + 1];
      }
      if a != [] && b != [] && a[|a| - 1] == '\\' {
        assert s[|a| - 1] == a[|a| - 1] && s[|a|] == b[0];
      }
    }
    if NoBackslashSlash(a) && NoBackslashSlash(b) && !(a != [] && b != [] && a[|a| - 1] == '\\' && b[0] == '/') {
      forall i | 0 <= i < |s| - 1 && s[i] == '\\' ensures s[i + 1] != '/' {
        if i < |a| - 1 {
          assert a[i] == s[i] && a[i + 1] == s[i + 1];
        } else if i == |a| - 1 {
          assert a[i] == s[i] && b[0] == s[i + 1];
        } else {
          assert b[i - |a|] == s[i] && b[i - |a| + 1] == s[i + 1];
        }
      }
    }
  }

  /** An escaped character never holds `\/`; it starts with `/` or ends with a backslash only for those characters. */
  lemma EscapeCharShape(c: char)
    ensures EscapeChar(c) != [] && NoBackslashSlash(EscapeChar(c))
    ensures EscapeChar(c)[0] == '/' <==> c == '/'
    ensures EscapeChar(c)[|EscapeChar(c)| - 1] == '\\' <==> c == '\\'
  {
    if c < ' ' && c != Backspace && c != FormFeed && c != '\n' && c != '\r' && c != '\t' {
      var e := EscapeChar(c);
      assert |e| == 6 && e[4] == HexDigit(c as int / 16) && e[5] == HexDigit(c as int % 16);
      HexDigitNotBackslash(c as int / 16);
      HexDigitNotBackslash(c as int % 16);
    }
  }

  lemma HexDigitNotBackslash(n: nat)
    requires n < 16
    ensures HexDigit(n) != '\\'
  {
  }

  /** Escaping neither creates nor removes a backslash followed by `/`. */
  lemma {:induction false} EscapeNoBackslashSlash(x: string)
    ensures NoBackslashSlash(Escape(x)) <==> NoBackslashSlash(x)
    ensures x != [] ==> Escape(x) != [] && (Escape(x)[0] == '/' <==> x[0] == '/')
    decreases |x|
  {
    if x != [] {
      var rest := x[1..];
      EscapeNoBackslashSlash(rest);
      EscapeCharShape(x[0]);
      NoBackslashSlashConcat(EscapeChar(x[0]), Escape(rest));
      NoBackslashSlashConcat([x[0]], rest);
      assert [x[0]] + rest == x;
    }
  }

  lemma QuoteNoBackslashSlash(x: string)
    ensures NoBackslashSlash(Quote(x)) <==> NoBackslashSlash(x)
  {
    EscapeNoBackslashSlash(x);
    NoBackslashSlashConcat("\"", Escape(x));
    NoBackslashSlashConcat("\"" + Escape(x), "\"");
  }

  lemma {:induction false} JoinNoBackslashSlash(xs: seq<string>)
    ensures NoBackslashSlash(JoinElements(xs)) <==> forall k :: 0 <= k < |xs| ==> NoBackslashSlash(xs[k])
    decreases |xs|
  {
    if xs != [] {
      QuoteNoBackslashSlash(xs[0]);
      if |xs| > 1 {
        var rest := xs[1..];
        JoinNoBackslashSlash(rest);
        NoBackslashSlashConcat(Quote(xs[0]), ",");
        NoBackslashSlashConcat(Quote(xs[0]) + ",", JoinElements(rest));
        assert forall k :: 1 <= k < |xs| ==> xs[k] == rest[k - 1];
      }
    }
  }
}
