/** String helpers standing in for the JavaScript string operations the
    source uses: `startsWith`, `endsWith`, `Array.join`, template
    interpolation of numbers, and a case-insensitive substring test. */
module Text {

  predicate StartsWith(s: string, prefix: string) {
    |prefix| <= |s| && s[..|prefix|] == prefix
  }

  predicate EndsWith(s: string, suffix: string) {
    |suffix| <= |s| && s[|s| - |suffix|..] == suffix
  }

  lemma EndsWithAppend(a: string, b: string)
    ensures EndsWith(a + b, b)
  {
    assert (a + b)[|a + b| - |b|..] == b;
  }

  lemma StartsWithAppend(a: string, b: string)
    ensures StartsWith(a + b, a)
  {
    assert (a + b)[..|a|] == a;
  }

  /** `parts.join(sep)`. */
  function Join(parts: seq<string>, sep: string): string {
    if |parts| == 0 then ""
    else if |parts| == 1 then parts[0]
    else parts[0] + sep + Join(parts[1..], sep)
  }

  /** Decimal rendering of a natural number, as a template literal prints it. */
  function NatToString(n: nat): (s: string)
    ensures |s| >= 1
    ensures forall i :: 0 <= i < |s| ==> '0' <= s[i] <= '9'
    decreases n
  {
    if n < 10 then [Digit(n)] else NatToString(n / 10) + [Digit(n % 10)]
  }

  function Digit(d: nat): (c: char)
    requires d < 10
    ensures '0' <= c <= '9'
  {
    "0123456789"[d]
  }

  /** The UTF-16 code units that encode `c`: two for a character outside
      the Basic Multilingual Plane, one otherwise. */
  function CodeUnits(c: char): nat {
    if c as int > 0xFFFF then 2 else 1
  }

  /** `s.length`: JavaScript counts UTF-16 code units, not characters. */
  function JsLength(s: string): (n: nat)
    ensures |s| <= n <= 2 * |s|
  {
    if |s| == 0 then 0 else CodeUnits(s[0]) + JsLength(s[1..])
  }

  /** On text inside the Basic Multilingual Plane the two lengths agree. */
  lemma {:induction false} JsLengthOfBmp(s: string)
    requires forall i :: 0 <= i < |s| ==> s[i] as int <= 0xFFFF
    ensures JsLength(s) == |s|
  {
    if |s| > 0 {
      JsLengthOfBmp(s[1..]);
    }
  }

  /** A character outside the Basic Multilingual Plane counts twice: these
      two keys have equal JavaScript length though one has fewer characters. */
  lemma AstralCharCountsTwice()
    ensures |"./ab"| == 4 && |"./\U{1F600}"| == 3
    ensures JsLength("./ab") == JsLength("./\U{1F600}") == 4
  {
  }

  function LowerChar(c: char): char {
    if 'A' <= c <= 'Z' then (c as int - 'A' as int + 'a' as int) as char else c
  }

  function Lower(s: string): (r: string)
    ensures |r| == |s|
    ensures forall i :: 0 <= i < |s| ==> r[i] == LowerChar(s[i])
  {
    seq(|s|, i requires 0 <= i < |s| => LowerChar(s[i]))
  }

  /** `s.includes(sub)`: some suffix of `s` starts with `sub`. */
  predicate Contains(s: string, sub: string)
    decreases |s|
  {
    StartsWith(s, sub) || (|s| > 0 && Contains(s[1..], sub))
  }

  /** The source's case-insensitive regular expressions over ASCII alternatives. */
  predicate ContainsIgnoringCase(s: string, lowerSub: string) {
    Contains(Lower(s), lowerSub)
  }

  /** The last `/`-separated segment of a path (`path.basename`). */
  function Basename(p: string): (b: string)
    ensures '/' !in b
    ensures EndsWith(p, b)
  {
    if |p| == 0 then ""
    else if p[|p| - 1] == '/' then
      (assert EndsWith(p, ""); "")
    else
      var b := Basename(p[..|p| - 1]) + [p[|p| - 1]];
      assert p == p[..|p| - 1] + [p[|p| - 1]];
      EndsWithSnoc(p[..|p| - 1], Basename(p[..|p| - 1]), p[|p| - 1]);
      b
  }

  lemma EndsWithSnoc(s: string, suffix: string, c: char)
    requires EndsWith(s, suffix)
    ensures EndsWith(s + [c], suffix + [c])
  {
    var t := s + [c];
    assert t[|t| - |suffix + [c]|..] == s[|s| - |suffix|..] + [c];
  }

  /** `JSON.stringify` of an array of strings free of characters JSON escapes. */
  function JsonStringArray(xs: seq<string>): string {
    "[" + Join(Quoted(xs), ",") + "]"
  }

  function Quoted(xs: seq<string>): (r: seq<string>)
    ensures |r| == |xs|
    ensures forall i :: 0 <= i < |xs| ==> r[i] == "\"" + xs[i] + "\""
  {
    if |xs| == 0 then [] else ["\"" + xs[0] + "\""] + Quoted(xs[1..])
  }
}
