/** The few JavaScript value semantics that script.js relies on: absent
    attributes, the `||` fallback on strings, `String.prototype.trim`,
    `startsWith`, `replace` with a string pattern and `Array.prototype.indexOf`. */
module Js {

  /** An attribute, dataset entry or storage value that may be absent
      (`undefined` or `null` in JavaScript). */
  datatype Option<+T> = None | Some(value: T)

  /** `v || d` for a possibly absent string: both an absent value and the
      empty string are falsy, so both give way to `d`. */
  function Or(v: Option<string>, d: string): (r: string)
    ensures v.Some? && v.value != "" ==> r == v.value
    ensures v.None? || v.value == "" ==> r == d
  {
    match v
    case None => d
    case Some(x) => if x == "" then d else x
  }

  /** The characters `String.prototype.trim` removes: WhiteSpace (TAB, VT,
      FF, ZWNBSP and every Unicode "Zs" character) and LineTerminator (LF,
      CR, LS, PS), as sections 12.2 and 12.3 of ECMA-262 define them. */
  const Whitespace: set<char> := {'\t', '\U{000B}', '\U{000C}', ' ', '\U{00A0}', '\U{1680}',
    '\U{2000}', '\U{2001}', '\U{2002}', '\U{2003}', '\U{2004}', '\U{2005}', '\U{2006}',
    '\U{2007}', '\U{2008}', '\U{2009}', '\U{200A}', '\U{202F}', '\U{205F}', '\U{3000}',
    '\U{FEFF}', '\n', '\r', '\U{2028}', '\U{2029}'}

  predicate IsWhitespace(c: char) { c in Whitespace }

  /** The number of whitespace characters `s` starts with. */
  function LeadingBlanks(s: string): (n: nat)
    ensures n <= |s|
    ensures forall k :: 0 <= k < n ==> IsWhitespace(s[k])
    ensures n == |s| || !IsWhitespace(s[n])
  {
    if |s| > 0 && IsWhitespace(s[0]) then 1 + LeadingBlanks(s[1..]) else 0
  }

  /** The number of whitespace characters `s` ends with. */
  function TrailingBlanks(s: string): (n: nat)
    ensures n <= |s|
    ensures forall k :: |s| - n <= k < |s| ==> IsWhitespace(s[k])
    ensures n == |s| || !IsWhitespace(s[|s| - n - 1])
  {
    if |s| > 0 && IsWhitespace(s[|s| - 1]) then 1 + TrailingBlanks(s[..|s| - 1]) else 0
  }

  /** `s.trim()`: the infix of `s` that neither starts nor ends with
      whitespace; everything cut off on either side is whitespace. */
  function Trim(s: string): (r: string)
    ensures r == [] <==> forall k :: 0 <= k < |s| ==> IsWhitespace(s[k])
    ensures r != [] ==> !IsWhitespace(r[0]) && !IsWhitespace(r[|r| - 1])
    ensures LeadingBlanks(s) + |r| <= |s|
    ensures r == s[LeadingBlanks(s)..LeadingBlanks(s) + |r|]
    ensures forall k :: LeadingBlanks(s) + |r| <= k < |s| ==> IsWhitespace(s[k])
  {
    var a := LeadingBlanks(s);
    var m := TrailingBlanks(s[a..]);
    TailWhitespace(s, a, |s| - a - m);
    assert s[a..|s| - m] != [] ==> s[a..|s| - m][0] == s[a];
    s[a..|s| - m]
  }

  /** Whitespace past position `keep` of `s[lead..]` is whitespace of `s`. */
  lemma TailWhitespace(s: string, lead: nat, keep: nat)
    requires lead + keep <= |s|
    requires forall j :: keep <= j < |s| - lead ==> IsWhitespace(s[lead..][j])
    ensures forall k :: lead + keep <= k < |s| ==> IsWhitespace(s[k])
  {
    forall k | lead + keep <= k < |s| ensures IsWhitespace(s[k]) {
      assert s[k] == s[lead..][k - lead];
    }
  }

  /** Trimming twice is trimming once. */
  lemma {:induction false} TrimIdempotent(s: string)
    ensures Trim(Trim(s)) == Trim(s)
  {
    var r := Trim(s);
    if r != [] {
      assert LeadingBlanks(r) == 0;
      assert r[0..] == r;
      assert TrailingBlanks(r) == 0;
    }
  }

  /** `s.startsWith(p)`. */
  predicate StartsWith(s: string, p: string)
  {
    |p| <= |s| && s[..|p|] == p
  }

  /** `s.replace(pattern, replacement)` with a string pattern and a
      replacement free of `$` substitution patterns: only the first
      occurrence is replaced (and an empty pattern matches at 0). */
  function ReplaceFirst(s: string, pattern: string, replacement: string): (r: string)
    decreases |s|
  {
    if StartsWith(s, pattern) then replacement + s[|pattern|..]
    else if |s| <= |pattern| then s
    else [s[0]] + ReplaceFirst(s[1..], pattern, replacement)
  }

  /** An occurrence of `pattern` starts at position `i` of `s`. */
  predicate OccursAt(s: string, pattern: string, i: nat)
  {
    i + |pattern| <= |s| && s[i..i + |pattern|] == pattern
  }

  /** `replace` substitutes the first occurrence of the pattern and
      keeps everything around it. */
  lemma {:induction false} ReplaceFirstAt(s: string, pattern: string, replacement: string, i: nat)
    requires OccursAt(s, pattern, i)
    requires forall j: nat :: j < i ==> !OccursAt(s, pattern, j)
    ensures ReplaceFirst(s, pattern, replacement) == s[..i] + replacement + s[i + |pattern|..]
    decreases i
  {
    if i == 0 {
      assert StartsWith(s, pattern);
    } else {
      assert !OccursAt(s, pattern, 0);
      var t := s[1..];
      assert OccursAt(t, pattern, i - 1) by {
        assert t[i - 1..i - 1 + |pattern|] == s[i..i + |pattern|];
      }
      forall j: nat | j < i - 1 ensures !OccursAt(t, pattern, j) {
        assert !OccursAt(s, pattern, j + 1);
        assert j + |pattern| <= |t| ==> t[j..j + |pattern|] == s[j + 1..j + 1 + |pattern|];
      }
      ReplaceFirstAt(t, pattern, replacement, i - 1);
      assert s[..i] == [s[0]] + t[..i - 1];
      assert s[i + |pattern|..] == t[i - 1 + |pattern|..];
    }
  }

  /** `s.indexOf(x)`: the first position holding `x`, or -1. */
  function IndexOf<T(==)>(s: seq<T>, x: T): (r: int)
    ensures -1 <= r < |s|
    ensures r == -1 <==> x !in s
    ensures 0 <= r ==> s[r] == x && forall j :: 0 <= j < r ==> s[j] != x
  {
    if |s| == 0 then -1
    else if s[0] == x then 0
    else
      var i := IndexOf(s[1..], x);
      if i == -1 then -1 else i + 1
  }

  /** `Math.min` and `Math.max` on integers. */
  function Min(a: int, b: int): (m: int)
    ensures m <= a && m <= b && (m == a || m == b)
  {
    if a <= b then a else b
  }

  function Max(a: int, b: int): (m: int)
    ensures m >= a && m >= b && (m == a || m == b)
  {
    if a >= b then a else b
  }
}
