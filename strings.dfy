/** The string operations the views share: `toLowerCase`, `trim`, `includes`, `startsWith`
    and `split`, and `.length`. Strings are sequences of Unicode scalar values; `.length`
    counts them as UTF-16 code units, as JavaScript does. Lower-casing and the whitespace class
    (`\s`, and what `trim` removes) are modelled on ASCII only. */
module Strings {

  predicate IsAsciiUpper(c: char) {
    'A' <= c <= 'Z'
  }

  /** `toLowerCase` on one character: `A`-`Z` become `a`-`z`, everything else is kept. */
  function LowerChar(c: char): (r: char)
    ensures !IsAsciiUpper(r)
    ensures IsAsciiUpper(c) ==> r as int == c as int + 32
    ensures !IsAsciiUpper(c) ==> r == c
  {
    if IsAsciiUpper(c) then (c as int + 32) as char else c
  }

  /** `s.toLowerCase()`: the same length, position by position, with no upper-case letter left. */
  function ToLower(s: string): (r: string)
    ensures |r| == |s|
    ensures forall i :: 0 <= i < |s| ==> r[i] == LowerChar(s[i])
    ensures forall i :: 0 <= i < |r| ==> !IsAsciiUpper(r[i])
  {
    seq(|s|, i requires 0 <= i < |s| => LowerChar(s[i]))
  }

  lemma ToLowerAppend(a: string, b: string)
    ensures ToLower(a + b) == ToLower(a) + ToLower(b)
  {
  }

  /** Lower-casing twice is lower-casing once. */
  lemma ToLowerIdempotent(s: string)
    ensures ToLower(ToLower(s)) == ToLower(s)
  {
  }

  /** A string without upper-case letters is its own lower-case form. */
  lemma ToLowerOfLower(s: string)
    requires forall i :: 0 <= i < |s| ==> !IsAsciiUpper(s[i])
    ensures ToLower(s) == s
  {
  }

  /** The `\s` class, and the characters `trim` removes: space, tab, line feed, vertical tab,
      form feed and carriage return. */
  predicate IsWhitespace(c: char) {
    c == ' ' || c == '\t' || c == '\n' || c == '\U{B}' || c == '\U{C}' || c == '\r'
  }

  predicate AllWhitespace(s: string) {
    forall i :: 0 <= i < |s| ==> IsWhitespace(s[i])
  }

  /** `s` without its leading whitespace. */
  function TrimStart(s: string): string {
    if s != [] && IsWhitespace(s[0]) then TrimStart(s[1..]) else s
  }

  /** `s` without its trailing whitespace. */
  function TrimEnd(s: string): string {
    if s != [] && IsWhitespace(s[|s| - 1]) then TrimEnd(s[..|s| - 1]) else s
  }

  /** `s.trim()`: `s` without its leading and trailing whitespace. */
  function Trim(s: string): string {
    TrimEnd(TrimStart(s))
  }

  /** `TrimStart` keeps a suffix of `s` that does not start with whitespace, and drops only
      whitespace. */
  lemma {:induction false} TrimStartSpec(s: string)
    ensures |TrimStart(s)| <= |s| && TrimStart(s) == s[|s| - |TrimStart(s)|..]
    ensures TrimStart(s) == [] || !IsWhitespace(TrimStart(s)[0])
    ensures forall i :: 0 <= i < |s| - |TrimStart(s)| ==> IsWhitespace(s[i])
  {
    if s != [] && IsWhitespace(s[0]) {
      TrimStartSpec(s[1..]);
      assert forall i :: 1 <= i < |s| ==> s[i] == s[1..][i - 1];
    }
  }

  /** Dropping the leading whitespace of a run of whitespace followed by a string that does
      not start with whitespace leaves that string. */
  lemma {:induction false} TrimStartDropsRun(g: string, v: string)
    requires AllWhitespace(g) && (v == [] || !IsWhitespace(v[0]))
    ensures TrimStart(g + v) == v
  {
    if g != [] {
      TrimStartDropsRun(g[1..], v);
      assert (g + v)[1..] == g[1..] + v;
    }
  }

  /** `TrimEnd` keeps a prefix of `s` that does not end with whitespace, and drops only
      whitespace. */
  lemma {:induction false} TrimEndSpec(s: string)
    ensures |TrimEnd(s)| <= |s| && TrimEnd(s) == s[..|TrimEnd(s)|]
    ensures TrimEnd(s) == [] || !IsWhitespace(TrimEnd(s)[|TrimEnd(s)| - 1])
    ensures forall i :: |TrimEnd(s)| <= i < |s| ==> IsWhitespace(s[i])
  {
    if s != [] && IsWhitespace(s[|s| - 1]) {
      TrimEndSpec(s[..|s| - 1]);
    }
  }

  /** `s.trim()` is a piece of `s` that neither starts nor ends with whitespace, and all that is
      cut off on either side is whitespace. */
  lemma TrimSpec(s: string)
    ensures Trim(s) == [] || (!IsWhitespace(Trim(s)[0]) && !IsWhitespace(Trim(s)[|Trim(s)| - 1]))
    ensures exists a, b :: 0 <= a <= b <= |s| && Trim(s) == s[a..b]
              && (forall i :: 0 <= i < a ==> IsWhitespace(s[i]))
              && (forall i :: b <= i < |s| ==> IsWhitespace(s[i]))
  {
    var t := TrimStart(s);
    TrimStartSpec(s);
    TrimEndSpec(t);
    var a := |s| - |t|;
    var b := a + |Trim(s)|;
    assert Trim(s) == s[a..b];
    forall i | b <= i < |s|
      ensures IsWhitespace(s[i])
    {
      assert s[i] == t[i - a];
    }
  }

  /** `s.trim() === ""` exactly when every character of `s` is whitespace. */
  lemma TrimEmptyIff(s: string)
    ensures Trim(s) == [] <==> AllWhitespace(s)
  {
    var t := TrimStart(s);
    TrimStartSpec(s);
    TrimEndSpec(t);
    if t != [] {
      assert !IsWhitespace(t[0]) && t[0] == s[|s| - |t|];
    }
  }

  /** A character outside the Basic Multilingual Plane, which UTF-16 stores as a surrogate
      pair. */
  predicate IsAstral(c: char) {
    c as int >= 0x10000
  }

  /** `s.length`: JavaScript counts UTF-16 code units, one per character of the Basic
      Multilingual Plane and two per character outside it. */
  function Utf16Length(s: string): (n: nat)
    ensures |s| <= n <= 2 * |s|
  {
    if s == [] then 0 else (if IsAstral(s[0]) then 2 else 1) + Utf16Length(s[1..])
  }

  /** `length` counts characters exactly when no character lies outside the Basic
      Multilingual Plane. */
  lemma {:induction false} Utf16LengthIsLength(s: string)
    ensures Utf16Length(s) == |s| <==> forall i :: 0 <= i < |s| ==> !IsAstral(s[i])
  {
    if s != [] {
      Utf16LengthIsLength(s[1..]);
      assert forall i :: 1 <= i < |s| ==> s[i] == s[1..][i - 1];
    }
  }

  /** `hay` contains `needle` starting at index `i`. */
  predicate OccursAt(needle: string, hay: string, i: int) {
    0 <= i && i + |needle| <= |hay| && hay[i..i + |needle|] == needle
  }

  /** `hay.includes(needle)`. */
  predicate IsSubstring(needle: string, hay: string) {
    exists i :: 0 <= i <= |hay| - |needle| && OccursAt(needle, hay, i)
  }

  /** `s.startsWith(prefix)`. */
  predicate StartsWith(s: string, prefix: string) {
    |prefix| <= |s| && s[..|prefix|] == prefix
  }

  /** Every string includes the empty string. */
  lemma EmptyIsSubstring(hay: string)
    ensures IsSubstring([], hay)
  {
    assert OccursAt([], hay, 0);
  }

  /** A string includes itself. */
  lemma IsSubstringOfSelf(s: string)
    ensures IsSubstring(s, s)
  {
    assert OccursAt(s, s, 0);
  }

  /** A prefix is in particular a substring. */
  lemma StartsWithIsSubstring(s: string, prefix: string)
    requires StartsWith(s, prefix)
    ensures IsSubstring(prefix, s)
  {
    assert OccursAt(prefix, s, 0);
  }

  /** `s.split(sep)[0]`: the text before the first occurrence of `sep`, or all of `s`. */
  function BeforeFirst(s: string, sep: string): (r: string)
    requires sep != []
    ensures StartsWith(s, r)
    ensures r == s || OccursAt(sep, s, |r|)
    ensures forall j :: 0 <= j < |r| ==> !OccursAt(sep, s, j)
  {
    if s == [] || StartsWith(s, sep) then []
    else
      var rest := BeforeFirst(s[1..], sep);
      assert forall j :: 1 <= j <= |rest| ==> (OccursAt(sep, s, j) <==> OccursAt(sep, s[1..], j - 1));
      [s[0]] + rest
  }

  /** `parts.join(sep)` for a one-character separator. */
  function JoinWith(parts: seq<string>, sep: char): string {
    if parts == [] then []
    else if |parts| == 1 then parts[0]
    else parts[0] + [sep] + JoinWith(parts[1..], sep)
  }

  /** `s.split(sep)` for a one-character separator: never empty, no piece holds the separator,
      and joining the pieces with the separator gives back `s`. */
  function SplitOn(s: string, sep: char): (r: seq<string>)
    ensures |r| >= 1
    ensures forall k :: 0 <= k < |r| ==> sep !in r[k]
    ensures JoinWith(r, sep) == s
  {
    if s == [] then [[]]
    else
      var rest := SplitOn(s[1..], sep);
      if s[0] == sep then
        assert JoinWith([[]] + rest, sep) == [sep] + JoinWith(rest, sep);
        [[]] + rest
      else
        var r := [[s[0]] + rest[0]] + rest[1..];
        assert r[1..] == rest[1..];
        assert JoinWith(r, sep) == [s[0]] + JoinWith(rest, sep);
        r
  }

  /** A string without the separator splits into itself alone. */
  lemma {:induction false} SplitOnWithoutSeparator(s: string, sep: char)
    requires sep !in s
    ensures SplitOn(s, sep) == [s]
  {
    if s != [] {
      SplitOnWithoutSeparator(s[1..], sep);
      assert [s[0]] + s[1..] == s;
    }
  }

  /** Splitting `w + [sep] + s`, where `w` has no separator, gives `w` followed by the pieces
      of `s`. */
  lemma {:induction false} SplitOnAfterPiece(w: string, sep: char, s: string)
    requires sep !in w
    ensures SplitOn(w + [sep] + s, sep) == [w] + SplitOn(s, sep)
  {
    if w == [] {
      assert [] + [sep] + s == [sep] + s;
      assert ([sep] + s)[1..] == s;
    } else {
      SplitOnAfterPiece(w[1..], sep, s);
      assert (w + [sep] + s)[1..] == w[1..] + [sep] + s;
      assert [w[0]] + w[1..] == w;
    }
  }
}
