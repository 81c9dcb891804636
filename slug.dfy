/** URL slugs derived from article titles, and the lookup of an article by slug
    (src/app/utils/slug.ts). */
module Slug {
  import opened Wrappers
  import opened Strings
  import opened App

  /** The characters `[a-z0-9]` that survive into a slug. */
  predicate IsSlugAlnum(c: char) {
    'a' <= c <= 'z' || '0' <= c <= '9'
  }

  predicate IsSeparator(c: char) {
    !IsSlugAlnum(c)
  }

  predicate IsHyphen(c: char) {
    c == '-'
  }

  /** Only `[a-z0-9-]`. */
  predicate SlugAlphabet(s: string) {
    forall i :: 0 <= i < |s| ==> IsSlugAlnum(s[i]) || s[i] == '-'
  }

  /** No `--` anywhere. */
  predicate NoDoubleHyphen(s: string) {
    forall i :: 0 <= i < |s| - 1 ==> !(s[i] == '-' && s[i + 1] == '-')
  }

  /** The shape of every generated slug: `[a-z0-9-]` only, no `--`, no hyphen at either end. */
  predicate WellFormedSlug(s: string) {
    && SlugAlphabet(s)
    && NoDoubleHyphen(s)
    && (s != [] ==> s[0] != '-' && s[|s| - 1] != '-')
  }

  /** The `[a-z0-9]` characters of `s`, in order. */
  function AlnumOnly(s: string): string {
    if s == [] then []
    else (if IsSlugAlnum(s[0]) then [s[0]] else []) + AlnumOnly(s[1..])
  }

  /** `s` with every `-` deleted. */
  function RemoveHyphens(s: string): string {
    if s == [] then []
    else (if s[0] == '-' then [] else [s[0]]) + RemoveHyphens(s[1..])
  }

  lemma {:induction false} AlnumOnlyAppend(a: string, b: string)
    ensures AlnumOnly(a + b) == AlnumOnly(a) + AlnumOnly(b)
  {
    if a == [] {
      assert a + b == b;
    } else {
      assert (a + b)[0] == a[0];
      assert (a + b)[1..] == a[1..] + b;
      AlnumOnlyAppend(a[1..], b);
    }
  }

  lemma {:induction false} RemoveHyphensAppend(a: string, b: string)
    ensures RemoveHyphens(a + b) == RemoveHyphens(a) + RemoveHyphens(b)
  {
    if a == [] {
      assert a + b == b;
    } else {
      assert (a + b)[0] == a[0];
      assert (a + b)[1..] == a[1..] + b;
      RemoveHyphensAppend(a[1..], b);
    }
  }

  lemma {:induction false} AlnumOnlyOfSeparators(s: string)
    requires forall i :: 0 <= i < |s| ==> IsSeparator(s[i])
    ensures AlnumOnly(s) == []
  {
    if s != [] {
      AlnumOnlyOfSeparators(s[1..]);
    }
  }

  lemma {:induction false} RemoveHyphensOfHyphens(s: string)
    requires forall i :: 0 <= i < |s| ==> IsHyphen(s[i])
    ensures RemoveHyphens(s) == []
  {
    if s != [] {
      RemoveHyphensOfHyphens(s[1..]);
    }
  }

  /** `s` without its leading run of characters outside `[a-z0-9]`. */
  function DropSeparators(s: string): (r: string)
    ensures |r| <= |s| && r == s[|s| - |r|..]
    ensures forall i :: 0 <= i < |s| - |r| ==> IsSeparator(s[i])
    ensures r == [] || IsSlugAlnum(r[0])
  {
    if s != [] && IsSeparator(s[0]) then DropSeparators(s[1..]) else s
  }

  /** `.replace(/[^a-z0-9]+/g, "-")`: every maximal run of characters outside `[a-z0-9]`
      becomes one `-`. */
  function CollapseSeparators(s: string): string
    decreases |s|
  {
    if s == [] then []
    else if IsSlugAlnum(s[0]) then [s[0]] + CollapseSeparators(s[1..])
    else "-" + CollapseSeparators(DropSeparators(s[1..]))
  }

  /** Collapsing leaves only `[a-z0-9-]` and no `--`; the result is empty only for the empty
      string, and it starts with a hyphen exactly when `s` starts with a separator. */
  lemma {:induction false} CollapseSeparatorsShape(s: string)
    ensures SlugAlphabet(CollapseSeparators(s)) && NoDoubleHyphen(CollapseSeparators(s))
    ensures s == [] <==> CollapseSeparators(s) == []
    ensures s != [] && IsSlugAlnum(s[0]) ==> CollapseSeparators(s)[0] == s[0]
    ensures s != [] && IsSeparator(s[0]) ==> CollapseSeparators(s)[0] == '-'
    decreases |s|
  {
    if s != [] {
      var r := CollapseSeparators(s);
      if IsSlugAlnum(s[0]) {
        var rest := CollapseSeparators(s[1..]);
        CollapseSeparatorsShape(s[1..]);
        assert r == [s[0]] + rest;
        assert forall i :: 1 <= i < |r| ==> r[i] == rest[i - 1];
      } else {
        var tail := DropSeparators(s[1..]);
        var rest := CollapseSeparators(tail);
        CollapseSeparatorsShape(tail);
        assert r == "-" + rest;
        assert forall i :: 1 <= i < |r| ==> r[i] == rest[i - 1];
        assert rest != [] ==> rest[0] != '-';
      }
    }
  }

  /** Deleting the hyphens that collapsing produced leaves exactly the alphanumerics of `s`. */
  lemma {:induction false} CollapseSeparatorsKeepsAlnum(s: string)
    ensures RemoveHyphens(CollapseSeparators(s)) == AlnumOnly(s)
    decreases |s|
  {
    if s != [] {
      var r := CollapseSeparators(s);
      if IsSlugAlnum(s[0]) {
        CollapseSeparatorsKeepsAlnum(s[1..]);
        assert r == [s[0]] + CollapseSeparators(s[1..]);
        assert r[1..] == CollapseSeparators(s[1..]);
      } else {
        var tail := DropSeparators(s[1..]);
        var gap := s[1..][..|s| - 1 - |tail|];
        CollapseSeparatorsKeepsAlnum(tail);
        assert r == "-" + CollapseSeparators(tail);
        assert r[1..] == CollapseSeparators(tail);
        assert s[1..] == gap + tail;
        AlnumOnlyAppend(gap, tail);
        AlnumOnlyOfSeparators(gap);
      }
    }
  }

  /** The number of hyphens `s` starts with. */
  function LeadingHyphens(s: string): (n: nat)
    ensures n <= |s|
    ensures forall i :: 0 <= i < n ==> s[i] == '-'
    ensures n < |s| ==> s[n] != '-'
  {
    if s != [] && s[0] == '-' then 1 + LeadingHyphens(s[1..]) else 0
  }

  /** The number of hyphens `s` ends with. */
  function TrailingHyphens(s: string): (n: nat)
    ensures n <= |s|
    ensures forall i :: |s| - n <= i < |s| ==> s[i] == '-'
    ensures n < |s| ==> s[|s| - 1 - n] != '-'
  {
    if s != [] && s[|s| - 1] == '-' then 1 + TrailingHyphens(s[..|s| - 1]) else 0
  }

  /** `.replace(/^-+|-+$/g, "")`: strips every leading and every trailing hyphen; a string of
      hyphens only becomes empty. */
  function TrimHyphens(s: string): (r: string)
    ensures r == [] || (r[0] != '-' && r[|r| - 1] != '-')
  {
    var a := LeadingHyphens(s);
    if a == |s| then []
    else
      var b := TrailingHyphens(s);
      assert s[a] != '-';
      s[a..|s| - b]
  }

  /** A word of `[a-z0-9]` is copied unchanged, and collapsing goes on after it. */
  lemma {:induction false} CollapseAlnumPrefix(w: string, t: string)
    requires forall i :: 0 <= i < |w| ==> IsSlugAlnum(w[i])
    ensures CollapseSeparators(w + t) == w + CollapseSeparators(t)
  {
    if w == [] {
      assert w + t == t;
    } else {
      CollapseAlnumPrefix(w[1..], t);
      assert (w + t)[0] == w[0] && (w + t)[1..] == w[1..] + t;
      assert [w[0]] + w[1..] == w;
    }
  }

  /** A run of `[a-z0-9]` from index `j` up to `k` is copied unchanged, and collapsing goes on
      after it. */
  lemma CollapseAlnumRun(s: string, j: nat, k: nat)
    requires j <= k <= |s|
    requires forall i :: j <= i < k ==> IsSlugAlnum(s[i])
    ensures CollapseSeparators(s[j..]) == s[j..k] + CollapseSeparators(s[k..])
  {
    assert s[j..] == s[j..k] + s[k..];
    CollapseAlnumPrefix(s[j..k], s[k..]);
  }

  /** Dropping separators stops at the first `[a-z0-9]` character. */
  lemma {:induction false} DropSeparatorRun(s: string, j: nat, m: nat)
    requires j <= m < |s|
    requires forall i :: j <= i < m ==> IsSeparator(s[i])
    requires IsSlugAlnum(s[m])
    ensures DropSeparators(s[j..]) == s[m..]
    decreases m - j
  {
    if j < m {
      DropSeparatorRun(s, j + 1, m);
      assert s[j..][1..] == s[j + 1..];
    }
  }

  /** A run of separators from index `k` up to the `[a-z0-9]` character at `m` becomes one
      hyphen. */
  lemma CollapseSeparatorRun(s: string, k: nat, m: nat)
    requires k < m < |s|
    requires forall i :: k <= i < m ==> IsSeparator(s[i])
    requires IsSlugAlnum(s[m])
    ensures CollapseSeparators(s[k..]) == "-" + CollapseSeparators(s[m..])
  {
    DropSeparatorRun(s, k + 1, m);
    assert s[k..][1..] == s[k + 1..];
  }

  /** A word of `[a-z0-9]` at `[j, k)` followed by separators up to the `[a-z0-9]` character
      at `m` collapses to the word and one hyphen, and collapsing goes on from `m`. */
  lemma CollapseWordThenGap(s: string, j: nat, k: nat, m: nat)
    requires j <= k < m < |s|
    requires forall i :: j <= i < k ==> IsSlugAlnum(s[i])
    requires forall i :: k <= i < m ==> IsSeparator(s[i])
    requires IsSlugAlnum(s[m])
    ensures CollapseSeparators(s[j..]) == s[j..k] + "-" + CollapseSeparators(s[m..])
  {
    CollapseAlnumRun(s, j, k);
    CollapseSeparatorRun(s, k, m);
  }

  /** Trimming keeps every character up to a non-hyphen when `s` does not start with one. */
  lemma TrimHyphensKeepsPrefix(s: string, j: nat)
    requires j < |s| && s[0] != '-' && s[j] != '-'
    ensures j < |TrimHyphens(s)| && TrimHyphens(s)[..j + 1] == s[..j + 1]
  {
    assert LeadingHyphens(s) == 0;
    var b := TrailingHyphens(s);
    assert j < |s| - b;
  }

  /** `generateSlug(title)`. */
  function GenerateSlug(title: string): string {
    TrimHyphens(CollapseSeparators(ToLower(title)))
  }

  /** A title whose first character lower-cases into `[a-z0-9]` has a slug that starts with
      that character. */
  lemma GenerateSlugFirstChar(title: string)
    requires title != [] && IsSlugAlnum(LowerChar(title[0]))
    ensures GenerateSlug(title) != [] && GenerateSlug(title)[0] == LowerChar(title[0])
  {
    TrimHyphensKeepsPrefix(CollapseSeparators(ToLower(title)), 0);
  }

  /** A slice of a string over `[a-z0-9-]` without `--` is again one. */
  lemma SliceKeepsAlphabet(c: string, lo: int, hi: int)
    requires 0 <= lo <= hi <= |c|
    requires SlugAlphabet(c) && NoDoubleHyphen(c)
    ensures SlugAlphabet(c[lo..hi]) && NoDoubleHyphen(c[lo..hi])
  {
    var r := c[lo..hi];
    assert forall i :: 0 <= i < |r| ==> r[i] == c[lo + i];
  }

  /** Trimming hyphens from a string over `[a-z0-9-]` without `--` gives a well-formed slug. */
  lemma TrimHyphensWellFormed(c: string)
    requires SlugAlphabet(c) && NoDoubleHyphen(c)
    ensures WellFormedSlug(TrimHyphens(c))
  {
    var a := LeadingHyphens(c);
    if a < |c| {
      SliceKeepsAlphabet(c, a, |c| - TrailingHyphens(c));
    }
  }

  /** Trimming hyphens deletes hyphens only. */
  lemma TrimHyphensKeepsContent(c: string)
    ensures RemoveHyphens(TrimHyphens(c)) == RemoveHyphens(c)
  {
    var a := LeadingHyphens(c);
    if a == |c| {
      RemoveHyphensOfHyphens(c);
    } else {
      var e := |c| - TrailingHyphens(c);
      assert c == c[..a] + (c[a..e] + c[e..]);
      RemoveHyphensOfHyphens(c[..a]);
      RemoveHyphensOfHyphens(c[e..]);
      RemoveHyphensAppend(c[..a], c[a..e] + c[e..]);
      RemoveHyphensAppend(c[a..e], c[e..]);
    }
  }

  /** The output of `generateSlug` uses only `[a-z0-9-]`, never starts or ends with `-`,
      never contains `--`, and deleting its hyphens gives exactly the lower-cased title's
      `[a-z0-9]` characters, in order. */
  lemma GenerateSlugShape(title: string)
    ensures WellFormedSlug(GenerateSlug(title))
    ensures RemoveHyphens(GenerateSlug(title)) == AlnumOnly(ToLower(title))
  {
    CollapseSeparatorsShape(ToLower(title));
    TrimHyphensWellFormed(CollapseSeparators(ToLower(title)));
    TrimHyphensKeepsContent(CollapseSeparators(ToLower(title)));
    CollapseSeparatorsKeepsAlnum(ToLower(title));
  }

  lemma {:induction false} AlnumOnlyEmptyIff(s: string)
    ensures AlnumOnly(s) == [] <==> forall i :: 0 <= i < |s| ==> IsSeparator(s[i])
  {
    if s != [] {
      AlnumOnlyEmptyIff(s[1..]);
      assert forall i :: 1 <= i < |s| ==> s[i] == s[1..][i - 1];
    }
  }

  /** The slug is empty exactly when the lower-cased title has no `[a-z0-9]` character. */
  lemma GenerateSlugEmptyIff(title: string)
    ensures GenerateSlug(title) == [] <==> forall i :: 0 <= i < |title| ==> IsSeparator(ToLower(title)[i])
  {
    var r := GenerateSlug(title);
    GenerateSlugShape(title);
    AlnumOnlyEmptyIff(ToLower(title));
    if r != [] {
      assert r[0] != '-';
      assert RemoveHyphens(r) == [r[0]] + RemoveHyphens(r[1..]);
    }
  }

  /** Collapsing separators leaves a string over `[a-z0-9-]` without `--` unchanged. */
  lemma {:induction false} CollapseSeparatorsFixpoint(s: string)
    requires SlugAlphabet(s) && NoDoubleHyphen(s)
    ensures CollapseSeparators(s) == s
    decreases |s|
  {
    if s != [] {
      assert SlugAlphabet(s[1..]) && NoDoubleHyphen(s[1..]);
      CollapseSeparatorsFixpoint(s[1..]);
      if !IsSlugAlnum(s[0]) {
        assert s[1..] == [] || IsSlugAlnum(s[1]);
        assert DropSeparators(s[1..]) == s[1..];
      }
    }
  }

  /** A well-formed slug is its own slug. */
  lemma WellFormedSlugFixpoint(s: string)
    requires WellFormedSlug(s)
    ensures GenerateSlug(s) == s
  {
    ToLowerOfLower(s);
    CollapseSeparatorsFixpoint(s);
    assert LeadingHyphens(s) == 0;
    assert TrailingHyphens(s) == 0;
  }

  /** `generateSlug` is idempotent. */
  lemma GenerateSlugIdempotent(title: string)
    ensures GenerateSlug(GenerateSlug(title)) == GenerateSlug(title)
  {
    GenerateSlugShape(title);
    WellFormedSlugFixpoint(GenerateSlug(title));
  }

  /** The slug a post is reached under: the slug of its title. */
  function TitleSlug(p: BlogPost): string {
    GenerateSlug(p.title)
  }

  /** `Array.prototype.find` with a key comparison: the first element, in order, whose key
      is `target`, or `None` when there is none. */
  function FindFirst<T>(s: seq<T>, key: T -> string, target: string): (r: Option<T>)
    ensures r.None? <==> forall i :: 0 <= i < |s| ==> key(s[i]) != target
    ensures r.Some? ==> exists i :: 0 <= i < |s| && s[i] == r.value && key(s[i]) == target
                                    && forall j :: 0 <= j < i ==> key(s[j]) != target
  {
    if s == [] then None
    else if key(s[0]) == target then Some(s[0])
    else
      var r := FindFirst(s[1..], key, target);
      assert forall i :: 1 <= i < |s| ==> s[i] == s[1..][i - 1];
      r
  }

  /** `findPostBySlug(posts, slug)`: the first post, in order, whose title slugs to `slug`;
      `None` (JavaScript's `undefined`) when no post does. The stored `slug` field is not read. */
  function FindPostBySlug(posts: seq<BlogPost>, slug: string): (r: Option<BlogPost>)
    ensures r.None? <==> forall i :: 0 <= i < |posts| ==> TitleSlug(posts[i]) != slug
    ensures r.Some? ==> exists i :: 0 <= i < |posts| && posts[i] == r.value && TitleSlug(posts[i]) == slug
                                    && forall j :: 0 <= j < i ==> TitleSlug(posts[j]) != slug
  {
    FindFirst(posts, TitleSlug, slug)
  }

  /** Every post is found under its own generated slug, though possibly as an earlier post
      with the same slug. */
  lemma FindPostBySlugFindsEveryPost(posts: seq<BlogPost>, p: BlogPost)
    requires p in posts
    ensures FindPostBySlug(posts, TitleSlug(p)).Some?
    ensures TitleSlug(FindPostBySlug(posts, TitleSlug(p)).value) == TitleSlug(p)
  {
    var k :| 0 <= k < |posts| && posts[k] == p;
    assert TitleSlug(posts[k]) == TitleSlug(p);
  }

  /** No two positions of `posts` share a generated slug. */
  predicate DistinctSlugs(posts: seq<BlogPost>) {
    forall i, j :: 0 <= i < j < |posts| ==> TitleSlug(posts[i]) != TitleSlug(posts[j])
  }

  /** With distinct generated slugs, looking a post up by its own slug returns that post. */
  lemma FindPostBySlugExact(posts: seq<BlogPost>, i: int)
    requires DistinctSlugs(posts)
    requires 0 <= i < |posts|
    ensures FindPostBySlug(posts, TitleSlug(posts[i])) == Some(posts[i])
  {
    var r := FindPostBySlug(posts, TitleSlug(posts[i]));
    var k :| 0 <= k < |posts| && posts[k] == r.value && TitleSlug(posts[k]) == TitleSlug(posts[i])
             && forall j :: 0 <= j < k ==> TitleSlug(posts[j]) != TitleSlug(posts[i]);
    assert k == i;
  }
}
