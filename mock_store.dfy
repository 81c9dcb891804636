/** `mockBlogPosts`, the constant article store of src/app/routes.tsx: its two articles, and
    where the slugs generated from their titles part from the stored ones. */
module MockStore {
  import opened Strings
  import opened App
  import opened Slug

  /** The titles and stored slugs of the two mock articles. The titles and the longer slug
      are each written as two literals that concatenate to the text the store holds. */
  const AutoMapperTitle := "AutoMapper and Overposting " + "Attacks: Mapping Safely in ASP.NET"
  const AutoMapperStoredSlug := "automapper-overposting-" + "attacks-secure-mapping"
  const AlgoObserverTitle := "Introducing Algo.Observer: " + "Learning Algorithms Through Observation"
  const AlgoObserverStoredSlug := "introducing-algo-observer"

  /** The two mock titles slug to different strings: one starts with `a`, the other with `i`. */
  lemma TitleSlugsStart()
    ensures GenerateSlug(AutoMapperTitle) != [] && GenerateSlug(AutoMapperTitle)[0] == 'a'
    ensures GenerateSlug(AlgoObserverTitle) != [] && GenerateSlug(AlgoObserverTitle)[0] == 'i'
  {
    GenerateSlugFirstChar(AutoMapperTitle);
    GenerateSlugFirstChar(AlgoObserverTitle);
  }

  lemma AutoMapperTitleRuns(l: string)
    requires l == ToLower(AutoMapperTitle)
    ensures forall i :: 0 <= i < 10 ==> IsSlugAlnum(l[i])
    ensures IsSeparator(l[10]) && IsSlugAlnum(l[11]) && l[12] == 'n' && IsSlugAlnum(l[13])
  {
  }

  /** A title that lower-cases to a 10-character word, a separator and a word starting at
      index 11 with `n` at index 12 has `n` at index 12 of its slug. */
  lemma SlugCharAfterFirstWord(t: string)
    requires |t| > 13
    requires forall i :: 0 <= i < 10 ==> IsSlugAlnum(ToLower(t)[i])
    requires IsSeparator(ToLower(t)[10]) && IsSlugAlnum(ToLower(t)[11])
    requires ToLower(t)[12] == 'n'
    ensures |GenerateSlug(t)| > 12 && GenerateSlug(t)[12] == 'n'
  {
    var l := ToLower(t);
    var c := CollapseSeparators(l);
    var second := CollapseSeparators(l[11..]);
    assert l[0..] == l;
    CollapseWordThenGap(l, 0, 10, 11);
    CollapseAlnumRun(l, 11, 13);
    assert second[1] == l[12];
    assert c == l[0..10] + "-" + second;
    assert c[0] == l[0] && c[12] == second[1];
    TrimHyphensKeepsPrefix(c, 12);
  }

  /** The first article's stored slug is not its generated slug: after `automapper-a` the
      generated slug goes on with `n` (from "and"), the stored one with `v` (from
      "overposting"). */
  lemma AutoMapperSlugAt12()
    ensures |GenerateSlug(AutoMapperTitle)| > 12 && GenerateSlug(AutoMapperTitle)[12] == 'n'
  {
    AutoMapperTitleRuns(ToLower(AutoMapperTitle));
    SlugCharAfterFirstWord(AutoMapperTitle);
  }

  lemma AutoMapperStoredSlugDiffers()
    ensures GenerateSlug(AutoMapperTitle) != AutoMapperStoredSlug
    ensures |GenerateSlug(AutoMapperTitle)| > 12 && GenerateSlug(AutoMapperTitle)[12] == 'n'
  {
    AutoMapperSlugAt12();
    assert AutoMapperStoredSlug[12] == 'v';
  }

  lemma AlgoObserverTitleRuns(l: string)
    requires l == ToLower(AlgoObserverTitle)
    ensures forall i :: 0 <= i < 11 ==> IsSlugAlnum(l[i])
    ensures forall i :: 12 <= i < 16 ==> IsSlugAlnum(l[i])
    ensures forall i :: 17 <= i < 25 ==> IsSlugAlnum(l[i])
    ensures IsSeparator(l[11]) && IsSeparator(l[16]) && IsSeparator(l[25]) && IsSeparator(l[26])
    ensures IsSlugAlnum(l[27])
  {
  }

  /** A title that lower-cases to words at `[0, 11)`, `[12, 16)` and `[17, 25)`, with
      single separators at 11 and 16, two at 25 and 26 and a word from 27 on, has a slug of
      more than 26 characters. */
  lemma SlugLongerThanThreeWords(t: string)
    requires |t| > 27
    requires forall i :: 0 <= i < 11 ==> IsSlugAlnum(ToLower(t)[i])
    requires forall i :: 12 <= i < 16 ==> IsSlugAlnum(ToLower(t)[i])
    requires forall i :: 17 <= i < 25 ==> IsSlugAlnum(ToLower(t)[i])
    requires IsSeparator(ToLower(t)[11]) && IsSeparator(ToLower(t)[16])
    requires IsSeparator(ToLower(t)[25]) && IsSeparator(ToLower(t)[26])
    requires IsSlugAlnum(ToLower(t)[27])
    ensures |GenerateSlug(t)| > 26
  {
    var l := ToLower(t);
    var c := CollapseSeparators(l);
    assert l[0..] == l;
    var c2 := CollapseSeparators(l[12..]);
    var c3 := CollapseSeparators(l[17..]);
    var c4 := CollapseSeparators(l[27..]);
    CollapseWordThenGap(l, 0, 11, 12);
    CollapseWordThenGap(l, 12, 16, 17);
    CollapseWordThenGap(l, 17, 25, 27);
    assert c == l[0..11] + "-" + c2 && c2 == l[12..16] + "-" + c3 && c3 == l[17..25] + "-" + c4;
    CollapseSeparatorsShape(l[27..]);
    assert l[27..][0] == l[27];
    assert c4 != [] && c4[0] == l[27];
    assert c[26] == c2[14] && c2[14] == c3[9] && c3[9] == c4[0];
    assert c[0] == l[0];
    TrimHyphensKeepsPrefix(c, 26);
  }

  /** The second article's stored slug stops after "observer" (25 characters); the generated
      slug goes on into "learning", so it is longer. */
  lemma AlgoObserverStoredSlugDiffers()
    ensures GenerateSlug(AlgoObserverTitle) != AlgoObserverStoredSlug
    ensures |GenerateSlug(AlgoObserverTitle)| > 26 && |AlgoObserverStoredSlug| == 25
  {
    AlgoObserverTitleRuns(ToLower(AlgoObserverTitle));
    SlugLongerThanThreeWords(AlgoObserverTitle);
  }

  lemma StoredSlugsAreSegments()
    ensures AutoMapperStoredSlug != [] && '/' !in AutoMapperStoredSlug
    ensures AlgoObserverStoredSlug != [] && '/' !in AlgoObserverStoredSlug
  {
    assert forall k :: 0 <= k < |AlgoObserverStoredSlug| ==> AlgoObserverStoredSlug[k] != '/';
  }

  /** The first mock article; `content` keeps only the opening heading of its Markdown body. */
  const AutoMapperPost := BlogPost(
    1,
    AutoMapperTitle,
    "Learn how AutoMapper helps protect ASP.NET applications from overposting attacks by enforcing explicit data mapping and controlling what clients are allowed to modify.",
    "# AutoMapper and Overposting Attacks: Mapping Safely in ASP.NET\n",
    "Justin Ilić",
    "2026-02-12",
    "8 min read",
    "Security",
    "https://images.unsplash.com/photo-1555066931-4365d14bab8c?w=1200&q=80",
    ["AutoMapper", "ASP.NET", "Security", "Overposting", "Secure Coding"],
    AutoMapperStoredSlug)

  /** The second mock article; it carries the same `id` as the first. */
  const AlgoObserverPost := BlogPost(
    1,
    AlgoObserverTitle,
    "Algo.Observer is an early-stage project focused on making algorithms easier to understand through visualization, documentation, and experimentation.",
    "# Introducing Algo.Observer\n",
    "Justin Ilić",
    "2026-01-10",
    "4 min read",
    "Project",
    "https://images.unsplash.com/photo-1518770660439-4636190af475?w=1200&q=80",
    ["Algorithms", "Learning", "Visualization", "Education"],
    AlgoObserverStoredSlug)

  /** `mockBlogPosts`, as written: a constant array that nothing mutates. */
  const MockBlogPosts: seq<BlogPost> := [AutoMapperPost, AlgoObserverPost]

  /** No two positions of `posts` share an `id`. */
  predicate DistinctIds(posts: seq<BlogPost>) {
    forall i, j :: 0 <= i < j < |posts| ==> posts[i].id != posts[j].id
  }

  /** As written, both mock articles have `id` 1, so anything keyed by `id` collides. */
  lemma MockIdsCollide()
    ensures MockBlogPosts[0].id == MockBlogPosts[1].id == 1
    ensures !DistinctIds(MockBlogPosts)
  {
  }

  /** The store with the second article numbered 2, as the ids are evidently meant to be:
      the same articles in the same order, with distinct ids. */
  const NumberedBlogPosts: seq<BlogPost> := [AutoMapperPost, AlgoObserverPost.(id := 2)]

  lemma NumberedBlogPostsDistinct()
    ensures DistinctIds(NumberedBlogPosts)
    ensures |NumberedBlogPosts| == |MockBlogPosts|
    ensures forall i :: 0 <= i < |MockBlogPosts| ==> NumberedBlogPosts[i] == MockBlogPosts[i].(id := i + 1)
  {
  }

  lemma MockSlugsDistinct()
    ensures DistinctSlugs(MockBlogPosts)
  {
    TitleSlugsStart();
  }

  /** Neither stored slug is the generated slug of either title. */
  lemma StoredSlugsUnused()
    ensures forall i, j :: 0 <= i < |MockBlogPosts| && 0 <= j < |MockBlogPosts| ==>
              TitleSlug(MockBlogPosts[i]) != MockBlogPosts[j].slug
  {
    var g1 := GenerateSlug(AutoMapperTitle);
    var g2 := GenerateSlug(AlgoObserverTitle);
    var s1 := AutoMapperStoredSlug;
    var s2 := AlgoObserverStoredSlug;
    TitleSlugsStart();
    AutoMapperStoredSlugDiffers();
    AlgoObserverStoredSlugDiffers();
    assert s1[0] == 'a' && s2[0] == 'i';
    assert g1[0] != s2[0] && g2[0] != s1[0];
    forall i, j | 0 <= i < |MockBlogPosts| && 0 <= j < |MockBlogPosts|
      ensures TitleSlug(MockBlogPosts[i]) != MockBlogPosts[j].slug
    {
      assert TitleSlug(MockBlogPosts[i]) == if i == 0 then g1 else g2;
      assert MockBlogPosts[j].slug == if j == 0 then s1 else s2;
    }
  }
}
