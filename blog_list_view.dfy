/** The article list (src/app/components/blog-list-view.tsx): the search and category
    filter, the primary-category buttons, where each card links, how cards are keyed, and the
    author initials on each card. The search text and the selected category are inputs; the
    view recomputes everything from them on each render. */
module BlogListView {
  import opened Wrappers
  import opened Strings
  import opened Sequences
  import opened App
  import opened Slug
  import opened MockStore
  import opened Routes

  /** The search half of the filter: the lower-cased query occurs in the lower-cased title,
      the lower-cased excerpt, or some lower-cased tag. The query is not trimmed. */
  predicate MatchesSearch(post: BlogPost, query: string) {
    var q := ToLower(query);
    || IsSubstring(q, ToLower(post.title))
    || IsSubstring(q, ToLower(post.excerpt))
    || exists k :: 0 <= k < |post.tags| && IsSubstring(q, ToLower(post.tags[k]))
  }

  /** The category half: no selection (`null`), or the empty string, lets every post
      through; otherwise the post's category must start with the selection. */
  predicate MatchesCategory(post: BlogPost, selected: Option<string>) {
    selected.None? || selected.value == [] || StartsWith(post.category, selected.value)
  }

  predicate Keeps(post: BlogPost, query: string, selected: Option<string>) {
    MatchesSearch(post, query) && MatchesCategory(post, selected)
  }

  /** `filteredPosts`: the posts both halves accept, in their original order. */
  function FilteredPosts(posts: seq<BlogPost>, query: string, selected: Option<string>): (r: seq<BlogPost>)
    ensures IsSubsequence(r, posts)
    ensures forall i :: 0 <= i < |r| ==> Keeps(r[i], query, selected)
    ensures forall i :: 0 <= i < |posts| && Keeps(posts[i], query, selected) ==> posts[i] in r
  {
    if posts == [] then []
    else
      var rest := FilteredPosts(posts[1..], query, selected);
      assert forall i :: 1 <= i < |posts| ==> posts[i] == posts[1..][i - 1];
      if Keeps(posts[0], query, selected) then
        assert ([posts[0]] + rest)[1..] == rest;
        [posts[0]] + rest
      else
        rest
  }

  /** The filter keeps every copy of a post it accepts and no copy of one it rejects: with
      the subsequence property this fixes the result exactly, duplicates included. */
  lemma {:induction false} FilteredPostsKeepsEveryCopy(posts: seq<BlogPost>, query: string, selected: Option<string>, p: BlogPost)
    ensures multiset(FilteredPosts(posts, query, selected))[p]
              == if Keeps(p, query, selected) then multiset(posts)[p] else 0
  {
    if posts != [] {
      FilteredPostsKeepsEveryCopy(posts[1..], query, selected, p);
      assert posts == [posts[0]] + posts[1..];
    }
  }

  /** Only posts of the list come out, and never more of them than went in. */
  lemma FilteredPostsBounds(posts: seq<BlogPost>, query: string, selected: Option<string>)
    ensures |FilteredPosts(posts, query, selected)| <= |posts|
    ensures forall p :: p in FilteredPosts(posts, query, selected) ==> p in posts
  {
    SubsequenceBounds(FilteredPosts(posts, query, selected), posts);
  }

  /** Soundness, field by field: a kept post has the lower-cased query in its lower-cased
      title, excerpt or one of its tags, and starts with the selected category if there is one. */
  lemma FilteredPostsSound(posts: seq<BlogPost>, query: string, selected: Option<string>, p: BlogPost)
    requires p in FilteredPosts(posts, query, selected)
    ensures p in posts
    ensures || IsSubstring(ToLower(query), ToLower(p.title))
            || IsSubstring(ToLower(query), ToLower(p.excerpt))
            || exists k :: 0 <= k < |p.tags| && IsSubstring(ToLower(query), ToLower(p.tags[k]))
    ensures selected.Some? && selected.value != [] ==> StartsWith(p.category, selected.value)
  {
    FilteredPostsBounds(posts, query, selected);
  }

  /** With nothing typed and no category selected, the list shows every post, in order. */
  lemma {:induction false} EmptyQueryKeepsAll(posts: seq<BlogPost>)
    ensures FilteredPosts(posts, "", None) == posts
  {
    if posts != [] {
      EmptyIsSubstring(ToLower(posts[0].title));
      assert ToLower("") == "";
      EmptyQueryKeepsAll(posts[1..]);
      assert [posts[0]] + posts[1..] == posts;
    }
  }

  /** Typing only whitespace does not reset the search: the query is not trimmed, so it is
      blank by `trim` and yet keeps only posts whose title, excerpt or a tag contains that very
      whitespace. */
  lemma WhitespaceQueryNotTrimmed(posts: seq<BlogPost>, query: string, selected: Option<string>)
    requires query != [] && AllWhitespace(query)
    ensures Trim(query) == []
    ensures forall p :: p in FilteredPosts(posts, query, selected) ==>
              || IsSubstring(query, ToLower(p.title))
              || IsSubstring(query, ToLower(p.excerpt))
              || exists k :: 0 <= k < |p.tags| && IsSubstring(query, ToLower(p.tags[k]))
  {
    TrimEmptyIff(query);
    ToLowerOfLower(query);
  }

  /** The category text before the first `" / "`: `"Security / Web"` has primary category
      `"Security"`. */
  function PrimaryCategory(category: string): (r: string)
    ensures StartsWith(category, r)
    ensures r == category || OccursAt(" / ", category, |r|)
    ensures forall j :: 0 <= j < |r| ==> !OccursAt(" / ", category, j)
  {
    BeforeFirst(category, " / ")
  }

  /** `primaryCategories`: the primary category of each post, duplicates dropped, in the order
      the categories first appear. */
  function PrimaryCategories(posts: seq<BlogPost>): (r: seq<string>)
    ensures NoDuplicates(r)
    ensures forall c :: c in r <==> exists i :: 0 <= i < |posts| && PrimaryCategory(posts[i].category) == c
  {
    var all := seq(|posts|, i requires 0 <= i < |posts| => PrimaryCategory(posts[i].category));
    assert forall i :: 0 <= i < |posts| ==> all[i] == PrimaryCategory(posts[i].category);
    assert forall c :: c in all <==> exists i :: 0 <= i < |posts| && all[i] == c;
    Distinct(all)
  }

  /** The category buttons appear in the order their categories first occur among the posts. */
  lemma PrimaryCategoriesInFirstOccurrenceOrder(posts: seq<BlogPost>)
    ensures var all := seq(|posts|, i requires 0 <= i < |posts| => PrimaryCategory(posts[i].category));
            forall i, j :: 0 <= i < j < |PrimaryCategories(posts)| ==>
              FirstIndex(all, PrimaryCategories(posts)[i]) < FirstIndex(all, PrimaryCategories(posts)[j])
  {
    var all := seq(|posts|, i requires 0 <= i < |posts| => PrimaryCategory(posts[i].category));
    DistinctKeepsFirstOccurrenceOrder(all);
  }

  /** Every category button keeps every post of its category that the search accepts: the
      button's text is a prefix of each such post's category. */
  lemma CategoryButtonKeepsItsPosts(posts: seq<BlogPost>, query: string, i: int)
    requires 0 <= i < |posts| && MatchesSearch(posts[i], query)
    ensures PrimaryCategory(posts[i].category) in PrimaryCategories(posts)
    ensures posts[i] in FilteredPosts(posts, query, Some(PrimaryCategory(posts[i].category)))
  {
  }

  /** Following a card's link shows an article with the same title slug; when the slugs of
      the store are distinct, it shows exactly that card's article. A title with no letter or
      digit slugs to the empty string, and its card links to `/blog/`, which matches nothing. */
  lemma CardLinkOpensPost(posts: seq<BlogPost>, i: int)
    requires 0 <= i < |posts|
    ensures TitleSlug(posts[i]) != [] ==>
              Render(posts, PostPath(posts[i])).PostPage?
              && TitleSlug(Render(posts, PostPath(posts[i])).post) == TitleSlug(posts[i])
    ensures TitleSlug(posts[i]) != [] && DistinctSlugs(posts) ==>
              Render(posts, PostPath(posts[i])) == PostPage(posts[i])
    ensures TitleSlug(posts[i]) == [] ==> Render(posts, PostPath(posts[i])) == NoMatch
  {
    var s := TitleSlug(posts[i]);
    if s != [] {
      SlugHasNoSlash(posts[i].title);
      RenderBlogPath(posts, s);
      if DistinctSlugs(posts) {
        FindPostBySlugExact(posts, i);
      }
    } else {
      assert PostPath(posts[i]) == "/blog/";
      BareBlogPathMatchesNothing(posts);
    }
  }

  /** `/blog/` has an empty second segment, which `:slug` does not match. */
  lemma BareBlogPathMatchesNothing(posts: seq<BlogPost>)
    ensures Render(posts, "/blog/") == NoMatch
  {
    assert "/blog/"[1..] == "blog" + ['/'] + [];
    SplitOnAfterPiece("blog", '/', []);
    assert SplitOn([], '/') == [[]];
    assert SplitOn("/blog/"[1..], '/') == ["blog", []];
    assert PathSegments("/blog/") == Some(["blog", []]);
  }

  /** The React key of each card: the post's `id`. */
  function CardKeys(posts: seq<BlogPost>): (r: seq<int>)
    ensures |r| == |posts|
    ensures forall i :: 0 <= i < |r| ==> r[i] == posts[i].id
  {
    seq(|posts|, i requires 0 <= i < |posts| => posts[i].id)
  }

  /** As written, the unfiltered list of the mock store gives both cards the key 1. */
  lemma MockCardKeysCollide()
    ensures CardKeys(FilteredPosts(MockBlogPosts, "", None)) == [1, 1]
    ensures !NoDuplicates(CardKeys(FilteredPosts(MockBlogPosts, "", None)))
  {
    EmptyQueryKeepsAll(MockBlogPosts);
    MockIdsCollide();
  }

  /** With distinct ids in the store, the cards of every filtered list have distinct keys. */
  lemma {:induction false} CardKeysDistinct(posts: seq<BlogPost>, query: string, selected: Option<string>)
    requires DistinctIds(posts)
    ensures NoDuplicates(CardKeys(FilteredPosts(posts, query, selected)))
  {
    if posts != [] {
      var rest := FilteredPosts(posts[1..], query, selected);
      assert DistinctIds(posts[1..]) by {
        assert forall i :: 0 <= i < |posts[1..]| ==> posts[1..][i] == posts[i + 1];
      }
      CardKeysDistinct(posts[1..], query, selected);
      if Keeps(posts[0], query, selected) {
        FilteredPostsBounds(posts[1..], query, selected);
        forall p | p in rest
          ensures p.id != posts[0].id
        {
          var k :| 0 <= k < |posts[1..]| && posts[1..][k] == p;
          assert posts[k + 1] == p;
        }
        var r := [posts[0]] + rest;
        assert FilteredPosts(posts, query, selected) == r;
        forall i, j | 0 <= i < j < |r|
          ensures r[i].id != r[j].id
        {
          assert r[j] == rest[j - 1] && r[j] in rest;
          if i > 0 {
            assert r[i] == rest[i - 1];
            assert CardKeys(rest)[i - 1] != CardKeys(rest)[j - 1];
          }
        }
      }
    }
  }

  /** The store with distinct ids keys every filtered list of cards without collision. */
  lemma NumberedCardKeysDistinct(query: string, selected: Option<string>)
    ensures NoDuplicates(CardKeys(FilteredPosts(NumberedBlogPosts, query, selected)))
  {
    NumberedBlogPostsDistinct();
    CardKeysDistinct(NumberedBlogPosts, query, selected);
  }

  /** The first character of each word, with the empty words between repeated spaces
      contributing nothing (`n[0]` is `undefined` there, and `join` writes it as `""`). */
  function FirstLetters(words: seq<string>): (r: string)
    ensures |r| <= |words|
  {
    if words == [] then []
    else (if words[0] == [] then [] else [words[0][0]]) + FirstLetters(words[1..])
  }

  /** `author.split(" ").map((n) => n[0]).join("")`. The article page computes the author's
      initials with the same expression. */
  function Initials(author: string): (r: string)
    ensures |r| <= |author|
  {
    FirstLettersOfSplit(author);
    FirstLetters(SplitOn(author, ' '))
  }

  /** The characters of `s` that begin a word: not a space, and first or after a space.
      `afterSpace` says whether the character before `s` was a space (or there was none). */
  function WordStarts(s: string, afterSpace: bool): (r: string)
    ensures |r| <= |s|
  {
    if s == [] then []
    else (if afterSpace && s[0] != ' ' then [s[0]] else []) + WordStarts(s[1..], s[0] == ' ')
  }

  /** Splitting on spaces and taking the first letters picks exactly the word starts; after
      the first piece, it picks the word starts of a string not preceded by a space. */
  lemma {:induction false} FirstLettersOfSplit(s: string)
    ensures FirstLetters(SplitOn(s, ' ')) == WordStarts(s, true)
    ensures FirstLetters(SplitOn(s, ' ')[1..]) == WordStarts(s, false)
  {
    if s != [] {
      var rest := SplitOn(s[1..], ' ');
      FirstLettersOfSplit(s[1..]);
      if s[0] == ' ' {
        assert SplitOn(s, ' ') == [[]] + rest;
        assert ([[]] + rest)[1..] == rest;
      } else {
        var r := [[s[0]] + rest[0]] + rest[1..];
        assert SplitOn(s, ' ') == r;
        assert r[1..] == rest[1..];
        if |rest| > 1 {
          assert rest[1..][1..] == rest[2..];
        }
        assert FirstLetters(rest) == (if rest[0] == [] then [] else [rest[0][0]]) + FirstLetters(rest[1..]);
      }
    }
  }

  /** The initials are the first characters of the non-empty space-separated words, in order:
      `"Justin Ilić"` gives `"JI"`, and extra spaces add nothing. */
  lemma InitialsAreWordStarts(author: string)
    ensures Initials(author) == WordStarts(author, true)
    ensures forall i :: 0 <= i < |Initials(author)| ==> Initials(author)[i] != ' '
  {
    FirstLettersOfSplit(author);
    WordStartsHaveNoSpace(author, true);
  }

  lemma {:induction false} WordStartsHaveNoSpace(s: string, afterSpace: bool)
    ensures forall i :: 0 <= i < |WordStarts(s, afterSpace)| ==> WordStarts(s, afterSpace)[i] != ' '
  {
    if s != [] {
      WordStartsHaveNoSpace(s[1..], s[0] == ' ');
    }
  }
}
