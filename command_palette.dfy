/** The command palette (src/app/components/command-palette.tsx): the entries it offers,
    how a query narrows them, and the highlighted-entry cursor moved by the arrow keys, reset
    by the effects and read by Enter. */
module CommandPalette {
  import opened Wrappers
  import opened Strings
  import opened Sequences
  import opened App
  import opened MockStore

  /** What an entry does when chosen: `onNavigate(page)` or `onPostSelect(post)`, each
      followed by `onClose()`. */
  datatype Action = Navigate(page: string) | SelectPost(post: BlogPost)

  /** The callbacks the palette hands its owner. */
  datatype Callback = OnNavigate(page: string) | OnPostSelect(post: BlogPost) | OnClose

  /** The calls an entry's `action` makes, in order. */
  function Calls(a: Action): (r: seq<Callback>)
    ensures |r| == 2 && r[1] == OnClose
    ensures a.Navigate? ==> r[0] == OnNavigate(a.page)
    ensures a.SelectPost? ==> r[0] == OnPostSelect(a.post)
  {
    match a
    case Navigate(page) => [OnNavigate(page), OnClose]
    case SelectPost(post) => [OnPostSelect(post), OnClose]
  }

  datatype ResultKind = PageKind | PostKind

  /** An entry's `id`: a page's name, or a post's numeric `id` (whose decimal text the
      source uses; only its identity matters here). */
  datatype ResultId = PageId(name: string) | PostId(number: int)

  /** One entry of the palette. Every entry has a subtitle. */
  datatype SearchResult = SearchResult(kind: ResultKind, id: ResultId, title: string, subtitle: string, action: Action)

  /** The React key of an entry: its kind and its id. */
  function ResultKey(r: SearchResult): (ResultKind, ResultId) {
    (r.kind, r.id)
  }

  function PageResult(name: string, title: string, subtitle: string): SearchResult {
    SearchResult(PageKind, PageId(name), title, subtitle, Navigate(name))
  }

  /** `pages`: the four fixed entries. */
  const Pages: seq<SearchResult> := [
    PageResult("home", "Home", "View all blog posts"),
    PageResult("resume", "Resume", "View experience and skills"),
    PageResult("certifications", "Certifications", "View professional certifications"),
    PageResult("contact", "Contact", "Get in touch")
  ]

  /** The entry for one post: its title, with the excerpt as subtitle. */
  function PostResult(post: BlogPost): SearchResult {
    SearchResult(PostKind, PostId(post.id), post.title, post.excerpt, SelectPost(post))
  }

  /** `postResults`: one entry per post, in order. */
  function PostResults(posts: seq<BlogPost>): (r: seq<SearchResult>)
    ensures |r| == |posts|
    ensures forall i :: 0 <= i < |posts| ==> r[i] == PostResult(posts[i])
  {
    seq(|posts|, i requires 0 <= i < |posts| => PostResult(posts[i]))
  }

  /** `allResults`: the pages, then the posts. */
  function AllResults(posts: seq<BlogPost>): seq<SearchResult> {
    Pages + PostResults(posts)
  }

  /** The palette lists home, resume, certifications and contact, in that order, then one
      entry per post in the order of `posts`; each page entry navigates to its own name and
      each post entry selects its own post. */
  lemma AllResultsLayout(posts: seq<BlogPost>)
    ensures |AllResults(posts)| == 4 + |posts|
    ensures AllResults(posts)[0].action == Navigate("home")
    ensures AllResults(posts)[1].action == Navigate("resume")
    ensures AllResults(posts)[2].action == Navigate("certifications")
    ensures AllResults(posts)[3].action == Navigate("contact")
    ensures forall i :: 0 <= i < 4 ==> AllResults(posts)[i].kind == PageKind
    ensures forall i :: 0 <= i < |posts| ==>
              AllResults(posts)[4 + i].action == SelectPost(posts[i])
              && AllResults(posts)[4 + i].title == posts[i].title
              && AllResults(posts)[4 + i].subtitle == posts[i].excerpt
  {
  }

  /** Every entry, whatever it does first, ends by closing the palette. */
  lemma EveryActionCloses(posts: seq<BlogPost>, i: int)
    requires 0 <= i < |AllResults(posts)|
    ensures Calls(AllResults(posts)[i].action)[1] == OnClose
    ensures i < 4 ==> Calls(AllResults(posts)[i].action)[0].OnNavigate?
    ensures i >= 4 ==> Calls(AllResults(posts)[i].action)[0] == OnPostSelect(posts[i - 4])
  {
    AllResultsLayout(posts);
  }

  /** The two mock posts share `id` 1, so their palette entries share the key `post-1`. */
  lemma MockPaletteKeysCollide()
    ensures ResultKey(AllResults(MockBlogPosts)[4]) == ResultKey(AllResults(MockBlogPosts)[5])
  {
    MockIdsCollide();
  }

  /** The filter test: the lower-cased query occurs in the lower-cased title or subtitle. */
  predicate MatchesQuery(r: SearchResult, query: string) {
    IsSubstring(ToLower(query), ToLower(r.title)) || IsSubstring(ToLower(query), ToLower(r.subtitle))
  }

  /** `allResults.filter(...)`: the entries that match, in order. */
  function Matching(results: seq<SearchResult>, query: string): (r: seq<SearchResult>)
    ensures IsSubsequence(r, results)
    ensures forall i :: 0 <= i < |r| ==> MatchesQuery(r[i], query)
    ensures forall i :: 0 <= i < |results| && MatchesQuery(results[i], query) ==> results[i] in r
  {
    if results == [] then []
    else
      var rest := Matching(results[1..], query);
      assert forall i :: 1 <= i < |results| ==> results[i] == results[1..][i - 1];
      if MatchesQuery(results[0], query) then
        assert ([results[0]] + rest)[1..] == rest;
        [results[0]] + rest
      else
        rest
  }

  /** The filter keeps every copy of a matching entry and no copy of any other: with the
      subsequence property this fixes the result exactly, duplicates included. */
  lemma {:induction false} MatchingKeepsEveryCopy(results: seq<SearchResult>, query: string, e: SearchResult)
    ensures multiset(Matching(results, query))[e] == if MatchesQuery(e, query) then multiset(results)[e] else 0
  {
    if results != [] {
      MatchingKeepsEveryCopy(results[1..], query, e);
      assert results == [results[0]] + results[1..];
    }
  }

  /** The most entries the palette shows. */
  const MaxResults := 8

  /** `filteredResults`: with a blank query (blank after `trim`), the first eight entries;
      otherwise the first eight entries that match the query as typed, untrimmed. */
  function FilteredResults(posts: seq<BlogPost>, query: string): (r: seq<SearchResult>)
    ensures |r| <= MaxResults
    ensures IsSubsequence(r, AllResults(posts))
    ensures Trim(query) == [] ==> r == Take(AllResults(posts), MaxResults)
    ensures Trim(query) != [] ==> r == Take(Matching(AllResults(posts), query), MaxResults)
    ensures Trim(query) != [] ==> forall i :: 0 <= i < |r| ==> MatchesQuery(r[i], query)
    ensures Trim(query) != [] && |r| < MaxResults ==>
              forall i :: 0 <= i < |AllResults(posts)| && MatchesQuery(AllResults(posts)[i], query) ==>
                AllResults(posts)[i] in r
  {
    if Trim(query) == [] then
      SubsequenceOfSelf(AllResults(posts));
      PrefixOfSubsequence(AllResults(posts), AllResults(posts), MaxResults);
      Take(AllResults(posts), MaxResults)
    else
      var m := Matching(AllResults(posts), query);
      PrefixOfSubsequence(m, AllResults(posts), MaxResults);
      Take(m, MaxResults)
  }

  /** What the filter can see of an entry: its title and subtitle. */
  function Labels(results: seq<SearchResult>): (r: seq<(string, string)>)
    ensures |r| == |results|
    ensures forall i :: 0 <= i < |results| ==> r[i] == (results[i].title, results[i].subtitle)
  {
    seq(|results|, i requires 0 <= i < |results| => (results[i].title, results[i].subtitle))
  }

  lemma {:induction false} MatchingSeesOnlyLabels(a: seq<SearchResult>, b: seq<SearchResult>, query: string)
    requires Labels(a) == Labels(b)
    ensures Labels(Matching(a, query)) == Labels(Matching(b, query))
  {
    if a != [] {
      assert Labels(a[1..]) == Labels(b[1..]) by {
        assert forall i :: 0 <= i < |a[1..]| ==> Labels(a[1..])[i] == Labels(a)[i + 1];
        assert forall i :: 0 <= i < |b[1..]| ==> Labels(b[1..])[i] == Labels(b)[i + 1];
      }
      MatchingSeesOnlyLabels(a[1..], b[1..], query);
      assert Labels(a)[0] == Labels(b)[0];
      var ra := Matching(a[1..], query);
      var rb := Matching(b[1..], query);
      if MatchesQuery(a[0], query) {
        assert Labels([a[0]] + ra) == [Labels(a)[0]] + Labels(ra);
        assert Labels([b[0]] + rb) == [Labels(b)[0]] + Labels(rb);
      }
    }
  }

  /** Only titles and excerpts are searched: two post lists that agree on those show entries
      with the same titles and subtitles for every query, whatever their tags and content. */
  lemma TagsAndContentNotSearched(posts1: seq<BlogPost>, posts2: seq<BlogPost>, query: string)
    requires |posts1| == |posts2|
    requires forall i :: 0 <= i < |posts1| ==>
               posts1[i].title == posts2[i].title && posts1[i].excerpt == posts2[i].excerpt
    ensures Labels(FilteredResults(posts1, query)) == Labels(FilteredResults(posts2, query))
  {
    var a := AllResults(posts1);
    var b := AllResults(posts2);
    AllResultsLayout(posts1);
    AllResultsLayout(posts2);
    assert Labels(a) == Labels(b);
    var fa := FilteredResults(posts1, query);
    var fb := FilteredResults(posts2, query);
    if Trim(query) != [] {
      MatchingSeesOnlyLabels(a, b, query);
      var ma := Matching(a, query);
      var mb := Matching(b, query);
      assert fa == Take(ma, MaxResults) && fb == Take(mb, MaxResults);
      assert |ma| == |Labels(ma)| == |Labels(mb)| == |mb|;
      forall i | 0 <= i < |fa|
        ensures Labels(fa)[i] == Labels(fb)[i]
      {
        assert Labels(ma)[i] == Labels(mb)[i];
      }
    }
  }

  /** The highlighted position: a number, or JavaScript's `NaN`, which `x % 0` produces. */
  datatype Cursor = At(index: int) | NotANumber

  /** JavaScript's `a % n` for a length `n`: `NaN` when `n` is 0; otherwise the remainder of
      division truncated toward zero, which takes the sign of `a`. */
  function JsRemainder(a: int, n: nat): (r: Cursor)
    ensures r.NotANumber? <==> n == 0
    ensures r.At? ==> -(n as int) < r.index < n && (a - r.index) % n == 0
    ensures r.At? && a >= 0 ==> 0 <= r.index
    ensures r.At? && a <= 0 ==> r.index <= 0
  {
    if n == 0 then NotANumber
    else if a >= 0 then
      ModUnique(a - a % n, n, a / n, 0);
      At(a % n)
    else
      ModUnique(a + (-a) % n, n, -((-a) / n), 0);
      At(-((-a) % n))
  }

  lemma MulAtLeast(q: int, n: int)
    requires q >= 1 && n > 0
    ensures n * q >= n
    decreases q
  {
    if q > 1 {
      MulAtLeast(q - 1, n);
      assert n * q == n * (q - 1) + n;
    }
  }

  lemma MulAtMost(q: int, n: int)
    requires q <= -1 && n > 0
    ensures n * q <= -n
    decreases -q
  {
    if q < -1 {
      MulAtMost(q + 1, n);
      assert n * q == n * (q + 1) - n;
    }
  }

  /** Quotient and remainder are determined: `a == n * q + r` with `0 <= r < n` fixes both. */
  lemma ModUnique(a: int, n: int, q: int, r: int)
    requires n > 0 && 0 <= r < n && a == n * q + r
    ensures a % n == r && a / n == q
  {
    var q' := a / n;
    var r' := a % n;
    assert a == n * q' + r';
    assert n * (q - q') == r' - r;
    if q - q' >= 1 {
      MulAtLeast(q - q', n);
    }
    if q - q' <= -1 {
      MulAtMost(q - q', n);
    }
  }

  /** The cursor is on an entry of a list of `n` entries. */
  predicate InRange(c: Cursor, n: nat) {
    c.At? && 0 <= c.index < n
  }

  /** ArrowDown: `(prev + 1) % n`; `NaN` stays `NaN`. */
  function NextIndex(c: Cursor, n: nat): Cursor {
    match c
    case NotANumber => NotANumber
    case At(i) => JsRemainder(i + 1, n)
  }

  /** ArrowUp: `(prev - 1 + n) % n`; `NaN` stays `NaN`. */
  function PrevIndex(c: Cursor, n: nat): Cursor {
    match c
    case NotANumber => NotANumber
    case At(i) => JsRemainder(i - 1 + n, n)
  }

  /** On a non-empty list both arrows keep the cursor on an entry: down moves one on and
      wraps from the last entry to the first, up moves one back and wraps from the first to
      the last. */
  lemma ArrowsStayInRange(c: Cursor, n: nat)
    requires InRange(c, n)
    ensures InRange(NextIndex(c, n), n) && InRange(PrevIndex(c, n), n)
    ensures NextIndex(c, n) == if c.index == n - 1 then At(0) else At(c.index + 1)
    ensures PrevIndex(c, n) == if c.index == 0 then At(n - 1) else At(c.index - 1)
  {
    var i := c.index;
    if i == n - 1 {
      ModUnique(i + 1, n, 1, 0);
    } else {
      ModUnique(i + 1, n, 0, i + 1);
    }
    if i == 0 {
      ModUnique(i - 1 + n, n, 0, n - 1);
    } else {
      ModUnique(i - 1 + n, n, 1, i - 1);
    }
  }

  /** On an empty list either arrow turns the cursor into `NaN`, and it stays there. */
  lemma ArrowsOnEmptyList(c: Cursor)
    ensures NextIndex(c, 0) == NotANumber && PrevIndex(c, 0) == NotANumber
  {
  }

  /** `k` presses of ArrowDown. */
  function Downs(c: Cursor, n: nat, k: nat): Cursor {
    if k == 0 then c else NextIndex(Downs(c, n, k - 1), n)
  }

  /** `k` presses of ArrowDown move the cursor `k` places on, modulo `n`. */
  lemma {:induction false} DownsAdvance(i: int, n: nat, k: nat)
    requires 0 <= i < n
    ensures Downs(At(i), n, k) == At((i + k) % n)
    decreases k
  {
    if k > 0 {
      DownsAdvance(i, n, k - 1);
      var j := (i + k - 1) % n;
      ArrowsStayInRange(At(j), n);
      ModSuccessor(i + k - 1, n);
    }
  }

  lemma ModSuccessor(a: nat, n: nat)
    requires n > 0
    ensures (a % n + 1) % n == (a + 1) % n
  {
    if a % n + 1 < n {
      ModUnique(a + 1, n, a / n, a % n + 1);
      ModUnique(a % n + 1, n, 0, a % n + 1);
    } else {
      ModUnique(a + 1, n, a / n + 1, 0);
      ModUnique(a % n + 1, n, 1, 0);
    }
  }

  /** Pressing ArrowDown once per entry brings the cursor back where it started. */
  lemma FullCircle(i: int, n: nat)
    requires 0 <= i < n
    ensures Downs(At(i), n, n) == At(i)
  {
    DownsAdvance(i, n, n);
    ModUnique(i + n, n, 1, i);
  }

  /** What Enter activates: the action of the entry at the cursor, when there is one there. */
  function EntryAt(results: seq<SearchResult>, c: Cursor): (r: Option<Action>)
    ensures r.Some? <==> InRange(c, |results|)
    ensures r.Some? ==> r.value == results[c.index].action
  {
    if InRange(c, |results|) then Some(results[c.index].action) else None
  }

  /** The palette's own state: the query typed and the highlighted position. `posts` is fixed
      for the life of the palette. Whether it is open belongs to its owner and is passed in. */
  class Palette {
    const posts: seq<BlogPost>
    var query: string
    var selectedIndex: Cursor

    /** The entries shown for the current query. */
    function Results(): seq<SearchResult>
      reads this
    {
      FilteredResults(posts, query)
    }

    /** The cursor is a position into the shown entries, or sits at 0 or `NaN` when there are
        none. */
    predicate Valid()
      reads this
    {
      match selectedIndex
      case At(i) => 0 <= i && (i < |Results()| || i == 0)
      case NotANumber => |Results()| == 0
    }

    constructor(posts: seq<BlogPost>)
      ensures this.posts == posts && query == "" && selectedIndex == At(0)
      ensures Valid()
    {
      this.posts := posts;
      query := "";
      selectedIndex := At(0);
    }

    /** The effect that runs when the palette opens: the query is cleared and the cursor goes
        back to the first entry. */
    method Opened()
      modifies this
      ensures query == "" && selectedIndex == At(0)
      ensures Valid()
    {
      query := "";
      selectedIndex := At(0);
    }

    /** Typing: the query is replaced, and the effect on `query` puts the cursor back on the
        first entry. */
    method SetQuery(q: string)
      modifies this
      ensures query == q && selectedIndex == At(0)
      ensures Valid()
    {
      query := q;
      selectedIndex := At(0);
    }

    /** Hovering over the entry at `index` highlights it. */
    method Hover(index: int)
      requires 0 <= index < |Results()|
      modifies this
      ensures query == old(query) && selectedIndex == At(index)
      ensures Valid()
    {
      selectedIndex := At(index);
    }

    /** The palette's key handler. Closed, it ignores every key. Open, the arrows move the
        cursor over the shown entries and Enter returns the highlighted entry's action, if
        the cursor is on an entry; the owner then runs it. */
    method KeyDown(key: string, isOpen: bool) returns (activated: Option<Action>)
      requires Valid()
      modifies this
      ensures query == old(query) && Valid()
      ensures !isOpen ==> selectedIndex == old(selectedIndex) && activated == None
      ensures isOpen && key == "ArrowDown" ==>
                selectedIndex == NextIndex(old(selectedIndex), |Results()|) && activated == None
      ensures isOpen && key == "ArrowUp" ==>
                selectedIndex == PrevIndex(old(selectedIndex), |Results()|) && activated == None
      ensures isOpen && key == "Enter" ==>
                selectedIndex == old(selectedIndex) && activated == EntryAt(Results(), selectedIndex)
      ensures key != "ArrowDown" && key != "ArrowUp" && key != "Enter" ==>
                selectedIndex == old(selectedIndex) && activated == None
    {
      activated := None;
      if !isOpen {
        return;
      }
      var n := |Results()|;
      if key == "ArrowDown" {
        if selectedIndex.At? && n > 0 {
          ArrowsStayInRange(selectedIndex, n);
        }
        selectedIndex := NextIndex(selectedIndex, n);
      } else if key == "ArrowUp" {
        if selectedIndex.At? && n > 0 {
          ArrowsStayInRange(selectedIndex, n);
        }
        selectedIndex := PrevIndex(selectedIndex, n);
      } else if key == "Enter" {
        activated := EntryAt(Results(), selectedIndex);
      }
    }
  }

  /** With the cursor valid and at least one entry shown, Enter always activates an entry. */
  lemma EnterOnNonEmptyList(results: seq<SearchResult>, c: Cursor)
    requires |results| > 0
    requires c.At? && 0 <= c.index && (c.index < |results| || c.index == 0)
    ensures EntryAt(results, c).Some?
  {
  }
}
