/** The article page (src/app/components/blog-post-view.tsx): the anchor ids of its headings,
    how a code element is rendered, the author's initials, the URL handed to the share popover,
    and the copy button of a code block. */
module BlogPostView {
  import opened Wrappers
  import opened Strings
  import opened App
  import opened Slug
  import opened MockStore
  import opened Routes
  import BlogListView

  // Heading anchors

  /** `replace(/\s+/g, "-")`: every maximal run of whitespace becomes one `-`. */
  function DashRuns(s: string): string
    decreases |s|
  {
    if s == [] then []
    else if IsWhitespace(s[0]) then
      TrimStartSpec(s[1..]);
      "-" + DashRuns(TrimStart(s[1..]))
    else [s[0]] + DashRuns(s[1..])
  }

  /** The `id` of an `h1`, `h2` or `h3`: the heading's text, lower-cased, with every run of
      whitespace turned into one `-`. The three heading levels share this one transform. */
  function HeadingId(text: string): string {
    DashRuns(ToLower(text))
  }

  predicate NoWhitespace(s: string) {
    forall i :: 0 <= i < |s| ==> !IsWhitespace(s[i])
  }

  /** A word (no whitespace) is copied as it is. */
  lemma {:induction false} DashRunsWord(u: string, t: string)
    requires NoWhitespace(u)
    ensures DashRuns(u + t) == u + DashRuns(t)
  {
    if u == [] {
      assert u + t == t;
    } else {
      DashRunsWord(u[1..], t);
      assert (u + t)[0] == u[0];
      assert (u + t)[1..] == u[1..] + t;
      assert [u[0]] + u[1..] == u;
    }
  }

  /** A whole run of whitespace becomes a single `-`. */
  lemma DashRunsGap(g: string, v: string)
    requires g != [] && AllWhitespace(g) && (v == [] || !IsWhitespace(v[0]))
    ensures DashRuns(g + v) == "-" + DashRuns(v)
  {
    assert (g + v)[1..] == g[1..] + v;
    TrimStartDropsRun(g[1..], v);
  }

  /** The transform leaves no whitespace behind. */
  lemma {:induction false} DashRunsNoWhitespace(s: string)
    ensures NoWhitespace(DashRuns(s))
    decreases |s|
  {
    if s != [] {
      if IsWhitespace(s[0]) {
        TrimStartSpec(s[1..]);
        DashRunsNoWhitespace(TrimStart(s[1..]));
      } else {
        DashRunsNoWhitespace(s[1..]);
      }
    }
  }

  /** The transform adds no upper-case letter. */
  lemma {:induction false} DashRunsNoUpper(s: string)
    requires forall i :: 0 <= i < |s| ==> !IsAsciiUpper(s[i])
    ensures forall i :: 0 <= i < |DashRuns(s)| ==> !IsAsciiUpper(DashRuns(s)[i])
    decreases |s|
  {
    if s != [] {
      if IsWhitespace(s[0]) {
        TrimStartSpec(s[1..]);
        var t := TrimStart(s[1..]);
        assert forall i :: 0 <= i < |t| ==> t[i] == s[1..][|s[1..]| - |t| + i];
        DashRunsNoUpper(t);
      } else {
        DashRunsNoUpper(s[1..]);
      }
    }
  }

  /** Anchor ids hold no whitespace and no upper-case letter, and computing the id of an id
      gives it back. */
  lemma HeadingIdShape(text: string)
    ensures NoWhitespace(HeadingId(text))
    ensures forall i :: 0 <= i < |HeadingId(text)| ==> !IsAsciiUpper(HeadingId(text)[i])
    ensures HeadingId(HeadingId(text)) == HeadingId(text)
  {
    var id := HeadingId(text);
    DashRunsNoWhitespace(ToLower(text));
    DashRunsNoUpper(ToLower(text));
    ToLowerOfLower(id);
    DashRunsWord(id, []);
    assert id + [] == id;
  }

  // Code elements

  /** The `\w` class: ASCII letters, digits and `_`. */
  predicate IsWordChar(c: char) {
    'a' <= c <= 'z' || 'A' <= c <= 'Z' || '0' <= c <= '9' || c == '_'
  }

  /** The longest prefix of `s` made of word characters: what the greedy `(\w+)` captures. */
  function WordRun(s: string): (r: string)
    ensures |r| <= |s| && r == s[..|r|]
    ensures forall i :: 0 <= i < |r| ==> IsWordChar(r[i])
    ensures |r| == |s| || !IsWordChar(s[|r|])
  {
    if s != [] && IsWordChar(s[0]) then [s[0]] + WordRun(s[1..]) else []
  }

  const LanguagePrefix := "language-"

  /** `/language-(\w+)/` matches at index `i`: the prefix, then at least one word character. */
  predicate LanguageAt(s: string, i: int) {
    0 <= i && i + |LanguagePrefix| < |s|
    && s[i..i + |LanguagePrefix|] == LanguagePrefix && IsWordChar(s[i + |LanguagePrefix|])
  }

  /** The leftmost match at or after `from`. */
  function FirstLanguageAt(s: string, from: nat): (r: Option<nat>)
    decreases |s| - from
    ensures r.None? ==> forall i :: from <= i ==> !LanguageAt(s, i)
    ensures r.Some? ==> from <= r.value && LanguageAt(s, r.value)
    ensures r.Some? ==> forall i :: from <= i < r.value ==> !LanguageAt(s, i)
  {
    if from + |LanguagePrefix| >= |s| then None
    else if LanguageAt(s, from) then Some(from)
    else FirstLanguageAt(s, from + 1)
  }

  /** `className || ""`. */
  function ClassText(className: Option<string>): string {
    className.GetOr([])
  }

  /** `match[1]` of `/language-(\w+)/.exec(className || "")`: the word characters after the
      leftmost `language-` that is followed by one, or no match. */
  function Language(className: Option<string>): (r: Option<string>)
    ensures r.None? <==> forall i :: !LanguageAt(ClassText(className), i)
    ensures r.Some? ==> r.value != [] && forall k :: 0 <= k < |r.value| ==> IsWordChar(r.value[k])
    ensures r.Some? ==> exists i ::
              (&& LanguageAt(ClassText(className), i)
               && (forall j :: 0 <= j < i ==> !LanguageAt(ClassText(className), j))
               && r.value == WordRun(ClassText(className)[i + |LanguagePrefix|..]))
  {
    var s := ClassText(className);
    match FirstLanguageAt(s, 0)
    case None => None
    case Some(i) => Some(WordRun(s[i + |LanguagePrefix|..]))
  }

  /** The capture stops at the first character outside `\w`. */
  lemma LanguageOfCpp()
    ensures Language(Some("language-c++")) == Some("c")
  {
    var s := "language-c++";
    assert LanguageAt(s, 0);
    assert WordRun(s[9..]) == "c";
  }

  /** `String(children).replace(/\n$/, "")`: one final line feed is dropped, if there is
      one; nothing else changes. */
  function StripFinalNewline(s: string): (r: string)
    ensures s != [] && s[|s| - 1] == '\n' ==> s == r + "\n"
    ensures s == [] || s[|s| - 1] != '\n' ==> r == s
  {
    if s != [] && s[|s| - 1] == '\n' then s[..|s| - 1] else s
  }

  /** What a code element becomes: a highlighted block with its language and a copy button,
      or the element as it came. */
  datatype CodeView = Fenced(language: string, code: string) | Plain(className: Option<string>, text: string)

  /** The `code` renderer: a block exactly when the element is not inline and its class names a
      language; the block shows and copies the text without its final line feed, and the plain
      element keeps its class and its text untouched. */
  function RenderCode(inline: bool, className: Option<string>, children: string): (r: CodeView)
    ensures r.Fenced? <==> !inline && exists i :: LanguageAt(ClassText(className), i)
    ensures r.Fenced? ==> Some(r.language) == Language(className) && r.code == StripFinalNewline(children)
    ensures r.Plain? ==> r.className == className && r.text == children
  {
    var codeString := StripFinalNewline(children);
    match Language(className)
    case Some(language) => if !inline then Fenced(language, codeString) else Plain(className, children)
    case None => Plain(className, children)
  }

  /** A block shows its text as written before the final line feed the Markdown parser adds. */
  lemma FencedCodeRoundTrip(className: Option<string>, code: string)
    requires RenderCode(false, className, code + "\n").Fenced?
    ensures RenderCode(false, className, code + "\n").code == code
  {
    assert (code + "\n")[..|code|] == code;
  }

  // The header

  /** The initials over the author's name: the first character of every word, as on the
      cards of the list. */
  function AuthorInitials(post: BlogPost): (r: string)
    ensures r == BlogListView.WordStarts(post.author, true)
    ensures forall i :: 0 <= i < |r| ==> r[i] != ' '
  {
    BlogListView.InitialsAreWordStarts(post.author);
    BlogListView.Initials(post.author)
  }

  const Host := "justinilic.com"

  /** `postUrl`, the address given to the share popover, built from the stored `slug`. */
  function PostUrl(post: BlogPost): string {
    Host + "/blog/" + post.slug
  }

  /** The address of the page the article is actually shown on: its title's slug, as the list's
      cards and the command palette link to it. */
  function CanonicalPostUrl(post: BlogPost): string {
    Host + PostPath(post)
  }

  /** The path of an address on this site. */
  function UrlPath(url: string): (r: Option<string>)
    ensures r.Some? <==> StartsWith(url, Host)
    ensures r.Some? ==> url == Host + r.value
  {
    if StartsWith(url, Host) then Some(url[|Host|..]) else None
  }

  /** The shared address is on this site, and its path is `/blog/` and the stored slug. */
  lemma SharedUrlPath(post: BlogPost)
    ensures UrlPath(PostUrl(post)) == Some("/blog/" + post.slug)
  {
    assert PostUrl(post) == Host + ("/blog/" + post.slug);
  }

  /** The shared address of either mock article leads to the redirect home, not to the
      article: the stored slug is not the slug of the title. */
  lemma SharedLinksRedirect(i: int)
    requires 0 <= i < |MockBlogPosts|
    ensures UrlPath(PostUrl(MockBlogPosts[i])) == Some("/blog/" + MockBlogPosts[i].slug)
    ensures Render(MockBlogPosts, UrlPath(PostUrl(MockBlogPosts[i])).value) == RedirectTo("/")
  {
    SharedUrlPath(MockBlogPosts[i]);
    StoredSlugsRedirect(i);
  }

  /** The canonical address shows the article, for every store whose title slugs are distinct
      and every article whose title has a letter or digit. */
  lemma CanonicalLinksShowPost(posts: seq<BlogPost>, i: int)
    requires 0 <= i < |posts| && DistinctSlugs(posts) && TitleSlug(posts[i]) != []
    ensures UrlPath(CanonicalPostUrl(posts[i])) == Some(PostPath(posts[i]))
    ensures Render(posts, UrlPath(CanonicalPostUrl(posts[i])).value) == PostPage(posts[i])
  {
    BlogListView.CardLinkOpensPost(posts, i);
  }

  // The copy button of a code block

  /** What can happen to a copy button: a copy settles with the result `copyToClipboard`
      resolved to (it reports failure by resolving `false` and never rejects), or the
      two-second timer fires. */
  datatype CopyEvent = CopyResolved(success: bool) | CopyTimerFired

  /** `copied` after one event, as written: every settled copy sets it, whether or not the
      text reached the clipboard, because the failure branch is the `catch`, which
      `copyToClipboard` never reaches. */
  function ButtonStep(copied: bool, e: CopyEvent): (r: bool)
    ensures e.CopyResolved? ==> r
    ensures e.CopyTimerFired? ==> !r
  {
    match e
    case CopyResolved(_) => true
    case CopyTimerFired => false
  }

  /** `copied` after one event, as evidently intended (and as the share popover does it): only
      a copy that succeeded sets it. */
  function CheckedButtonStep(copied: bool, e: CopyEvent): (r: bool)
    ensures e.CopyResolved? ==> (r <==> e.success || copied)
    ensures e.CopyTimerFired? ==> !r
  {
    match e
    case CopyResolved(success) => success || copied
    case CopyTimerFired => false
  }

  function ButtonRun(events: seq<CopyEvent>): bool
    decreases |events|
  {
    if events == [] then false else ButtonStep(ButtonRun(events[..|events| - 1]), events[|events| - 1])
  }

  function CheckedButtonRun(events: seq<CopyEvent>): bool
    decreases |events|
  {
    if events == [] then false else CheckedButtonStep(CheckedButtonRun(events[..|events| - 1]), events[|events| - 1])
  }

  /** As written, a copy that failed shows "Copied!". */
  lemma FailedCopyShowsCopied()
    ensures ButtonRun([CopyResolved(false)])
    ensures CopyResolved(true) !in [CopyResolved(false)]
  {
    assert [CopyResolved(false)][..0] == [];
  }

  /** With the check, "Copied!" shows only after a copy that succeeded, with no timer fired
      since. */
  lemma {:induction false} CheckedCopiedOnlyAfterSuccess(events: seq<CopyEvent>)
    requires CheckedButtonRun(events)
    ensures exists i :: 0 <= i < |events| && events[i] == CopyResolved(true)
              && forall j :: i < j < |events| ==> events[j] != CopyTimerFired
  {
    var last := events[|events| - 1];
    var before := events[..|events| - 1];
    if last == CopyResolved(true) {
      assert events[|events| - 1] == CopyResolved(true);
    } else {
      assert CheckedButtonRun(before);
      CheckedCopiedOnlyAfterSuccess(before);
      var i :| 0 <= i < |before| && before[i] == CopyResolved(true)
                && forall j :: i < j < |before| ==> before[j] != CopyTimerFired;
      assert events[i] == CopyResolved(true);
    }
  }

  /** A code block's copy button, as written. */
  class CopyButton {
    var copied: bool

    constructor()
      ensures !copied
    {
      copied := false;
    }

    /** The button's `aria-label`. */
    function Label(): (r: string)
      reads this
      ensures r == (if copied then "Copied!" else "Copy code")
    {
      if copied then "Copied!" else "Copy code"
    }

    /** `handleCopy` once `copyToClipboard(code)` has resolved. */
    method CopyResolved(success: bool)
      modifies this
      ensures copied == ButtonStep(old(copied), CopyEvent.CopyResolved(success))
    {
      copied := true;
    }

    /** The timer `handleCopy` started. */
    method TimerFired()
      modifies this
      ensures copied == ButtonStep(old(copied), CopyTimerFired)
    {
      copied := false;
    }
  }
}
