/** The constant article store, the router's five child routes and the article page that
    resolves a slug or redirects home (src/app/routes.tsx). */
module Routes {
  import opened Wrappers
  import opened Strings
  import opened App
  import opened Slug
  import opened MockStore

  /** The five children of the root route, in declaration order. */
  datatype Route = IndexRoute | BlogPostRoute | ResumeRoute | CertificationsRoute | ContactRoute

  /** A path segment of a route pattern: fixed text, or a `:name` parameter. */
  datatype Segment = Static(text: string) | Dynamic(name: string)

  /** The pattern of each child, relative to `/`. */
  function Pattern(r: Route): seq<Segment> {
    match r
    case IndexRoute => []
    case BlogPostRoute => [Static("blog"), Dynamic("slug")]
    case ResumeRoute => [Static("resume")]
    case CertificationsRoute => [Static("certifications")]
    case ContactRoute => [Static("contact")]
  }

  /** The segments of an absolute path: `/` has none, `/a/b` has `a` and `b`. */
  function PathSegments(path: string): (r: Option<seq<string>>)
    ensures r.Some? <==> |path| >= 1 && path[0] == '/'
  {
    if |path| >= 1 && path[0] == '/' then
      if path == "/" then Some([]) else Some(SplitOn(path[1..], '/'))
    else None
  }

  /** A static segment matches its own text; a parameter matches any non-empty segment. */
  predicate SegmentMatches(p: Segment, s: string) {
    match p
    case Static(text) => s == text
    case Dynamic(_) => s != []
  }

  predicate RouteMatches(r: Route, segments: seq<string>) {
    && |Pattern(r)| == |segments|
    && forall i :: 0 <= i < |segments| ==> SegmentMatches(Pattern(r)[i], segments[i])
  }

  /** No path matches two children, so the order of the table does not decide anything. */
  lemma ChildrenDisjoint(segments: seq<string>, r1: Route, r2: Route)
    requires RouteMatches(r1, segments) && RouteMatches(r2, segments)
    ensures r1 == r2
  {
    if |segments| == 1 {
      assert SegmentMatches(Pattern(r1)[0], segments[0]);
      assert SegmentMatches(Pattern(r2)[0], segments[0]);
    } else if |segments| == 2 {
      assert r1 == BlogPostRoute && r2 == BlogPostRoute;
    }
  }

  /** The child whose pattern matches `segments`, if any. The patterns are disjoint
      (`ChildrenDisjoint`), so react-router's ranking of routes decides nothing here. */
  function MatchRoute(segments: seq<string>): (r: Option<Route>)
    ensures r.Some? ==> RouteMatches(r.value, segments)
    ensures r.None? ==> forall route: Route :: !RouteMatches(route, segments)
  {
    if segments == [] then Some(IndexRoute)
    else if |segments| == 1 then
      if segments[0] == "resume" then Some(ResumeRoute)
      else if segments[0] == "certifications" then Some(CertificationsRoute)
      else if segments[0] == "contact" then Some(ContactRoute)
      else None
    else if |segments| == 2 && segments[0] == "blog" && segments[1] != [] then Some(BlogPostRoute)
    else None
  }

  /** What the router shows for a path: a page, the article view, a redirect home, or no
      match at all. */
  datatype Screen =
    | HomePage
    | PostPage(post: BlogPost)
    | RedirectTo(target: string)
    | ResumePage
    | CertificationsPage
    | ContactPage
    | NoMatch

  /** The path of an article's page, `/blog/` followed by the slug of its title: where a
      blog card links and where choosing the article in the palette navigates. */
  function PostPath(post: BlogPost): (r: string)
    ensures |r| >= 6 && r[..6] == "/blog/" && r[6..] == TitleSlug(post)
  {
    "/blog/" + TitleSlug(post)
  }

  /** `BlogPostPage` over the article store `posts` (`mockBlogPosts` in the running site):
      looks `slug || ""` up; a hit shows exactly the article found, a miss redirects to `/`
      and shows nothing. */
  function BlogPostPage(posts: seq<BlogPost>, slug: Option<string>): (r: Screen)
    ensures r.PostPage? || r == RedirectTo("/")
    ensures r.PostPage? <==> exists i :: 0 <= i < |posts| && TitleSlug(posts[i]) == slug.GetOr("")
    ensures r.PostPage? ==> r.post in posts && TitleSlug(r.post) == slug.GetOr("")
    ensures r.PostPage? ==> FindPostBySlug(posts, slug.GetOr("")) == Some(r.post)
  {
    match FindPostBySlug(posts, slug.GetOr(""))
    case Some(post) => PostPage(post)
    case None => RedirectTo("/")
  }

  /** The screen a matched child shows, given the segments it matched. */
  function RouteScreen(posts: seq<BlogPost>, route: Route, segments: seq<string>): Screen
    requires RouteMatches(route, segments)
  {
    match route
    case IndexRoute => HomePage
    case BlogPostRoute => BlogPostPage(posts, Some(segments[1]))
    case ResumeRoute => ResumePage
    case CertificationsRoute => CertificationsPage
    case ContactRoute => ContactPage
  }

  /** The screen for a path already split into segments. */
  function RenderSegments(posts: seq<BlogPost>, segments: seq<string>): (r: Screen)
    ensures r.PostPage? ==> r.post in posts
  {
    match MatchRoute(segments)
    case None => NoMatch
    case Some(route) => RouteScreen(posts, route, segments)
  }

  /** The screen the router renders inside the root layout for `path`. */
  function Render(posts: seq<BlogPost>, path: string): (r: Screen)
    ensures r.PostPage? ==> r.post in posts
  {
    match PathSegments(path)
    case None => NoMatch
    case Some(segments) => RenderSegments(posts, segments)
  }

  /** `/blog/<s>` splits into the segments `blog` and `s` when `s` has no `/`. */
  lemma BlogPathSegments(s: string)
    requires '/' !in s
    ensures PathSegments("/blog/" + s) == Some(["blog", s])
  {
    var path := "/blog/" + s;
    assert path[1..] == "blog" + ['/'] + s;
    assert path[0] == '/' && path != "/";
    SplitOnAfterPiece("blog", '/', s);
    SplitOnWithoutSeparator(s, '/');
    assert SplitOn(path[1..], '/') == ["blog"] + [s] == ["blog", s];
    assert PathSegments(path) == Some(SplitOn(path[1..], '/'));
  }

  /** The child a list of segments selects is the one that matches. */
  lemma MatchRouteIsOnlyMatch(segments: seq<string>, route: Route)
    requires RouteMatches(route, segments)
    ensures MatchRoute(segments) == Some(route)
  {
    ChildrenDisjoint(segments, MatchRoute(segments).value, route);
  }

  /** `/blog/<s>` for a non-empty `s` without `/` reaches the article page with slug `s`. */
  lemma RenderBlogPath(posts: seq<BlogPost>, s: string)
    requires s != [] && '/' !in s
    ensures Render(posts, "/blog/" + s) == BlogPostPage(posts, Some(s))
  {
    BlogPathSegments(s);
    assert RouteMatches(BlogPostRoute, ["blog", s]);
    MatchRouteIsOnlyMatch(["blog", s], BlogPostRoute);
  }

  /** `/` shows the home page. */
  lemma RenderRoot(posts: seq<BlogPost>)
    ensures Render(posts, "/") == HomePage
  {
    assert RouteMatches(IndexRoute, []);
    MatchRouteIsOnlyMatch([], IndexRoute);
  }

  /** `/<w>` has the single segment `w` when `w` is non-empty and has no `/`. */
  lemma OneSegmentPath(w: string)
    requires w != [] && '/' !in w
    ensures PathSegments("/" + w) == Some([w])
  {
    var path := "/" + w;
    assert path[1..] == w && path != "/";
    SplitOnWithoutSeparator(w, '/');
    assert PathSegments(path) == Some(SplitOn(path[1..], '/'));
  }

  /** A single segment selects the page of that name, if there is one. */
  lemma MatchOneSegment(w: string)
    requires w != []
    ensures MatchRoute([w]) == (
      if w == "resume" then Some(ResumeRoute)
      else if w == "certifications" then Some(CertificationsRoute)
      else if w == "contact" then Some(ContactRoute)
      else None)
  {
  }

  /** A one-segment path shows the page of that segment when it is `resume`,
      `certifications` or `contact`, and nothing otherwise. */
  lemma RenderOneSegment(posts: seq<BlogPost>, w: string)
    requires w != [] && '/' !in w
    ensures Render(posts, "/" + w) == ResumePage <==> w == "resume"
    ensures Render(posts, "/" + w) == CertificationsPage <==> w == "certifications"
    ensures Render(posts, "/" + w) == ContactPage <==> w == "contact"
    ensures Render(posts, "/" + w) == NoMatch <==> w != "resume" && w != "certifications" && w != "contact"
  {
    OneSegmentPath(w);
    assert Render(posts, "/" + w) == RenderSegments(posts, [w]);
    MatchOneSegment(w);
  }

  /** The segment lists some child matches. */
  predicate KnownSegments(segments: seq<string>) {
    || |segments| == 0
    || (|segments| == 1 && (segments[0] == "resume" || segments[0] == "certifications" || segments[0] == "contact"))
    || (|segments| == 2 && segments[0] == "blog" && segments[1] != [])
  }

  lemma MatchRouteKnown(segments: seq<string>)
    requires MatchRoute(segments).Some?
    ensures KnownSegments(segments)
  {
  }

  /** Splitting a path into segments loses nothing: joining them back with `/` after a
      leading `/` gives the path again. */
  lemma PathSegmentsRoundTrip(path: string)
    requires PathSegments(path).Some?
    ensures path == "/" + JoinWith(PathSegments(path).value, '/')
  {
    assert path == "/" + path[1..];
  }

  /** Conversely, every path the router shows something for is made of segments one of the
      five children matches: `/`, `/resume`, `/certifications`, `/contact`, or `/blog/`
      followed by a non-empty segment. */
  lemma RenderOnlyFiveShapes(posts: seq<BlogPost>, path: string)
    requires Render(posts, path) != NoMatch
    ensures exists segments :: KnownSegments(segments) && path == "/" + JoinWith(segments, '/')
  {
    var segments := PathSegments(path).value;
    assert RenderSegments(posts, segments) != NoMatch;
    MatchRouteKnown(segments);
    PathSegmentsRoundTrip(path);
  }

  /** A generated slug never contains `/`, so it always fits in one path segment. */
  lemma SlugHasNoSlash(title: string)
    ensures '/' !in GenerateSlug(title)
  {
    GenerateSlugShape(title);
    var g := GenerateSlug(title);
    assert forall i :: 0 <= i < |g| ==> g[i] != '/';
  }

  /** Each mock article is reachable at `/blog/` followed by the slug of its title, and the
      page shows exactly that article. */
  lemma MockPostsReachable(i: int)
    requires 0 <= i < |MockBlogPosts|
    ensures Render(MockBlogPosts, "/blog/" + TitleSlug(MockBlogPosts[i])) == PostPage(MockBlogPosts[i])
  {
    TitleSlugsStart();
    MockSlugsDistinct();
    SlugHasNoSlash(MockBlogPosts[i].title);
    RenderBlogPath(MockBlogPosts, TitleSlug(MockBlogPosts[i]));
    FindPostBySlugExact(MockBlogPosts, i);
  }

  /** Lookup never reads the stored `slug` field, and neither stored slug is a generated one,
      so `/blog/<stored slug>` misses and redirects home. */
  lemma StoredSlugsRedirect(i: int)
    requires 0 <= i < |MockBlogPosts|
    ensures Render(MockBlogPosts, "/blog/" + MockBlogPosts[i].slug) == RedirectTo("/")
  {
    StoredSlugsUnused();
    StoredSlugsAreSegments();
    RenderBlogPath(MockBlogPosts, MockBlogPosts[i].slug);
  }
}
