/** The site header (src/app/components/site-header.tsx): its four navigation items, which of
    them is highlighted for the current path, and the mobile menu's open flag. */
module SiteHeader {
  import opened Strings
  import opened App
  import opened Routes

  /** One navigation item (`id`, `label`, `path`); `label` is a Dafny keyword, hence `caption`. */
  datatype NavItem = NavItem(id: string, caption: string, path: string)

  /** `navItems`, in display order. */
  const NavItems: seq<NavItem> := [
    NavItem("home", "Home", "/"),
    NavItem("resume", "Resume", "/resume"),
    NavItem("certifications", "Certifications", "/certifications"),
    NavItem("contact", "Contact", "/contact")
  ]

  /** `isActive(path)` for the current `pathname`: Home is highlighted on `/` and on every
      path that starts with `/blog`; any other item only on its exact path. */
  predicate IsActive(pathname: string, path: string) {
    if path == "/" then pathname == "/" || StartsWith(pathname, "/blog")
    else pathname == path
  }

  /** The positions of the highlighted items. */
  function ActiveItems(pathname: string): (r: set<int>)
    ensures forall i :: i in r <==> 0 <= i < |NavItems| && IsActive(pathname, NavItems[i].path)
  {
    set i | 0 <= i < |NavItems| && IsActive(pathname, NavItems[i].path)
  }

  /** No path highlights two items: the four paths differ, and no path both starts with
      `/blog` and is one of the other three. */
  lemma AtMostOneActive(pathname: string, i: int, j: int)
    requires i in ActiveItems(pathname) && j in ActiveItems(pathname)
    ensures i == j
  {
    if IsActive(pathname, "/") {
      HomePathIsNoOtherPath(pathname);
    }
  }

  /** A path that highlights Home is none of the other three items' paths. */
  lemma HomePathIsNoOtherPath(pathname: string)
    requires IsActive(pathname, "/")
    ensures forall k :: 1 <= k < |NavItems| ==> pathname != NavItems[k].path
  {
    if pathname != "/" {
      assert pathname[1] == "/blog"[1];
    }
  }

  /** An item that is highlighted is the only one highlighted. */
  lemma OnlyActive(pathname: string, k: int)
    requires 0 <= k < |NavItems| && IsActive(pathname, NavItems[k].path)
    ensures ActiveItems(pathname) == {k}
  {
    forall j | j in ActiveItems(pathname)
      ensures j == k
    {
      AtMostOneActive(pathname, j, k);
    }
  }

  /** Home is highlighted on `/` and under `/blog` and nowhere else; each other item exactly on
      its own path, so `/resume/` highlights nothing. */
  lemma ActiveItemPaths(pathname: string)
    ensures 0 in ActiveItems(pathname) <==> pathname == "/" || StartsWith(pathname, "/blog")
    ensures forall i :: 1 <= i < |NavItems| ==> (i in ActiveItems(pathname) <==> pathname == NavItems[i].path)
    ensures ActiveItems("/resume/") == {}
  {
    var p := "/resume/";
    assert p[1] == 'r';
    assert p != "/";
    assert !StartsWith(p, "/blog") by { assert p[..5][1] != "/blog"[1]; }
    assert p != "/resume" by { assert |p| != |"/resume"|; }
    assert p != "/certifications" by { assert |p| != |"/certifications"|; }
    assert p != "/contact" by { assert p[1] != "/contact"[1]; }
  }

  /** The paths the router shows a page for, as segments: each highlights exactly one item. */
  lemma KnownSegmentsHighlightOneItem(segments: seq<string>)
    requires KnownSegments(segments)
    ensures |ActiveItems("/" + JoinWith(segments, '/'))| == 1
  {
    var path := "/" + JoinWith(segments, '/');
    if segments == [] {
      assert path == "/";
      OnlyActive(path, 0);
    } else if |segments| == 1 {
      assert path == "/" + segments[0];
      var k := if segments[0] == "resume" then 1 else if segments[0] == "certifications" then 2 else 3;
      assert path == NavItems[k].path;
      OnlyActive(path, k);
    } else {
      assert JoinWith(segments, '/') == segments[0] + ['/'] + JoinWith(segments[1..], '/');
      assert path == "/blog" + ['/'] + segments[1];
      assert path[..5] == "/blog";
      OnlyActive(path, 0);
    }
  }

  /** Every path the router shows a page for highlights exactly one item: Home for `/` and
      for the article pages, and the item of the same name for the other three. */
  lemma RenderedPathsHighlightOneItem(posts: seq<BlogPost>, path: string)
    requires Render(posts, path) != NoMatch
    ensures |ActiveItems(path)| == 1
  {
    RenderOnlyFiveShapes(posts, path);
    var segments :| KnownSegments(segments) && path == "/" + JoinWith(segments, '/');
    KnownSegmentsHighlightOneItem(segments);
  }

  /** Home is highlighted on every one-segment path that starts with `blog`, such as `/blog` or
      `/blogroll`, although the router shows nothing there. */
  lemma BlogPrefixHighlightsHome(posts: seq<BlogPost>, w: string)
    requires w != [] && '/' !in w && StartsWith(w, "blog")
    ensures ActiveItems("/" + w) == {0}
    ensures Render(posts, "/" + w) == NoMatch
  {
    var path := "/" + w;
    assert path[..5] == "/" + w[..4];
    OnlyActive(path, 0);
    assert w[0] == 'b';
    RenderOneSegment(posts, w);
  }

  /** The header's own state: whether the mobile menu is open. */
  class Header {
    var mobileMenuOpen: bool

    constructor()
      ensures !mobileMenuOpen
    {
      mobileMenuOpen := false;
    }

    /** The menu button flips the flag. */
    method ToggleMenu()
      modifies this
      ensures mobileMenuOpen == !old(mobileMenuOpen)
    {
      mobileMenuOpen := !mobileMenuOpen;
    }

    /** A click on a mobile navigation link closes the menu. */
    method MobileNavClick()
      modifies this
      ensures !mobileMenuOpen
    {
      mobileMenuOpen := false;
    }
  }
}
